# Verified models of the C utilities

A Dafny 4.11 project that models the algorithmic parts of the repository and proves what they promise.
`dafny verify dfyconfig.toml` checks all of it. There are six parts.

**JSON patches (`c/cJSON/cJSON_Utils.c`).** A document is a `Json` tree of item and member lists; its
`Meaning` is a value in which objects are finite maps, so "equal up to member order" is equality of
meanings. Pointers (RFC 6901), patch application and generation (RFC 6902), merge patches (RFC 7396), the
merge sort and both equalities are functions on trees. Each is connected to an independent account on
values: `DataPath` defines the operations of RFC 6902 on maps and sequences, `MergePatch.RfcMerge` is
section 2 of RFC 7396. Comparing and generating sort objects where they stand, and the sort leaves a stale `prev`
behind. The sibling lists with their links are modelled on the heap (`Items`); `Linked` trees carry, for every object,
the one fact about its links that later edits depend on: whether its first member has a `prev`. Patches and merge
patches are applied to such trees (`LinkedPatch`, `LinkedMerge`), and the round trips are stated for them. The loops
and in-place edits of the source are methods proved against these functions (`PatchProcedures`, `MergeProcedures`).
`LinkedItems` shows that the lists on the heap are what the trees say of them.
The case flag is a parameter: keys are compared as `Fold(key, flag)`.

**JSON texts (`c/cJSON/cJSON.c`).** `JsonText` is the text that is printed and a reader over what is left of a
text; `StringLiteral` has the two passes over a string literal. `JsonGrammar` is the grammar of RFC 8259 with all that may
stand between tokens, independently of both, and says what a text says; `JsonReading` and `JsonTextRoundTrip` prove the
reader and the printer against it. `PrintBuffer` is the printer with its fixed or growing buffer, `ParseBuffer` the
parser with its offset and depth. `strtod` is a parameter of the parser. All that is assumed about it is that it takes
an optional minus sign and at most 15 digits as a whole, for the integer that they denote.

**LRU hash table (`c/hash_table`).** `Ring` has the operations on circular lists, `HashTable` the table whose nodes
sit in two rings each, `Lru` the list of entries it stands for and, independently, a map with the time of each
key's last use.

**Streaming MD5 (`c/app/md5.c`).** The context with its two counter words and its buffer; the block function is a
parameter.

**Trees and boards (`c/leetcode` 105, 106, 109, 117, 130).** Rebuilding a tree from traversals, a list cut up into a
balanced search tree, level links, and the flood fill.

**Circular tour (`c/leetcode/134.c`).** The start search, and the cycle lemma it rests on.

## Conditions under which the code does not keep its promise

The code is modelled as it is. Where a property fails, the lemmas named here say exactly when it holds or give an input
on which it does not.

- The escape writer and the in-place decoder do not follow section 4 of RFC 6901: `Pointer.EscapeNamesKey`,
  `Pointer.DecodeInPlaceIsRfc` and `PointerPath.PointerRoundTrip` say for which keys and paths they are right.
- The array index decoder tests the first character where it means the current one, and takes the empty token for 0:
  `PointerIndex.DecodeIndexIsRfc`. So pointers resolve, and operations are carried out, that the RFCs know no
  location for. `Patch.ResolveIsNav` and `PatchRfc.ApplyPatchIsRfc` are right exactly when nothing is found or no such
  token is met; `Patch.EmptyTokenResolves` and `PatchRfc.EmptyIndexIsRemoved` are cases where one is.
- A move of a value to a place below itself is not refused. It is carried out exactly when the element that takes the
  value's place has room for it: `PatchRfc.MoveIntoItself`, `PatchRfc.MoveIntoItselfHappens`.
- A move or copy to the root is always an error: `PatchRfc.NothingMovesToTheRoot`.
- The merge step of the sort always ignores letter case. Different keys come out in byte order for every arrangement of
  a list exactly when the byte order of the keys is also their order without case, or the list consists of two keys that
  differ in case only: `Sorting.ByteOrderComesOutRight`. The same condition decides whether the comparison ignores the
  order of members: `Compare.CompareJsonIgnoresOrder`, `Compare.CompareJsonMissesEqualObjects`. So a `test` may fail
  that should not; it never succeeds wrongly: `Compare.EqualFoundIsEqual`, `PatchRfc.ApplyPatchIsRfc`.
- A member is removed by a patch without regard to letter case, even with the other flag. That is right exactly
  when both ways of comparing keys find the same member first: `Patch.RemovalIgnoresCase`, `Patch.OtherMemberIsRemoved`.
- Sorting leaves the old `prev` in the new first node: `Items.SortObject`. Detaching the item that comes to stand at a
  position is then right exactly when it is not the first, or the first member is the one from before:
  `Items.SortThenDetach`, `Items.RemoveAfterSort`. So an edit may go wrong after a `test`, after a patch has been
  generated from the document, and after a merge patch has been: `LinkedRoundTrip.TestThenRemove`,
  `LinkedRoundTrip.ArgumentIsSpoilt`, `LinkedMerge.MergedArgumentIsSpoilt`. On a document with well linked lists it
  does not: `LinkedRoundTrip.RunLinked`, `LinkedRoundTrip.PatchesTakeFromToTo`, `LinkedMerge.MergePatchTakesFromToGoal`.
- A merge patch cannot set a null, and the generator walks two lists that are sorted without case by comparing bytes, so
  that it may remove a key that both objects have: `MergeExact.CommonKeyIsRemoved`. `MergeExact.GenerateReaches` says
  for all trees exactly when the goal is reached, `MergeExact.AlikeReaches` which part of that is about nulls.
- `hash_pop` reads a variable before its first assignment (a parameter here) and leaves the counter. When it removes
  what it is asked for, and when it can be relied upon: `Lru.PopsAsAsked`, `Lru.PopIsReliable`, `Lru.PopTakesAll`; how
  far the counter is off: `Lru.SizeCountsPopped`.
- `buildTree` cannot tell trees apart in which a value occurs again in the left subtree of its node:
  `RebuildTree.PreorderRebuildsClean`, `RebuildTree.RepeatedValueIsAmbiguous`.
- The block loop of `MD5Update` reads past its input for lengths close to 2^32: `Md5.GuardWraps`.
- Four characters that are not hexadecimal digits are read as code point zero, which ends the C string:
  `StringLiteral.NoDigitsAreAccepted`. `StringLiteral.WholeIsClean` says which accepted literals are well-formed,
  `StringLiteral.AcceptedIsReadUpTo` what the others are read as.

## Model

| member | source | states |
|---|---|---|
| `Text.ComparesByFirstDifference` | c/cJSON/cJSON_Utils.c:73-100 | two keys compare as equal exactly if they match, and otherwise the first character in which they differ decides, by its code; without regard to case 65 to 90 count as 97 to 122 |
| `Json.FindIsFirst` | c/cJSON/cJSON.c:1772-1798 | a lookup finds the first member whose key has the same characters, or without regard to case the same letters; and none if there is none |
| `Sorting.SortPermutes` | c/cJSON/cJSON_Utils.c:460-568 | the merge sort permutes its input |
| `Sorting.SortOrders` | c/cJSON/cJSON_Utils.c:460-568 | its result is in non-decreasing order without regard to case, for any keys when the flag is off, and in byte order wherever that is also the order of the lower-case keys |
| `Sorting.SortSorts` | c/cJSON/cJSON_Utils.c:460-568 | with distinct keys the order is strict under the given flag, under the same condition |
| `Sorting.ByteOrderComesOutRight` | c/cJSON/cJSON_Utils.c:460-568 | different keys come out in byte order from every arrangement exactly when the byte order of the keys is also their order without case, or there are just two and they differ in case only |
| `Sorting.NeighboursSuffice` | c/cJSON/cJSON_Utils.c:470-485 | the early exit on neighbours is taken exactly for strictly sorted lists |
| `Compare.SortKeepsMeaning` | c/cJSON/cJSON_Utils.c:570-577 | sorting the members of an object does not change what it means, whatever its keys and either flag |
| `Compare.EqualFoundIsEqual` | c/cJSON/cJSON_Utils.c:579-665 | trees that sort-and-zip comparison takes for equal mean the same value, whatever their keys |
| `Compare.CompareKeepsMeaning` | c/cJSON/cJSON_Utils.c:579-665 | comparing sorts its operand in place up to the first difference, and that does not change what it means |
| `Compare.CompareJsonIsEqualMeaning` | c/cJSON/cJSON_Utils.c:579-665 | where sorting by the flag comes out right, the comparison holds exactly when both trees mean the same value |
| `Compare.EqualIsEqualMeaning` | c/cJSON/cJSON.c:2799-2922 | comparison by lookups holds exactly when both trees mean the same value |
| `Compare.EqualitiesAgree` | c/cJSON/cJSON.c:2799-2922 | sort-and-zip comparison implies comparison by lookups, both agree where sorting is right, and comparison by lookups is an equivalence for all trees with distinct keys |
| `Compare.CompareJsonIgnoresOrder` | c/cJSON/cJSON_Utils.c:579-665 | for different keys, any two arrangements of an object compare as equal in byte order exactly when the byte order of the keys is also their order without case, or there are just two that differ in case only |
| `Compare.CompareJsonMissesEqualObjects` | c/cJSON/cJSON_Utils.c:487-531 | two objects that mean the same and compare as different |
| `Pointer.ComparePointersIsRfc` | c/cJSON/cJSON_Utils.c:102-136 | a token names a key exactly when it unescapes to it by section 4 of RFC 6901, for all keys and tokens |
| `Pointer.EscapeNamesKey` | c/cJSON/cJSON_Utils.c:155-177 | the written token stands for its key exactly when the key has no '~', and no '/' unless the byte left unwritten holds '~' |
| `Pointer.EscapeFails` | c/cJSON/cJSON_Utils.c:155-177 | a key with a '~' whose token stands for another key |
| `Pointer.DecodeInPlaceIsRfc` | c/cJSON/cJSON_Utils.c:339-370 | the in-place decoder is right exactly for tokens without "~1" whose characters behind an escape repeat the bytes they should replace |
| `Pointer.DecodeInPlaceFails` | c/cJSON/cJSON_Utils.c:339-370 | two tokens that are decoded wrongly |
| `Pointer.DecoderUndoesWriter` | c/cJSON/cJSON_Utils.c:155-177 | the in-place decoder undoes the escape writer exactly on keys without '/' and with at most one '~', at the end (and, if the unwritten byte holds '~', on '/' behind it) |
| `Pointer.DecodeDecimal` | c/cJSON/cJSON_Utils.c:254-279 | a printed index decodes to itself |
| `Pointer.DecodeIndexOfToken` | c/cJSON/cJSON_Utils.c:254-279 | the rest of the pointer has no influence on the index of its first token |
| `PointerIndex.DecodeIndexIsRfc` | c/cJSON/cJSON_Utils.c:254-279 | the decoder reads the array index of section 4 of RFC 6901 exactly when the token is not empty, has no character above '9' behind a digit, and fits |
| `PointerIndex.DecodeIndexFails` | c/cJSON/cJSON_Utils.c:263-272 | a token that is no index and is decoded as 59 |
| `PointerIndex.LastMisreadIsNoIndex` | c/cJSON/cJSON_Utils.c:254-279 | a misread token stands for no element of any array; any other one, decoded in place first, is read as the RFC reads it |
| `PointerPath.PointerRoundTrip` | c/cJSON/cJSON_Utils.c:179-239 | the pointer to a node resolves to that node exactly when every key on the way is writable and first of its kind |
| `PointerPath.SafeTreesLeadBack` | c/cJSON/cJSON_Utils.c:179-239 | which it always is in trees with distinct keys free of '~' and '/' |
| `PointerPath.NamesItself` | c/cJSON/cJSON_Utils.c:155-177 | a key is found under its own written token exactly when it is writable |
| `PointerPath.FindPointerFromObjectTo` | c/cJSON/cJSON_Utils.c:179-239 | the search finds a node below the root, and none elsewhere, and returns its pointer |
| `DataPath.PutLaws` | c/cJSON/cJSON_Utils.c:281-326 | reading, writing and writing twice at one path obey the laws of a lens |
| `DataPath.ReplaceIsRemoveThenAdd` | c/cJSON/cJSON_Utils.c:905-942 | replacing by removing and adding, as the source does, is the replacement of section 4.3 of RFC 6902 |
| `DataPath.MovedBelowItself` | c/cJSON/cJSON_Utils.c:876-942 | removing a value and adding it below its own place are possible one after the other exactly if an element moves up into its place and takes the rest of the path |
| `DataPath.TakenRight` | c/cJSON/cJSON_Utils.c:339-370 | where the last token is decoded right, an operation at the location that the library takes a path for is the operation at the path |
| `Patch.ResolveIsNav` | c/cJSON/cJSON_Utils.c:281-326 | a pointer denotes exactly what it resolves to if no array index on the way is misread, and nothing otherwise; so resolution is right exactly when it fails or meets no such index |
| `Patch.EmptyTokenResolves` | c/cJSON/cJSON_Utils.c:254-279 | a pointer that denotes nothing and resolves to the first element |
| `Patch.PutAtIsPut` | c/cJSON/cJSON_Utils.c:281-326 | changing the resolved node changes the meaning at that path only, for all trees with distinct keys |
| `Patch.DetachIsRemove` | c/cJSON/cJSON_Utils.c:406-457 | for all documents and pointers, what is detached is what the removal of section 4.2 of RFC 6902 takes out at the location that the library finds, and that removal is an error otherwise or if an index is misread |
| `Patch.RemovalIgnoresCase` | c/cJSON/cJSON_Utils.c:373-457 | taking a member out without regard to case is the removal of its key exactly when both ways of comparing keys find the same member first |
| `Patch.OtherMemberIsRemoved` | c/cJSON/cJSON_Utils.c:406-457 | removing "a" with the byte-order flag takes out "A" |
| `Patch.AddAtPathIsAdd` | c/cJSON/cJSON_Utils.c:943-1003 | for all documents and pointers, what is added is what the addition of section 4.1 adds at the location that the library takes the path for, with "-" and index bounds |
| `Patch.FoundIsTaken` | c/cJSON/cJSON_Utils.c:406-457 | for a key from which no other one differs in case only, the location that is found is that of the decoded key |
| `PatchRfc.ApplyPatchIsTaken` | c/cJSON/cJSON_Utils.c:782-1009 | every operation on whatever pointer, escapes and keys is the one of RFC 6902 at the location that the library takes its path for; a test that succeeds is right to |
| `PatchRfc.ApplyPatchIsRfc` | c/cJSON/cJSON_Utils.c:782-1009 | section 4 of RFC 6902 for every operation whose last token is decoded right: status 0 on a straight path is right, and unless a test compares where sorting goes wrong, status and effect are right exactly when the status is not 0 or the library misreads no index and moves nothing below itself |
| `PatchNames.PatchIsNamed` | c/cJSON/cJSON_Utils.c:717-757 | a patch with all members does what RFC 6902 makes of the operation that its "op" names, with the values of its "path", "from" and "value"; any other name has status 3 and changes nothing |
| `PatchNames.NothingNamed` | c/cJSON/cJSON_Utils.c:782-803 | a patch without a string for its path has status 2, and one without a string for its operation status 3 |
| `PatchNames.WhatIsMissing` | c/cJSON/cJSON_Utils.c:862-960 | what is missing decides the status: 13 for nothing to remove, 7 for no value, 4 for no "from", 5 for nothing there, 1 for a test of nothing |
| `PatchNames.StatusOfAddition` | c/cJSON/cJSON_Utils.c:943-1003 | on a path without misread index, an addition has status 9 where no container is, 11 for a token that is no index, 10 for an index beyond the end, and 0 otherwise |
| `PatchRfc.EmptyIndexIsRemoved` | c/cJSON/cJSON_Utils.c:862-878 | an operation that is an error in the RFC and is carried out |
| `PatchRfc.MoveIntoItself` | c/cJSON/cJSON_Utils.c:876-942 | the RFC forbids moving a value below its own place; the library does it exactly when the element that takes its place has room for it |
| `PatchRfc.MoveIntoItselfHappens` | c/cJSON/cJSON_Utils.c:876-942 | such a move with status 0 |
| `PatchRfc.NothingMovesToTheRoot` | c/cJSON/cJSON_Utils.c:876-942 | moving or copying to the root never succeeds |
| `PatchRoundTrip.RunAppend` | c/cJSON/cJSON_Utils.c:1011-1038 | running two patch lists one after the other is running their concatenation |
| `LinkedPatch.ExecuteErased` | c/cJSON/cJSON_Utils.c:782-1009 | unless a stale link is followed, an operation has the same status and effect on a linked tree as on the tree without links; none is followed in a well linked one, and only a test can leave one that is not |
| `LinkedPatch.AllErased` | c/cJSON/cJSON_Utils.c:1011-1038 | the same for a list of operations |
| `Linked.ErasedCompared` | c/cJSON/cJSON_Utils.c:579-665 | what the comparison leaves of a linked tree is, without its links, what it leaves of the tree |
| `LinkedRoundTrip.RunLinked` | c/cJSON/cJSON_Utils.c:1011-1038 | if a list of operations is without error on the data, the library applies all of them with that result unless it follows a stale link; it follows none in a well linked document if the tests among them move no first member |
| `LinkedRoundTrip.TestThenRemove` | c/cJSON/cJSON_Utils.c:606-656 | a test and a removal, both without error on the data, of which the second follows the link that the first has left |
| `PatchRoundTrip.Generated` | c/cJSON/cJSON_Utils.c:1114-1252 | at any path in any surroundings, the generated patches turn the data there into the goal and touch nothing else; keys that are added, removed or replaced may be any that the decoder gives back |
| `RfcRoundTrip.GeneratedIsRfc` | c/cJSON/cJSON_Utils.c:1114-1252 | with keys free of '~' and '/', the generated patches take one tree to the other for whoever applies them by RFC 6902 |
| `RfcRoundTrip.GeneratedEdits` | c/cJSON/cJSON_Utils.c:1114-1252 | whatever is generated adds, removes or replaces; with such keys, at paths without escapes |
| `PatchRoundTrip.SurplusGenerated` | c/cJSON/cJSON_Utils.c:1180-1194 | repeated removal at one index removes all surplus elements |
| `PatchRoundTrip.MissingGenerated` | c/cJSON/cJSON_Utils.c:1195-1199 | repeated addition at "-" appends the missing elements in order |
| `PatchRoundTrip.JoinGenerated` | c/cJSON/cJSON_Utils.c:1203-1246 | the walk along both sorted member lists turns one object into the other |
| `PatchRoundTrip.NoPatchForEqual` | c/cJSON/cJSON_Utils.c:1114-1252 | nothing is written exactly for trees that the comparison finds equal |
| `PatchRoundTrip.ComposedReads` | c/cJSON/cJSON_Utils.c:1069-1107 | a composed patch is read as the operation, path and value it was composed of |
| `PatchRoundTrip.LongerPath` | c/cJSON/cJSON_Utils.c:1091-1100 | a plain suffix makes the path one token longer, and the token is the suffix |
| `LinkedRoundTrip.PatchesTakeFromToTo` | c/cJSON/cJSON_Utils.c:1114-1252 | generated patches, applied in order to any well linked document that means `from`, all succeed and leave a well linked one that means `to` |
| `LinkedRoundTrip.CreatedMeans` | c/cJSON/cJSON_Utils.c:1114-1252 | what the generator leaves of its first argument means what it meant |
| `LinkedRoundTrip.PatchesTakeArgumentToTo` | c/cJSON/cJSON_Utils.c:1114-1252 | the generator's own argument can be patched if generating has moved no first member |
| `LinkedRoundTrip.ArgumentIsSpoilt` | c/cJSON/cJSON_Utils.c:1187-1246 | a document whose own generated patch, applied to it, follows a stale link |
| `PatchRoundTrip.AddedKeyComesBack` | c/cJSON/cJSON_Utils.c:1203-1246 | from the empty object to one member: the round trip succeeds exactly if the decoder undoes what the writer made of the key |
| `PatchProcedures.ComparePointersLoop` | c/cJSON/cJSON_Utils.c:102-136 | the loop computes the comparison |
| `PatchProcedures.DecodeArrayIndex` | c/cJSON/cJSON_Utils.c:254-279 | the digit loop, with its test of the first character, computes the decoder |
| `PatchProcedures.DecodePointerInPlace` | c/cJSON/cJSON_Utils.c:339-370 | the two-pointer loop leaves the decoded text in the buffer |
| `PatchProcedures.EncodeStringAsPointer` | c/cJSON/cJSON_Utils.c:138-177 | the writer fills exactly the counted length with the escaped key |
| `PatchProcedures.GetItemFromPointer` | c/cJSON/cJSON_Utils.c:281-326 | following the tokens one by one reaches the resolved node |
| `PatchProcedures.CompareJsonLoop` | c/cJSON/cJSON_Utils.c:579-665 | the loops that stop at the first difference compute the comparison, and leave the operand sorted up to there |
| `PatchProcedures.EqualLoop` | c/cJSON/cJSON.c:2799-2922 | the two rounds of lookups compute the comparison |
| `PatchProcedures.Document.Detach` | c/cJSON/cJSON_Utils.c:406-457 | document and detached item are those of the function, and a stale link is followed exactly where it says |
| `PatchProcedures.Document.Add` | c/cJSON/cJSON_Utils.c:943-1003 | new document and status are those of the function, on every error path |
| `PatchProcedures.Document.Apply` | c/cJSON/cJSON_Utils.c:782-1009 | new document and status of one operation, the sorting done by a test included |
| `PatchProcedures.Document.ApplyEach` | c/cJSON/cJSON_Utils.c:1011-1038 | operations are applied in order up to the first one that fails or follows a stale link |
| `PatchProcedures.PatchList.Create` | c/cJSON/cJSON_Utils.c:1114-1252 | the recursive procedure appends exactly the generated list, and leaves its argument sorted wherever two objects met |
| `PatchProcedures.PatchList.CreateForArrays` | c/cJSON/cJSON_Utils.c:1150-1202 | the three loops over arrays append common, surplus and missing patches |
| `PatchProcedures.PatchList.CreateForObjects` | c/cJSON/cJSON_Utils.c:1203-1246 | the loop over two sorted lists appends the patches of every key |
| `MergePatch.MergePatchIsRfc` | c/cJSON/cJSON_Utils.c:1294-1351 | merging computes the function of section 2 of RFC 7396: nulls delete, objects merge, other members stay |
| `MergePatch.MergeMemberIsRfc` | c/cJSON/cJSON_Utils.c:1312-1348 | one member of the patch changes one entry of the target |
| `MergePatch.CompareJsonOfAlike` | c/cJSON/cJSON_Utils.c:579-665 | where the orders of the keys agree, the comparison decides equality of meanings, whatever the flags of both are |
| `MergePatch.GenerateIsDifference` | c/cJSON/cJSON_Utils.c:1363-1439 | where the orders of the keys agree, the generated patch is the difference of both values, and there is none exactly for equal objects, for either flag |
| `MergePatch.MergeUndoesDifference` | c/cJSON/cJSON_Utils.c:1363-1439 | on values, merging the difference gives the goal exactly when no null stands where something must change |
| `MergePatch.MergePatchTakesFromToGoal` | c/cJSON/cJSON_Utils.c:1363-1439 | where the orders of the keys agree, the generated patch reaches the goal exactly when no null stands where something must change |
| `MergeWalk.PassIsByStairs` | c/cJSON/cJSON_Utils.c:1382-1430 | two lists in any order, walked by always passing the smaller head: two keys are passed in the lexicographic order of the greater and greater keys that lead to them from behind, and together exactly when these are the same |
| `MergeExact.WalkEffect` | c/cJSON/cJSON_Utils.c:1382-1430 | what all generated members together do to one key, for lists in any order |
| `MergeExact.MergedLookup` | c/cJSON/cJSON_Utils.c:1312-1348 | merging member by member does to each key what the members with that key do, in order |
| `MergeExact.GenerateReaches` | c/cJSON/cJSON_Utils.c:1294-1439 | the merge-patch round trip for all trees with distinct keys and either flag: the exact condition on keys and nulls under which the goal is reached |
| `MergeExact.AlikeReaches` | c/cJSON/cJSON_Utils.c:1294-1439 | where the orders of the keys agree, that condition is the one on nulls |
| `MergeExact.CommonKeyIsRemoved` | c/cJSON/cJSON_Utils.c:1382-1430 | a generated patch that removes a key both documents have |
| `LinkedMerge.MergedErased` | c/cJSON/cJSON_Utils.c:1294-1351 | unless a stale link is followed, merging does to a linked tree what it does to the tree without links; none is followed in a well linked one, which stays so |
| `LinkedMerge.WalkedMeans` | c/cJSON/cJSON_Utils.c:1363-1439 | what the generator leaves of its first argument means what it meant |
| `LinkedMerge.MergePatchTakesFromToGoal` | c/cJSON/cJSON_Utils.c:1294-1439 | the round trip for any well linked document that means `from`, with its exact condition |
| `LinkedMerge.MergePatchTakesArgumentToGoal` | c/cJSON/cJSON_Utils.c:1294-1439 | and for the generator's own argument if generating has moved no first member |
| `LinkedMerge.MergedArgumentIsSpoilt` | c/cJSON/cJSON_Utils.c:1378-1430 | a document whose own generated merge patch, merged into it, follows a stale link |
| `MergePatch.NullFreeGoalIsReached` | c/cJSON/cJSON_Utils.c:1294-1439 | where the orders of the keys agree, a goal without nulls in its objects is always reached |
| `MergeProcedures.ObjectItem.DetachItem` | c/cJSON/cJSON.c:2116-2128 | the first matching member leaves the list, unless that follows a stale link |
| `MergeProcedures.ObjectItem.Merge` | c/cJSON/cJSON_Utils.c:1294-1351 | the loop edits the member list into the merged one |
| `MergeProcedures.MergePatchInto` | c/cJSON/cJSON_Utils.c:1294-1351 | the recursive procedure computes the merge |
| `MergeProcedures.GeneratePatch` | c/cJSON/cJSON_Utils.c:1363-1439 | the recursive procedure computes the generated patch, and leaves its argument sorted where it was walked or compared |
| `MergeProcedures.PatchObject.AppendDifferences` | c/cJSON/cJSON_Utils.c:1382-1430 | the loop over both sorted lists appends exactly the differences |
| `Items.IsSorted` | c/cJSON/cJSON_Utils.c:470-485 | the walk over the links decides whether neighbours are in strict order |
| `Items.FindMiddle` | c/cJSON/cJSON_Utils.c:487-504 | the two-speed walk stops at the second half; both halves are non-empty and shorter |
| `Items.MergeLists` | c/cJSON/cJSON_Utils.c:508-566 | relinking two chains gives the chain of the merged sequence, and its head keeps its `prev` |
| `Items.SortItems` | c/cJSON/cJSON_Utils.c:460-568 | the `next` chain is the sorted sequence and every inner `prev` its inverse; the head keeps its old `prev` |
| `Items.SortObject` | c/cJSON/cJSON_Utils.c:570-577 | the list is the sorted one; its first node has a `prev` exactly if the first one had one before or another one has come first |
| `Items.AddItemToArray` | c/cJSON/cJSON.c:1844-1872 | the item becomes the last of the list; what the first node points back at stays |
| `Items.InsertItemInArray` | c/cJSON/cJSON_Utils.c:668-703 | the item gets the asked position; one past the end appends, beyond that fails |
| `Items.DetachItemViaPointer` | c/cJSON/cJSON.c:2071-2099 | any item of a well linked list, and any but the first of another one, leaves the list; behind a first node with a stale `prev` the list becomes circular |
| `Items.DetachItemFromArray` | c/cJSON/cJSON_Utils.c:373-404 | the item at an index leaves the list, and the list stays well linked |
| `Items.SortThenDetach` | c/cJSON/cJSON_Utils.c:460-577 | after sorting a well linked list, detaching the item at a position leaves the list without it exactly when it is not the first, or the first member is the one from before |
| `Items.RemoveAfterSort` | c/cJSON/cJSON_Utils.c:498-502 | sorting two items and detaching the first leaves an item that follows itself |
| `LinkedItems.SortShown` | c/cJSON/cJSON_Utils.c:570-577 | a list on the heap that shows the members of a linked object shows those of the sorted object afterwards, its stale `prev` included |
| `LinkedItems.DetachShown` | c/cJSON/cJSON.c:2071-2099 | and those of the object without a member |
| `LinkedItems.AddShown` | c/cJSON/cJSON.c:1844-1872 | and those of the object with one more |
| `LinkedItems.DetachSpoils` | c/cJSON/cJSON.c:2071-2099 | where the linked object says that a stale link is followed, the list is none any more if the link leads into it |
| `StringLiteral.Utf8IsRfc` | c/cJSON/cJSON.c:637-690 | the encoder's bytes are the shortest UTF-8 form of any code point that is no surrogate, by section 3 of RFC 3629 |
| `StringLiteral.TokenFits` | c/cJSON/cJSON.c:698-824 | no step of the second pass writes more than the first pass reserved for the bytes it reads, even when the passes are out of step |
| `StringLiteral.DecodedFits` | c/cJSON/cJSON.c:698-824 | hence the whole output fits, including an escape that looks at the closing quote |
| `StringLiteral.ReservationSuffices` | c/cJSON/cJSON.c:711-739 | output and terminator fit into the allocation |
| `StringLiteral.UnitIsToken` | c/cJSON/cJSON.c:577-695 | a well-formed unit is one token and gives the bytes that it denotes, surrogate pairs included |
| `StringLiteral.LiteralMeansOne` | c/cJSON/cJSON.c:698-824 | a literal denotes one text only |
| `StringLiteral.LiteralIsRead` | c/cJSON/cJSON.c:698-824 | every well-formed literal of section 7 of RFC 8259 without code point zero is read to the bytes that it denotes |
| `StringLiteral.WholeIsClean` | c/cJSON/cJSON.c:698-824 | an accepted literal is a well-formed one without code point zero exactly when the second pass meets no zero byte and no "\u" with other than four hexadecimal digits or with code point zero |
| `StringLiteral.AcceptedIsReadUpTo` | c/cJSON/cJSON.c:698-824 | every accepted literal is read as the well-formed units before the first such token |
| `StringLiteral.NoDigitsAreAccepted` | c/cJSON/cJSON.c:540-573 | a literal with "\u" and no digits that is accepted and cut off there |
| `JsonText.ReadValue` | c/cJSON/cJSON.c:1212-1264 | a value takes at least one character, so reading ends |
| `JsonReading.TextIsRead` | c/cJSON/cJSON.c:984-1077 | every text of a value by the grammar of RFC 8259, with any white space around its tokens and an optional byte order mark, is parsed to what it says if it nests at most 1000 levels; what stands behind it is refused exactly if nothing may stand there |
| `JsonReading.ValueIsRead` | c/cJSON/cJSON.c:1212-1264 | at any depth and before any text, such a text is read to what it says unless it nests too deeply |
| `JsonReading.ElementsAreRead` | c/cJSON/cJSON.c:1341-1432 | elements are read in order up to the closing bracket |
| `JsonReading.FieldsAreRead` | c/cJSON/cJSON.c:1497-1603 | members are read in order up to the closing brace, with white space around keys and colons |
| `JsonReading.ParsedIsText` | c/cJSON/cJSON.c:984-1077 | whatever is parsed is the text of the value that is returned, with literals that may be cut off, and only white space stands behind it if nothing else may |
| `JsonReading.ReadIsText` | c/cJSON/cJSON.c:1212-1264 | whatever is read of a text is the text of the value that is returned, and nests at most 1000 levels |
| `JsonGrammar.IntegerIsNumeral` | c/cJSON/cJSON.c:266-340 | an optional minus sign and at most 15 digits are a number, ten times the value so far plus the digit from left to right |
| `JsonTextRoundTrip.StringReadsBack` | c/cJSON/cJSON.c:827-946 | a printed string is read back as itself, whatever follows |
| `JsonTextRoundTrip.PrintedNumberDenotes` | c/cJSON/cJSON.c:474-537 | a printed integer of at most 15 digits is a text that denotes it, with no superfluous zero and no sign for zero |
| `JsonTextRoundTrip.NumberReadsBack` | c/cJSON/cJSON.c:474-537 | a printed integer of 15 digits is read back as itself |
| `JsonTextRoundTrip.PrintedIsText` | c/cJSON/cJSON.c:1267-1338 | what is printed is a text of the value, with nothing between tokens or, formatted, the line feeds, tabs and spaces of the style, and nothing escaped that need not be |
| `JsonTextRoundTrip.ValueReadsBack` | c/cJSON/cJSON.c:1267-1338 | at any depth and before any text, a printed value is read back as itself unless it nests too deeply |
| `JsonTextRoundTrip.PrintedTextParses` | c/cJSON/cJSON.c:1000-1077 | a printed tree is parsed to itself exactly when it nests at most 1000 levels, and refused otherwise |
| `JsonTextRoundTrip.ReadIsAcceptable` | c/cJSON/cJSON.c:1212-1264 | whatever is accepted nests at most 1000 levels and holds C strings only |
| `JsonTextRoundTrip.ReprintedTextParses` | c/cJSON/cJSON.c:1000-1150 | any accepted text, printed again in either style, is parsed to the same tree |
| `PrintBuffer.Printer.Ensure` | c/cJSON/cJSON.c:373-458 | room is granted exactly within the limit, and every byte written so far is kept |
| `PrintBuffer.Printer.UpdateOffset` | c/cJSON/cJSON.c:461-471 | the offset moves to the terminator |
| `PrintBuffer.CountEscapes` | c/cJSON/cJSON.c:850-872 | the counted escapes make up the exact length of the escaped string |
| `PrintBuffer.Printer.PrintString` | c/cJSON/cJSON.c:827-946 | succeeds exactly when two bytes more than the text fit, and appends the escaped string |
| `PrintBuffer.Printer.WriteEscaped` | c/cJSON/cJSON.c:892-943 | the writing loop produces the escaped string and stays in bounds |
| `PrintBuffer.Printer.PrintValue` | c/cJSON/cJSON.c:1267-1338 | succeeds exactly when the tree has no invalid item and two bytes more than its text fit, and appends its text |
| `PrintBuffer.Printer.PrintArray` | c/cJSON/cJSON.c:1435-1494 | the same for arrays |
| `PrintBuffer.Printer.PrintObject` | c/cJSON/cJSON.c:1606-1717 | the same for objects, with indentation |
| `PrintBuffer.PrintPreallocated` | c/cJSON/cJSON.c:1192-1209 | succeeds exactly when the length is at least that of the text plus 2; then the buffer holds the text and a terminator |
| `PrintBuffer.Print` | c/cJSON/cJSON.c:1087-1150 | the growing buffer gives the text that `JsonTextRoundTrip.PrintedIsText` describes, for every text of at most 2^31 - 3 bytes |
| `PrintBuffer.PrintBuffered` | c/cJSON/cJSON.c:1162-1190 | so does any initial size, including zero |
| `ParseBuffer.Parser.SkipWhitespace` | c/cJSON/cJSON.c:963-981 | white space is passed, the terminator is not |
| `ParseBuffer.Parser.ParseNumber` | c/cJSON/cJSON.c:266-340 | the copied run of at most 63 characters decides number and offset |
| `ParseBuffer.ParseHex4` | c/cJSON/cJSON.c:540-573 | the value of four digits, or 0 when one is not a digit |
| `ParseBuffer.WriteUtf8` | c/cJSON/cJSON.c:668-690 | the loop from the last byte writes the encoding |
| `ParseBuffer.Parser.Utf16ToUtf8` | c/cJSON/cJSON.c:577-695 | one escaped code unit or surrogate pair, or failure |
| `ParseBuffer.Parser.FirstPass` | c/cJSON/cJSON.c:711-739 | closing quote and reservation are those of the specification |
| `ParseBuffer.Parser.SecondPass` | c/cJSON/cJSON.c:741-803 | the bytes are those of the specification, written inside the allocation |
| `ParseBuffer.Parser.ParseString` | c/cJSON/cJSON.c:698-824 | text and offset, or failure, as the literal says |
| `ParseBuffer.Parser.ParseValue` | c/cJSON/cJSON.c:1212-1264 | the reader's outcome, offset inside the buffer, depth restored |
| `ParseBuffer.Parser.ParseArray` | c/cJSON/cJSON.c:1341-1432 | the same for arrays, with the nesting limit |
| `ParseBuffer.Parser.ParseObject` | c/cJSON/cJSON.c:1497-1603 | the same for objects |
| `ParseBuffer.ParseWithOpts` | c/cJSON/cJSON.c:984-1077 | byte order mark, one value, and nothing behind it if so required |
| `Ring.ListAddBetween` | c/hash_table/list.h:94-103 | an entry put between two neighbours extends the ring there |
| `Ring.ListAdd` | c/hash_table/list.h:138-142 | an entry becomes the first of the ring |
| `Ring.ListAddTail` | c/hash_table/list.h:144-148 | an entry becomes the last of the ring |
| `Ring.ListDel` | c/hash_table/list.h:80-92 | exactly the entry leaves the ring |
| `Ring.ListMoveTail` | c/hash_table/list.h:157-162 | the entry becomes the last of its own ring |
| `Ring.ListSplice` | c/hash_table/list.h:164-180 | all entries of one ring go between two neighbours of another, in order |
| `HashTable.Table.constructor` | c/hash_table/hash_table.c:30-41 | a valid table without entries |
| `HashTable.Table.FindNode` | c/hash_table/hash_table.c:49-56 | walking one bucket ring finds the node with a key, or shows that the whole table has none |
| `HashTable.Table.HashAdd` | c/hash_table/hash_table.c:43-85 | the table stays valid; a new key is the newest entry, a known key keeps its place |
| `HashTable.Table.HashSearch` | c/hash_table/hash_table.c:133-159 | the answer is the value of the key, which becomes the newest entry |
| `HashTable.Table.HashDel` | c/hash_table/hash_table.c:96-119 | exactly that key leaves both rings |
| `HashTable.Table.HashSize` | c/hash_table/hash_table.c:161-165 | the counter, which is that of the model |
| `HashTable.Table.HashPop` | c/hash_table/hash_table.c:167-188 | exactly the oldest entries leave both rings, and the counter stays |
| `HashTable.ThreadedTwice` | c/hash_table/hash_table.c:43-63 | every live node is in the bucket ring of its key and no other, and in the recency ring |
| `HashTable.RingsAreApart` | c/hash_table/hash_table.c:43-63 | no link belongs to two rings |
| `Lru.RunIsClock` | c/hash_table/hash_table.c:43-188 | after any run the entries are those of a map with time stamps, in the order of their last use, and the counter is that of the account |
| `Lru.FoundIsLookup` | c/hash_table/hash_table.c:140-159 | after any run a search answers what the map says |
| `Lru.SizeCountsPopped` | c/hash_table/hash_table.c:161-188 | after any run the counter is the number of entries plus all that were ever popped |
| `Lru.PopsAsAsked` | c/hash_table/hash_table.c:167-188 | after any run, popping `len` entries removes that many exactly when the unset variable is at most the counter or all are to go |
| `Lru.PopLeaves` | c/hash_table/hash_table.c:167-188 | what a pop leaves after any run, for every length: all for 0, nothing for a negative length or an unset variable above the counter, and otherwise all but the oldest |
| `Lru.PopIsReliable` | c/hash_table/hash_table.c:172 | whatever the unset variable holds, the right number is removed exactly when no entry is to stay |
| `Lru.PopTakesAll` | c/hash_table/hash_table.c:172 | a run in which popping one of two entries removes both |
| `Lru.OlderAreBefore` | c/hash_table/hash_table.c:167-188 | an entry has as many older keys as entries before it, so popping removes the oldest |
| `Md5.DecodeEncode` | c/app/md5.c:57-83 | bytes to words undoes words to bytes |
| `Md5.EncodedBytes` | c/app/md5.c:57-69 | every byte of the output, by powers of 256: the low byte of a word comes first |
| `Md5.DecodedWord` | c/app/md5.c:71-83 | every word of the output as the sum of its four bytes, the first one counting least |
| `Md5.LengthField` | c/app/md5.c:45-55 | the length field holds the number of bits in eight bytes, low byte first |
| `Md5.InitialBytes` | c/app/md5.c:11-18 | the initial state has the bytes of section 3.3 of RFC 1321 |
| `Md5.EncodeLoop` | c/app/md5.c:57-69 | words are written low byte first |
| `Md5.DecodeLoop` | c/app/md5.c:71-83 | and read so |
| `Md5.CountMore` | c/app/md5.c:24-29 | the two counter words with their carry count bits modulo 2^64 |
| `Md5.IndexOfCount` | c/app/md5.c:23 | the low word determines the position in the buffer |
| `Md5.GuardWraps` | c/app/md5.c:35 | the guard of the block loop is right exactly for lengths that keep its sum below 2^32 |
| `Md5.PaddedIsUnique` | c/app/md5.c:45-55 | there is one padded message by sections 3.1 and 3.2 of RFC 1321, and its length is a multiple of 64 |
| `Md5.Context.Update` | c/app/md5.c:20-43 | counter, state and live buffer are functions of all bytes put in so far |
| `Md5.Context.Final` | c/app/md5.c:45-55 | the digest is the block function folded over the padded message |
| `Md5.SameBytesSameContext` | c/app/md5.c:20-43 | however a message is cut into updates, the context is the same |
| `LevelLinks.FirstChildFrom` | c/leetcode/117.填充每个节点的下一个右侧节点指针-ii.cpp:112-122 | the walk along the linked parents finds the first node to the right one level down |
| `LevelLinks.Connect` | c/leetcode/117.填充每个节点的下一个右侧节点指针-ii.cpp:105-127 | if everything to the right of a subtree is linked, then afterwards the subtree with it, level by level |
| `LevelLinks.ConnectTree` | c/leetcode/117.填充每个节点的下一个右侧节点指针-ii.cpp:105-127 | every node's `next` is its right neighbour on its level, or null |
| `LevelLinks.LevelOfKids` | c/leetcode/117.填充每个节点的下一个右侧节点指针-ii.cpp:105-127 | a level of a forest is the level above it of its children |
| `LevelLinks.EveryNodeHasALevel` | c/leetcode/117.填充每个节点的下一个右侧节点指针-ii.cpp:105-127 | no node is on no level |
| `SurroundedRegions.Dig` | c/leetcode/130.被围绕的区域.cpp:67-77 | all marked cells are connected to the start, and no marked cell has an unmarked open neighbour |
| `SurroundedRegions.FourNeighbours` | c/leetcode/130.被围绕的区域.cpp:73-76 | marking a cell and its neighbours' regions marks its region |
| `SurroundedRegions.OpenIsClosedIn` | c/leetcode/130.被围绕的区域.cpp:52-59 | after the walk along the border the open cells are those no path joins to it |
| `SurroundedRegions.Solve` | c/leetcode/130.被围绕的区域.cpp:50-66 | a cell keeps its 'O' exactly if a path of 'O' cells joins it to the border; no mark remains |
| `ListToTree.FindBeforeMiddle` | c/leetcode/109.有序链表转换二叉搜索树.cpp:86-95 | the slow pointer stops before the middle node |
| `ListToTree.SortedListToBST` | c/leetcode/109.有序链表转换二叉搜索树.cpp:82-99 | the cut list becomes the middle tree of its values, in new nodes |
| `ListToTree.InorderIsList` | c/leetcode/109.有序链表转换二叉搜索树.cpp:82-99 | its inorder sequence is the list |
| `ListToTree.HeightIsLog` | c/leetcode/109.有序链表转换二叉搜索树.cpp:82-99 | its height is floor(log2 n) + 1 |
| `ListToTree.TreeIsBalanced` | c/leetcode/109.有序链表转换二叉搜索树.cpp:82-99 | the subtrees of any node differ in height by at most 1 |
| `ListToTree.SortedGivesSearchTree` | c/leetcode/109.有序链表转换二叉搜索树.cpp:82-99 | a sorted list gives a search tree |
| `RebuildTree.BuildFromPreorder` | c/leetcode/105.从前序与中序遍历序列构造二叉树.cpp:62-94 | for all inputs on which no end of a vector is passed, new nodes make up the tree of the specification, and the shared vector keeps what that leaves |
| `RebuildTree.BuildFromPostorder` | c/leetcode/106.从中序与后序遍历序列构造二叉树.cpp:63-77 | the same from the end of a postorder vector, right subtree first |
| `RebuildTree.PreorderRebuilds` | c/leetcode/105.从前序与中序遍历序列构造二叉树.cpp:62-94 | a clean tree is rebuilt, and exactly its entries leave the front of the vector |
| `RebuildTree.BuiltFromPreorder` | c/leetcode/105.从前序与中序遍历序列构造二叉树.cpp:62-94 | whatever is built from a long enough vector is clean and has the given traversals |
| `RebuildTree.PreorderRebuildsClean` | c/leetcode/105.从前序与中序遍历序列构造二叉树.cpp:62-94 | from the traversals of a tree that tree is built exactly when no value occurs again in the left subtree of its node |
| `RebuildTree.PostorderRebuilds` | c/leetcode/106.从中序与后序遍历序列构造二叉树.cpp:63-77 | a clean tree is rebuilt, and exactly its entries leave the end of the vector |
| `RebuildTree.BuiltFromPostorder` | c/leetcode/106.从中序与后序遍历序列构造二叉树.cpp:63-77 | whatever is built from a long enough vector is clean and has the given traversals |
| `RebuildTree.PostorderRebuildsClean` | c/leetcode/106.从中序与后序遍历序列构造二叉树.cpp:63-77 | from inorder and postorder, exactly the clean trees are rebuilt |
| `RebuildTree.DistinctIsClean` | c/leetcode/105.从前序与中序遍历序列构造二叉树.cpp:62-94 | trees with distinct values are among those that can be rebuilt |
| `RebuildTree.TraversalsDetermineTree` | c/leetcode/105.从前序与中序遍历序列构造二叉树.cpp:62-94 | inorder together with preorder or with postorder determines a clean tree |
| `RebuildTree.RepeatedValueIsAmbiguous` | c/leetcode/105.从前序与中序遍历序列构造二叉树.cpp:62-94 | a value repeated below its own node makes the traversals ambiguous |
| `CircularTour.StartExists` | c/leetcode/134.c:33-52 | the cycle lemma: a total that is not negative has a start from which no partial sum is |
| `CircularTour.CompletingNeedsTotal` | c/leetcode/134.c:33-52 | a start that completes the tour needs a total, and a first step, that are not negative |
| `CircularTour.CheckoutRoute` | c/leetcode/134.c:13-31 | 0 exactly if the tour from there completes |
| `CircularTour.CanCompleteCircuit` | c/leetcode/134.c:33-52 | the smallest start that completes the tour; -1 exactly if the total is negative or there is no station |

## Left out

- Allocation failure, custom allocators, `free`, `cJSON_Delete`: allocation succeeds and memory is never reused.
- `cJSON_Raw`, `cJSON_IsReference`, `cJSON_StringIsConst` and null arguments: trees own their nodes and their strings.
- Floating point: numbers are integers; printing and parsing use them below 10^15, `valueint` is not modelled, and what
  `strtod` makes of fractions and exponents is left open; negative zero is zero. NaN, infinity and the decimal point of a locale are not modelled.
- `return_parse_end` and the global error position of the parser.
- `Linked`: of the links of a document only the `prev` of the first members is kept, and a run ends where a node is
  unlinked through it; what the heap looks like after that is in `Items` for one list.
- The documents that are compared with or generated towards, and the patch documents, are values: they are sorted in
  place, too, but only read afterwards.
- `Items`: sibling lists are on the heap, with the children of their items left out.
- `PatchProcedures.Document.Detach`: who owns the detached item, and that its own `next` and `prev` are null, is not
  stated; `Items.DetachItemViaPointer` has the links.
- `PatchProcedures.Document.Add`: the relinking of the list that grows is in `Items.InsertItemInArray` and
  `Items.AddItemToArray`.
- `PatchProcedures.Document.Apply`: a `from` member that is not a string is undefined in the source and reported as an
  error here; a patch that is an array has no named members.
- `PatchProcedures.EncodeStringAsPointer`: all bytes the source leaves unwritten are assumed to hold one same character.
- `LinkedRoundTrip.PatchesTakeFromToTo`: keys below which something changes have no '~' or '/' (or only a '/' that
  the unwritten byte happens to make right), and keys that are added, removed or replaced as a whole are such that
  `Pointer.DecoderUndoesWriter` gives them back, because the source writes and decodes other keys wrongly; with the
  byte-order flag the keys of two objects that meet have one order with and without case, because the source sorts and
  removes without case; arrays have at most 2^64 elements.
- `PatchRfc.ApplyPatchIsTaken`: what is removed, moved or replaced in an object has a key from which no other one differs
  in case only; without that, `Patch.DetachIsRemove` says what is detached and `Patch.RemovalIgnoresCase` when that is right.
- `Md5.Context.Update`: lengths for which the block loop would read past its input are excluded by the guard
  condition of `Md5.GuardWraps`. `MD5Transform` is a parameter.
- `HashTable.Table.HashAdd`: keys are excluded whose first byte is above 128 and not divisible by 32; where `char` is
  signed, their bucket index is negative. Debug output and `hash_deinit` are not modelled.
- `CircularTour.CanCompleteCircuit`: sums do not overflow.
- `RebuildTree.BuildFromPreorder`, `RebuildTree.BuildFromPostorder`: inputs on which the source reads past the end of the
  inorder vector are excluded; what it does then is undefined.
- `SurroundedRegions.Solve`: boards are rectangular and have no '.' cell.
- `ParseBuffer.Parser.SecondPass`: bytes are characters below 256; the bit operations of the encoder are written as the
  additions and remainders they amount to.
- `JsonReading.ParsedIsText`: what an accepted literal holds behind the place where it is cut off is not described.
- `PrintBuffer.PrintPreallocated`: the buffer is an array of exactly the given length, and `size_t` does not wrap.
- Sockets, threads, timers, serial and HTTP code, older copies of the same libraries, and the remaining exercises.
