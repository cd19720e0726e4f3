/** `apply_patch` and the list operations under it, on trees of member and element lists. */
module Patch {
  import opened Text
  import opened Sequences
  import opened Json
  import opened Compare
  import opened Pointer
  import opened PointerIndex
  import opened DataPath

  // ----- nodes are reached by child positions

  type Position = seq<nat>

  function Size(j: Json): nat {
    match j
    case Array(items) => |items|
    case Object(ms) => |ms|
    case _ => 0
  }

  function Child(j: Json, i: nat): Json
    requires i < Size(j)
  {
    if j.Array? then j.items[i] else j.members[i].value
  }

  function WithChild(j: Json, i: nat, x: Json): Json
    requires i < Size(j)
  {
    if j.Array? then Array(j.items[i := x]) else Object(j.members[i := Member(j.members[i].key, x)])
  }

  predicate Has(j: Json, pos: Position)
    decreases |pos|
  {
    pos != [] ==> pos[0] < Size(j) && Has(Child(j, pos[0]), pos[1..])
  }

  function At(j: Json, pos: Position): Json
    requires Has(j, pos)
    decreases |pos|
  {
    if pos == [] then j else At(Child(j, pos[0]), pos[1..])
  }

  function PutAt(j: Json, pos: Position, x: Json): Json
    requires Has(j, pos)
    decreases |pos|
  {
    if pos == [] then x else WithChild(j, pos[0], PutAt(Child(j, pos[0]), pos[1..], x))
  }

  // ----- resolving pointers

  function FirstNamed(ms: seq<Member>, p: string, cs: bool): (i: nat)
    ensures i <= |ms|
    ensures i < |ms| ==> ComparePointers(ms[i].key, p, cs)
    ensures forall k :: 0 <= k < i ==> !ComparePointers(ms[k].key, p, cs)
  {
    if ms == [] || ComparePointers(ms[0].key, p, cs) then 0
    else 1 + FirstNamed(ms[1..], p, cs)
  }

  /** One round of the loop in `get_item_from_pointer`: the child the next token names. */
  function ResolveToken(j: Json, p: string, cs: bool): (i: Option<nat>)
    ensures i.Some? ==> i.value < Size(j)
  {
    match j
    case Array(items) =>
      var i := DecodeIndex(p);
      if i.Some? && i.value < |items| then i else None
    case Object(ms) =>
      var i := FirstNamed(ms, p, cs);
      if i < |ms| then Some(i) else None
    case _ => None
  }

  /** `get_item_from_pointer`.  Text that does not start with '/' ends the walk. */
  function Resolve(j: Json, p: string, cs: bool): (pos: Option<Position>)
    ensures pos.Some? ==> Has(j, pos.value)
    decreases |p|
  {
    if p == "" || p[0] != '/' then Some([])
    else
      var i := ResolveToken(j, p[1..], cs);
      if i.None? then None
      else
        var rest := Resolve(Child(j, i.value), p[1..][TokenEnd(p[1..])..], cs);
        if rest.None? then None else Some([i.value] + rest.value)
  }

  /** Index of the last '/' (`strrchr`), or -1. */
  function LastSlash(path: string): (i: int)
    ensures -1 <= i < |path|
    ensures i >= 0 ==> path[i] == '/'
    ensures '/' !in path[i + 1..]
  {
    if path == "" then -1
    else if path[|path| - 1] == '/' then |path| - 1
    else
      var n := |path| - 1;
      var i := LastSlash(path[..n]);
      assert path == path[..n] + [path[n]];
      NoSlashAppended(path[..n], path[n], i + 1);
      i
  }

  lemma NoSlashAppended(init: string, c: char, i: nat)
    requires i <= |init| && '/' !in init[i..] && c != '/'
    ensures '/' !in (init + [c])[i..]
  {
    assert (init + [c])[i..] == init[i..] + [c];
  }

  // ----- taking out and putting in

  /** The child `detach_path` takes out: by index, or by key with letter case ignored. */
  function ChildToDetach(parent: Json, child: string): (i: Option<nat>)
    ensures i.Some? ==> i.value < Size(parent)
  {
    match parent
    case Array(items) =>
      var i := DecodeIndex(child);
      if i.Some? && i.value < |items| then i else None
    case Object(ms) =>
      var i := Find(ms, child, false);
      if i < |ms| then Some(i) else None
    case _ => None
  }

  function WithoutChild(j: Json, i: nat): Json
    requires i < Size(j)
  {
    if j.Array? then Array(RemoveAt(j.items, i)) else Object(RemoveAt(j.members, i))
  }

  datatype Detached = Detached(item: Json, rest: Json)

  /** `detach_path`: the detached item and what is left of the document. */
  function DetachPath(doc: Json, path: string, cs: bool): Option<Detached> {
    var slash := LastSlash(path);
    if slash < 0 then None
    else DetachChild(doc, path[..slash], DecodeInPlace(path[slash + 1..], 0, 0), cs)
  }

  function DetachChild(doc: Json, parentPointer: string, child: string, cs: bool): Option<Detached> {
    var pos := Resolve(doc, parentPointer, cs);
    if pos.None? then None
    else
      var parent := At(doc, pos.value);
      var i := ChildToDetach(parent, child);
      if i.None? then None
      else Some(Detached(Child(parent, i.value), PutAt(doc, pos.value, WithoutChild(parent, i.value))))
  }

  /** Delete the member with the key if there is one, then append. */
  function SetMember(ms: seq<Member>, key: string, value: Json, cs: bool): seq<Member> {
    DropMember(ms, key, cs) + [Member(key, value)]
  }

  /** The last part of `apply_patch`: put a value at a path. */
  function AddAtPath(doc: Json, path: string, value: Json, cs: bool): Outcome {
    var slash := LastSlash(path);
    if slash < 0 then Outcome(9, doc)
    else AddChild(doc, path[..slash], DecodeInPlace(path[slash + 1..], 0, 0), value, cs)
  }

  function AddChild(doc: Json, parentPointer: string, child: string, value: Json, cs: bool): Outcome {
    var pos := Resolve(doc, parentPointer, cs);
    if pos.None? then Outcome(9, doc) else AddUnderParent(doc, pos.value, child, value, cs)
  }

  function AddUnderParent(doc: Json, pos: Position, child: string, value: Json, cs: bool): Outcome
    requires Has(doc, pos)
  {
    match At(doc, pos)
    case Array(items) =>
      if child == "-" then Outcome(0, PutAt(doc, pos, Array(items + [value])))
      else
        var i := DecodeIndex(child);
        if i.None? then Outcome(11, doc)
        else if i.value > |items| then Outcome(10, doc)
        else Outcome(0, PutAt(doc, pos, Array(InsertAt(items, i.value, value))))
    case Object(ms) => Outcome(0, PutAt(doc, pos, Object(SetMember(ms, child, value, cs))))
    case _ => Outcome(9, doc)
  }

  // ----- patches

  datatype Opcode = INVALID | ADD | REMOVE | REPLACE | MOVE | COPY | TEST

  function DecodeOperation(patch: Json, cs: bool): Opcode {
    match GetObjectItem(patch, "op", cs)
    case Some(String(op)) =>
      if op == "add" then ADD
      else if op == "remove" then REMOVE
      else if op == "replace" then REPLACE
      else if op == "move" then MOVE
      else if op == "copy" then COPY
      else if op == "test" then TEST
      else INVALID
    case _ => INVALID
  }

  /** The members of a patch that `apply_patch` looks at. */
  datatype Fields = Fields(opcode: Opcode, path: Option<Json>, value: Option<Json>, from: Option<Json>)

  function ReadPatch(patch: Json, cs: bool): Fields {
    Fields(DecodeOperation(patch, cs), GetObjectItem(patch, "path", cs),
           GetObjectItem(patch, "value", cs), GetObjectItem(patch, "from", cs))
  }

  /** The status code, and the document, which a failing patch may leave changed. */
  datatype Outcome = Outcome(status: int, doc: Json)

  /** `apply_patch`. */
  function ApplyPatch(doc: Json, patch: Json, cs: bool): Outcome {
    Execute(doc, ReadPatch(patch, cs), cs)
  }

  function Execute(doc: Json, f: Fields, cs: bool): Outcome {
    if f.path.None? || !f.path.value.String? then Outcome(2, doc)
    else
      var path := f.path.value.text;
      match f.opcode
      case INVALID => Outcome(3, doc)
      case TEST => ExecuteTest(doc, path, f.value, cs)
      case REMOVE => if path == "" then Outcome(0, Invalid) else ExecuteRemove(doc, path, cs)
      case REPLACE => if path == "" then ReplaceRoot(doc, f.value) else ExecuteReplace(doc, path, f.value, cs)
      case ADD => if path == "" then ReplaceRoot(doc, f.value) else ExecuteAdd(doc, path, f.value, cs)
      case MOVE => ExecuteMove(doc, path, f.from, cs)
      case COPY => ExecuteCopy(doc, path, f.from, cs)
  }

  function ReplaceRoot(doc: Json, value: Option<Json>): Outcome {
    if value.None? then Outcome(7, doc) else Outcome(0, value.value)
  }

  function ExecuteRemove(doc: Json, path: string, cs: bool): Outcome {
    var detached := DetachPath(doc, path, cs);
    if detached.None? then Outcome(13, doc) else Outcome(0, detached.value.rest)
  }

  /** The old item is gone before the new value is looked up. */
  function ExecuteReplace(doc: Json, path: string, value: Option<Json>, cs: bool): Outcome {
    var detached := DetachPath(doc, path, cs);
    if detached.None? then Outcome(13, doc) else ExecuteAdd(detached.value.rest, path, value, cs)
  }

  function ExecuteAdd(doc: Json, path: string, value: Option<Json>, cs: bool): Outcome {
    if value.None? then Outcome(7, doc) else AddAtPath(doc, path, value.value, cs)
  }

  function ExecuteMove(doc: Json, path: string, from: Option<Json>, cs: bool): Outcome {
    if from.None? then Outcome(4, doc)
    else if !from.value.String? then Outcome(5, doc)
    else AddDetached(doc, DetachPath(doc, from.value.text, cs), path, cs)
  }

  function AddDetached(doc: Json, detached: Option<Detached>, path: string, cs: bool): Outcome {
    if detached.None? then Outcome(5, doc)
    else AddAtPath(detached.value.rest, path, detached.value.item, cs)
  }

  function ExecuteCopy(doc: Json, path: string, from: Option<Json>, cs: bool): Outcome {
    if from.None? then Outcome(4, doc)
    else if !from.value.String? then Outcome(5, doc)
    else AddResolved(doc, Resolve(doc, from.value.text, cs), path, cs)
  }

  function AddResolved(doc: Json, pos: Option<Position>, path: string, cs: bool): Outcome
    requires pos.Some? ==> Has(doc, pos.value)
  {
    if pos.None? then Outcome(5, doc) else AddAtPath(doc, path, At(doc, pos.value), cs)
  }

  /** Comparing sorts the objects of the document where they stand. */
  function ExecuteTest(doc: Json, path: string, value: Option<Json>, cs: bool): Outcome {
    var pos := Resolve(doc, path, cs);
    if pos.None? || value.None? then Outcome(1, doc)
    else
      Outcome(if CompareJson(At(doc, pos.value), value.value, cs) then 0 else 1,
              PutAt(doc, pos.value, AfterCompare(At(doc, pos.value), value.value, cs)))
  }

  /** `cJSONUtils_ApplyPatches`: stop at the first patch that fails. */
  function ApplyAll(doc: Json, patches: seq<Json>, cs: bool): Outcome
    decreases |patches|
  {
    if patches == [] then Outcome(0, doc)
    else
      var first := ApplyPatch(doc, patches[0], cs);
      if first.status != 0 then first else ApplyAll(first.doc, patches[1..], cs)
  }

  function ApplyPatches(doc: Json, patches: Json, cs: bool): Outcome {
    if patches.Array? then ApplyAll(doc, patches.items, cs) else Outcome(1, doc)
  }

  // ----- resolution finds what the data path names

  lemma FirstNamedIsFind(ms: seq<Member>, t: string, rest: string, cs: bool)
    requires '/' !in t && AtTokenEnd(rest)
    ensures Unescape(t).None? ==> FirstNamed(ms, t + rest, cs) == |ms|
    ensures Unescape(t).Some? ==> FirstNamed(ms, t + rest, cs) == Find(ms, Unescape(t).value, cs)
  {
    forall i | 0 <= i < |ms|
      ensures ComparePointers(ms[i].key, t + rest, cs)
          <==> Unescape(t).Some? && Fold(Unescape(t).value, cs) == Fold(ms[i].key, cs)
    {
      ComparePointersIsRfc(ms[i].key, t, rest, cs);
    }
  }

  /** An array that a token would be looked up in with a wrong index. */
  predicate TokenMisread(j: Json, t: string) {
    j.Array? && Misread(t)
  }

  /** The walk along a pointer meets no misread token. */
  predicate Straight(j: Json, p: string, cs: bool)
    requires IsPointer(p)
    decreases |p|
  {
    if p == "" then true
    else
      var (t, rest) := FirstToken(p);
      SplitFirst(p);
      var i := ResolveToken(j, p[1..], cs);
      !TokenMisread(j, t) && (i.Some? ==> Straight(Child(j, i.value), rest, cs))
  }

  lemma ResolveTokenIsStep(j: Json, t: string, rest: string, cs: bool)
    requires '/' !in t && AtTokenEnd(rest)
    ensures TokenMisread(j, t) ==> Step(Meaning(j, cs), t, cs).None?
    ensures !TokenMisread(j, t) ==>
      var i := ResolveToken(j, t + rest, cs);
      Step(Meaning(j, cs), t, cs) == if i.None? then None else Some(Meaning(Child(j, i.value), cs))
  {
    match j
    case Array(items) =>
      DecodeIndexOfToken(t, rest);
      MisreadIsNoIndex(t);
      hide DecodeIndex, ArrayIndex, Misread;
    case Object(ms) =>
      FirstNamedIsFind(ms, t, rest, cs);
      hide FirstNamed, MembersMeaning;
      if Unescape(t).Some? {
        MeaningAtKey(ms, Unescape(t).value, cs);
      }
    case _ =>
  }

  /** Section 4 of RFC 6901: a pointer denotes exactly what it resolves to if no array index on the way is
      misread, and nothing otherwise.  So the resolution is right exactly when it fails or is straight.
      Holds for keys of any kind and for tokens with escapes. */
  lemma {:induction false} ResolveIsNav(j: Json, p: string, cs: bool)
    requires IsPointer(p)
    ensures var pos := Resolve(j, p, cs);
      Nav(Meaning(j, cs), Split(p), cs)
        == if pos.Some? && Straight(j, p, cs) then Some(Meaning(At(j, pos.value), cs)) else None
    ensures (Resolve(j, p, cs).Some? <==> Nav(Meaning(j, cs), Split(p), cs).Some?)
        <==> (Resolve(j, p, cs).Some? ==> Straight(j, p, cs))
    decreases |p|
  {
    if p != "" {
      var (t, rest) := FirstToken(p);
      SplitFirst(p);
      ResolveTokenIsStep(j, t, rest, cs);
      var i := ResolveToken(j, p[1..], cs);
      if i.Some? {
        ResolveIsNav(Child(j, i.value), rest, cs);
        var sub := Resolve(Child(j, i.value), rest, cs);
        if sub.Some? {
          assert ([i.value] + sub.value)[1..] == sub.value;
        }
      }
    }
  }

  /** An empty token resolves to the first element of an array; it denotes nothing. */
  lemma EmptyTokenResolves(x: Json, cs: bool)
    ensures Resolve(Array([x]), "/", cs) == Some([0]) && Nav(Meaning(Array([x]), cs), Split("/"), cs) == None
    ensures !Straight(Array([x]), "/", cs)
  {
    var j := Array([x]);
    assert "/"[1..] == "" && FirstToken("/") == ("", "");
    SplitFirst("/");
    assert ResolveToken(j, "", cs) == Some(0) && Child(j, 0) == x && Resolve(x, "", cs) == Some([]);
    assert [0] + [] == [0];
    assert TokenMisread(j, "") && Split("/")[0] == "";
  }

  lemma WithChildMeaning(j: Json, t: string, rest: string, x: Json, cs: bool)
    requires '/' !in t && AtTokenEnd(rest) && Keyed(j, cs) && Keyed(x, cs)
    requires ResolveToken(j, t + rest, cs).Some? && !TokenMisread(j, t)
    ensures var j' := WithChild(j, ResolveToken(j, t + rest, cs).value, x);
            && Keyed(j', cs)
            && Step(Meaning(j, cs), t, cs).Some?
            && Meaning(j', cs) == PutChild(Meaning(j, cs), t, Meaning(x, cs), cs)
  {
    if j.Array? {
      DecodeIndexOfToken(t, rest);
      MisreadIsNoIndex(t);
      hide Keyed, Meaning, DecodeIndex, ArrayIndex, Misread, Step, PutChild;
      ArrayWithNewChild(j.items, t, x, cs);
    } else {
      FirstNamedIsFind(j.members, t, rest, cs);
      hide Keyed, Meaning, FirstNamed, Find, Unescape, Step, PutChild;
      ObjectWithNewChild(j.members, t, x, cs);
    }
  }

  lemma ArrayWithNewChild(items: seq<Json>, t: string, x: Json, cs: bool)
    requires Keyed(Array(items), cs) && Keyed(x, cs) && ArrayIndex(t).Some? && ArrayIndex(t).value < |items|
    ensures var j, j' := Array(items), Array(items[ArrayIndex(t).value := x]);
      && Keyed(j', cs) && Step(Meaning(j, cs), t, cs).Some?
      && Meaning(j', cs) == PutChild(Meaning(j, cs), t, Meaning(x, cs), cs)
  {
    hide ArrayIndex;
    var i := ArrayIndex(t).value;
    assert Meaning(Array(items[i := x]), cs).items == Meaning(Array(items), cs).items[i := Meaning(x, cs)];
  }

  lemma ObjectWithNewChild(ms: seq<Member>, t: string, x: Json, cs: bool)
    requires Keyed(Object(ms), cs) && Keyed(x, cs)
    requires Unescape(t).Some? && Find(ms, Unescape(t).value, cs) < |ms|
    ensures var i := Find(ms, Unescape(t).value, cs);
      var j, j' := Object(ms), Object(ms[i := Member(ms[i].key, x)]);
      && Keyed(j', cs) && Step(Meaning(j, cs), t, cs).Some?
      && Meaning(j', cs) == PutChild(Meaning(j, cs), t, Meaning(x, cs), cs)
  {
    hide Unescape, MembersMeaning, Fold;
    var i := Find(ms, Unescape(t).value, cs);
    KeyedObject(Object(ms), cs);
    MeaningAtKey(ms, Unescape(t).value, cs);
    MeaningOfUpdate(ms, i, x, cs);
  }

  lemma StraightFirst(j: Json, p: string, cs: bool)
    requires p != "" && IsPointer(p) && Straight(j, p, cs)
    ensures var (t, rest) := FirstToken(p);
      && IsPointer(rest) && p[1..] == t + rest && !TokenMisread(j, t)
      && var i := ResolveToken(j, t + rest, cs);
         (i.Some? ==> Straight(Child(j, i.value), rest, cs))
  {
    SplitFirst(p);
  }

  /** Changing a resolved node changes the data at that location and nowhere else. */
  lemma {:induction false} PutAtIsPut(j: Json, p: string, x: Json, cs: bool)
    requires IsPointer(p) && Keyed(j, cs) && Keyed(x, cs)
    requires Resolve(j, p, cs).Some? && Straight(j, p, cs)
    ensures Nav(Meaning(j, cs), Split(p), cs).Some?
    ensures Keyed(PutAt(j, Resolve(j, p, cs).value, x), cs)
    ensures Meaning(PutAt(j, Resolve(j, p, cs).value, x), cs) == Put(Meaning(j, cs), Split(p), Meaning(x, cs), cs)
    decreases |p|
  {
    hide Straight, Resolve, Split, Nav, Put, PutAt, Keyed, Meaning, Step, PutChild, WithChild, ResolveToken, TokenEnd;
    ResolveIsNav(j, p, cs);
    if p == "" {
      PutAtRoot(j, x, cs);
    } else {
      var t, rest := FirstToken(p).0, FirstToken(p).1;
      SplitFirst(p);
      var i, sub := ResolveFirst(j, p, cs);
      StraightFirst(j, p, cs);
      var child := Child(j, i);
      ChildIsKeyed(j, i, cs);
      ResolveTokenIsStep(j, t, rest, cs);
      PutAtIsPut(child, rest, x, cs);
      WithChildMeaning(j, t, rest, PutAt(child, sub, x), cs);
      PutFirst(Meaning(j, cs), p, Meaning(x, cs), cs);
    }
  }

  function FirstToken(p: string): (string, string)
    requires p != "" && IsPointer(p)
  {
    (p[1..][..TokenEnd(p[1..])], p[1..][TokenEnd(p[1..])..])
  }

  lemma SplitFirst(p: string)
    requires p != "" && IsPointer(p)
    ensures var (t, rest) := FirstToken(p);
      && '/' !in t && AtTokenEnd(rest) && IsPointer(rest) && p[1..] == t + rest && |rest| < |p|
      && Split(p) == [t] + Split(rest)
  {
    SplitUnfolds(p);
    hide Split;
    TokenAndRest(p[1..]);
  }

  lemma SplitUnfolds(p: string)
    requires p != "" && IsPointer(p)
    ensures Split(p) == [FirstToken(p).0] + Split(FirstToken(p).1)
  {
    hide TokenEnd;
  }

  lemma TokenAndRest(s: string)
    ensures var n := TokenEnd(s); '/' !in s[..n] && AtTokenEnd(s[n..]) && s == s[..n] + s[n..]
  {
  }

  lemma PutAtRoot(j: Json, x: Json, cs: bool)
    ensures Resolve(j, "", cs) == Some([]) && PutAt(j, [], x) == x && Split("") == []
    ensures Put(Meaning(j, cs), [], Meaning(x, cs), cs) == Meaning(x, cs)
  {
  }

  lemma ChildIsKeyed(j: Json, i: nat, cs: bool)
    requires Keyed(j, cs) && i < Size(j)
    ensures Keyed(Child(j, i), cs)
  {
  }

  /** The first step of a resolved pointer. */
  lemma ResolveFirst(j: Json, p: string, cs: bool) returns (i: nat, sub: Position)
    requires p != "" && IsPointer(p) && Resolve(j, p, cs).Some?
    ensures var (t, rest) := FirstToken(p);
      && ResolveToken(j, t + rest, cs) == Some(i) && i < Size(j)
      && Resolve(Child(j, i), rest, cs) == Some(sub) && Resolve(j, p, cs) == Some([i] + sub)
    ensures forall x :: PutAt(j, [i] + sub, x) == WithChild(j, i, PutAt(Child(j, i), sub, x))
  {
    hide ResolveToken, TokenEnd, PutAt, Child, Size, WithChild;
    var rest := FirstToken(p).1;
    assert p[1..] == FirstToken(p).0 + rest;
    i := ResolveToken(j, p[1..], cs).value;
    sub := Resolve(Child(j, i), rest, cs).value;
    PutAtFirst(j, i, sub);
  }

  lemma PutAtFirst(j: Json, i: nat, sub: Position)
    requires i < Size(j) && Has(Child(j, i), sub)
    ensures Has(j, [i] + sub)
    ensures forall x :: PutAt(j, [i] + sub, x) == WithChild(j, i, PutAt(Child(j, i), sub, x))
  {
    assert ([i] + sub)[1..] == sub;
  }

  lemma PutFirst(v: Value, p: string, w: Value, cs: bool)
    requires p != "" && IsPointer(p) && Nav(v, Split(p), cs).Some? && Split(p) != []
    requires Step(v, Split(p)[0], cs).Some? && Nav(Step(v, Split(p)[0], cs).value, Split(p)[1..], cs).Some?
    ensures Put(v, Split(p), w, cs)
         == PutChild(v, Split(p)[0], Put(Step(v, Split(p)[0], cs).value, Split(p)[1..], w, cs), cs)
  {
  }

  lemma {:induction false} ResolvedIsKeyed(j: Json, pos: Position, cs: bool)
    requires Keyed(j, cs) && Has(j, pos)
    ensures Keyed(At(j, pos), cs)
    decreases |pos|
  {
    if pos != [] {
      ResolvedIsKeyed(Child(j, pos[0]), pos[1..], cs);
    }
  }

  /** A pointer with a last token, taken apart at its last '/'. */
  lemma LastSlashSplits(path: string)
    requires IsPointer(path) && path != ""
    ensures var i := LastSlash(path);
            && i >= 0 && IsPointer(path[..i])
            && Split(path) == Split(path[..i]) + [path[i + 1..]]
  {
    var i := LastSlash(path);
    assert path[0] in path;
    assert path == path[..i] + "/" + path[i + 1..];
    SplitAppend(path[..i], path[i + 1..]);
  }

  /** The walk to the parent and the last token are read right. */
  predicate ParentStraight(doc: Json, p: string, t: string, cs: bool)
    requires IsPointer(p)
  {
    var pos := Resolve(doc, p, cs);
    Straight(doc, p, cs) && (pos.Some? ==> !(At(doc, pos.value).Array? && LastMisread(t)))
  }

  /** The same for a path, which is taken apart at its last '/'. */
  predicate TargetStraight(doc: Json, path: string, cs: bool)
    requires IsPointer(path)
  {
    if path == "" then true
    else
      LastSlashSplits(path);
      ParentStraight(doc, path[..LastSlash(path)], path[LastSlash(path) + 1..], cs)
  }

  /** What is done at a path is done below the parent pointer. */
  lemma PathParts(doc: Json, path: string, value: Json, cs: bool)
    requires IsPointer(path) && path != ""
    ensures var i := LastSlash(path);
      && i >= 0 && IsPointer(path[..i])
      && var child := DecodeInPlace(path[i + 1..], 0, 0);
         && TargetStraight(doc, path, cs) == ParentStraight(doc, path[..i], path[i + 1..], cs)
         && DetachPath(doc, path, cs) == DetachChild(doc, path[..i], child, cs)
         && AddAtPath(doc, path, value, cs) == AddChild(doc, path[..i], child, value, cs)
  {
    LastSlashSplits(path);
    hide *;
    StraightBelow(doc, path, cs);
    DetachedBelow(doc, path, cs);
    AddedBelow(doc, path, value, cs);
  }

  lemma StraightBelow(doc: Json, path: string, cs: bool)
    requires IsPointer(path) && path != "" && LastSlash(path) >= 0 && IsPointer(path[..LastSlash(path)])
    ensures var i := LastSlash(path);
      TargetStraight(doc, path, cs) == ParentStraight(doc, path[..i], path[i + 1..], cs)
  {
    hide LastSlash, ParentStraight, Split, IsPointer;
  }

  lemma DetachedBelow(doc: Json, path: string, cs: bool)
    requires LastSlash(path) >= 0
    ensures var i := LastSlash(path);
      DetachPath(doc, path, cs) == DetachChild(doc, path[..i], DecodeInPlace(path[i + 1..], 0, 0), cs)
  {
    hide LastSlash, DecodeInPlace, DetachChild;
  }

  lemma AddedBelow(doc: Json, path: string, value: Json, cs: bool)
    requires LastSlash(path) >= 0
    ensures var i := LastSlash(path);
      AddAtPath(doc, path, value, cs) == AddChild(doc, path[..i], DecodeInPlace(path[i + 1..], 0, 0), value, cs)
  {
    hide LastSlash, DecodeInPlace, AddChild;
  }

  /** A key that stands out is found alike with and without regard to case. */
  lemma FindIgnoringCase(ms: seq<Member>, key: string, cs: bool)
    requires forall k <- MembersMeaning(ms, cs) :: Lower(k) == Lower(key) ==> k == Fold(key, cs)
    ensures Find(ms, key, false) == Find(ms, key, cs)
  {
    if cs {
      forall i | 0 <= i < |ms| ensures Fold(ms[i].key, false) == Fold(key, false) <==> ms[i].key == key {
        KeyIsInMeaning(ms, i, cs);
      }
    }
  }

  lemma {:induction false} KeyIsInMeaning(ms: seq<Member>, i: nat, cs: bool)
    requires i < |ms|
    ensures Fold(ms[i].key, cs) in MembersMeaning(ms, cs)
  {
    if i > 0 {
      KeyIsInMeaning(ms[1..], i - 1, cs);
    }
  }

  lemma ArrayWithoutChild(items: seq<Json>, i: nat, cs: bool)
    requires i < |items|
    ensures Meaning(Array(RemoveAt(items, i)), cs) == VArray(RemoveAt(Meaning(Array(items), cs).items, i))
    ensures Keyed(Array(items), cs) ==> Keyed(Array(RemoveAt(items, i)), cs)
  {
    assert Meaning(Array(RemoveAt(items, i)), cs).items == RemoveAt(Meaning(Array(items), cs).items, i);
  }

  lemma ArrayWithChild(items: seq<Json>, i: nat, x: Json, cs: bool)
    requires i <= |items|
    ensures Meaning(Array(InsertAt(items, i, x)), cs)
         == VArray(InsertAt(Meaning(Array(items), cs).items, i, Meaning(x, cs)))
    ensures Keyed(Array(items), cs) && Keyed(x, cs) ==> Keyed(Array(InsertAt(items, i, x)), cs)
  {
    assert Meaning(Array(InsertAt(items, i, x)), cs).items
        == InsertAt(Meaning(Array(items), cs).items, i, Meaning(x, cs));
  }

  /** The token of the child that `detach_path` takes out: in an object, of the key it finds. */
  function Found(parent: Json, t: string): string {
    match parent
    case Object(ms) =>
      var child := DecodeInPlace(t, 0, 0);
      TokenOf(if Find(ms, child, false) < |ms| then ms[Find(ms, child, false)].key else child)
    case _ => t
  }

  lemma {:induction false} ObjectWithoutChild(ms: seq<Member>, key: string, cs: bool)
    requires KeyedMembers(ms, cs)
    ensures var i := Find(ms, key, false);
      var u := TokenOf(if i < |ms| then ms[i].key else key);
      && (i < |ms| <==> Step(VObject(MembersMeaning(ms, cs)), u, cs).Some?)
      && (i < |ms| ==>
            && Step(VObject(MembersMeaning(ms, cs)), u, cs) == Some(Meaning(ms[i].value, cs))
            && KeyedMembers(RemoveAt(ms, i), cs)
            && VObject(MembersMeaning(RemoveAt(ms, i), cs)) == Without(VObject(MembersMeaning(ms, cs)), u, cs))
  {
    hide Meaning, MembersMeaning, Keyed, TokenOf, Unescape;
    var i := Find(ms, key, false);
    if i < |ms| {
      TokenStandsFor(ms[i].key);
      MeaningAtMember(ms, i, cs);
      KeyedRemoval(ms, i, cs);
      MeaningOfRemoval(ms, i, cs);
    } else {
      TokenStandsFor(key);
      MeaningAtKey(ms, key, cs);
      assert forall k :: 0 <= k < |ms| ==> Fold(ms[k].key, false) != Fold(key, false);
    }
  }

  /** What is left, as a map, when the member that is found without regard to case is taken out. */
  ghost function RestIgnoringCase(ms: seq<Member>, key: string, cs: bool): Option<map<string, Value>> {
    var i := Find(ms, key, false);
    if i < |ms| then Some(MembersMeaning(RemoveAt(ms, i), cs)) else None
  }

  /** Taking a member out without regard to case is the removal of its key exactly when both ways of
      comparing keys find the same member first, or none. */
  lemma RemovalIgnoresCase(ms: seq<Member>, key: string, cs: bool)
    requires DistinctKeys(ms, cs)
    ensures var m := MembersMeaning(ms, cs);
      RestIgnoringCase(ms, key, cs) == (if Fold(key, cs) in m then Some(m - {Fold(key, cs)}) else None)
      <==> Find(ms, key, false) == Find(ms, key, cs)
  {
    var m, i, j := MembersMeaning(ms, cs), Find(ms, key, false), Find(ms, key, cs);
    MeaningAtKey(ms, key, cs);
    if i < |ms| {
      MeaningOfRemoval(ms, i, cs);
      MeaningAtMember(ms, i, cs);
      if i != j {
        assert Fold(ms[i].key, cs) != Fold(key, cs);
        assert Fold(key, cs) in m ==> Fold(key, cs) in m - {Fold(ms[i].key, cs)};
      }
    } else {
      assert forall k :: 0 <= k < |ms| ==> Fold(ms[k].key, cs) != Fold(key, cs);
    }
  }

  /** For example, removing "a" takes out "A". */
  lemma OtherMemberIsRemoved(x: Json, y: Json)
    ensures DetachPath(Object([Member("A", x), Member("a", y)]), "/a", true)
         == Some(Detached(x, Object([Member("a", y)])))
  {
    var ms := [Member("A", x), Member("a", y)];
    assert "/a"[..1] == "/" && LastSlash("/a") == 0 && "/a"[..0] == "" && "/a"[0 + 1..] == "a";
    PlainIsDecodedInPlace("a", 0);
    assert Resolve(Object(ms), "", true) == Some([]);
    assert "A"[1..] == "" && "a"[1..] == "" && Lower("A") == "a" == Lower("a");
    assert Find(ms, "a", false) == 0 && RemoveAt(ms, 0) == [Member("a", y)];
  }

  /** What `detach_path` does to the parent, for the decoded token. */
  lemma WithoutChildMeaning(parent: Json, t: string, cs: bool)
    requires Keyed(parent, cs) && '/' !in t
    ensures var i, u := ChildToDetach(parent, DecodeInPlace(t, 0, 0)), Found(parent, t);
      if parent.Array? && LastMisread(t) then Step(Meaning(parent, cs), u, cs).None?
      else Step(Meaning(parent, cs), u, cs) == if i.None? then None else Some(Meaning(Child(parent, i.value), cs))
    ensures var i, u := ChildToDetach(parent, DecodeInPlace(t, 0, 0)), Found(parent, t);
      i.Some? && !(parent.Array? && LastMisread(t)) ==>
        && Keyed(Child(parent, i.value), cs) && Keyed(WithoutChild(parent, i.value), cs)
        && Meaning(WithoutChild(parent, i.value), cs) == Without(Meaning(parent, cs), u, cs)
  {
    hide LastMisread, DecodeInPlace, ArrayIndex, DecodeIndex;
    if parent.Array? {
      LastMisreadIsNoIndex(t);
      var i := ArrayIndex(t);
      if i.Some? && i.value < |parent.items| {
        ArrayWithoutChild(parent.items, i.value, cs);
      }
    } else if parent.Object? {
      KeyedObject(parent, cs);
      ObjectWithoutChild(parent.members, DecodeInPlace(t, 0, 0), cs);
    }
  }

  // ----- `detach_path` is a removal of RFC 6902

  /** The location that a path is taken for when it is removed. */
  function FoundPath(doc: Json, path: string, cs: bool): seq<string>
    requires IsPointer(path) && path != ""
  {
    LastSlashSplits(path);
    FoundBelow(doc, path[..LastSlash(path)], path[LastSlash(path) + 1..], cs)
  }

  function FoundBelow(doc: Json, p: string, t: string, cs: bool): seq<string>
    requires IsPointer(p)
  {
    var pos := Resolve(doc, p, cs);
    Split(p) + [if pos.None? then t else Found(At(doc, pos.value), t)]
  }

  /** Section 4.2 of RFC 6902: what is detached is what the removal takes out, for the last token that was
      found; if an index on the way is misread, the removal is an error. */
  lemma DetachIsRemove(doc: Json, path: string, cs: bool)
    requires Keyed(doc, cs) && IsPointer(path) && path != ""
    ensures var d := DetachPath(doc, path, cs);
      && RfcRemove(Meaning(doc, cs), FoundPath(doc, path, cs), cs)
         == (if d.Some? && TargetStraight(doc, path, cs) then Some((Meaning(d.value.item, cs), Meaning(d.value.rest, cs)))
             else None)
      && (d.Some? && TargetStraight(doc, path, cs) ==> Keyed(d.value.item, cs) && Keyed(d.value.rest, cs))
  {
    LastSlashSplits(path);
    PathParts(doc, path, doc, cs);
    hide Keyed, Meaning, Split, Nav, LastSlash, DetachPath, DetachChild, RfcRemove, TargetStraight, ParentStraight,
      DecodeInPlace, FoundBelow;
    DetachChildIsRemove(doc, path[..LastSlash(path)], path[LastSlash(path) + 1..], cs);
  }

  lemma DetachChildIsRemove(doc: Json, p: string, t: string, cs: bool)
    requires Keyed(doc, cs) && IsPointer(p) && '/' !in t
    ensures var d := DetachChild(doc, p, DecodeInPlace(t, 0, 0), cs);
      && RfcRemove(Meaning(doc, cs), FoundBelow(doc, p, t, cs), cs)
         == (if d.Some? && ParentStraight(doc, p, t, cs) then Some((Meaning(d.value.item, cs), Meaning(d.value.rest, cs)))
             else None)
      && (d.Some? && ParentStraight(doc, p, t, cs) ==> Keyed(d.value.item, cs) && Keyed(d.value.rest, cs))
  {
    hide Keyed, Meaning, Step, Without, Nav, Put, Split, Straight, Resolve, DecodeInPlace, LastMisread, Found;
    ResolveIsNav(doc, p, cs);
    var pos := Resolve(doc, p, cs);
    var u := if pos.None? then t else Found(At(doc, pos.value), t);
    RemoveBelow(Meaning(doc, cs), Split(p), u, cs);
    if pos.Some? && Straight(doc, p, cs) {
      var parent := At(doc, pos.value);
      ResolvedIsKeyed(doc, pos.value, cs);
      WithoutChildMeaning(parent, t, cs);
      var i := ChildToDetach(parent, DecodeInPlace(t, 0, 0));
      if i.Some? && !(parent.Array? && LastMisread(t)) {
        PutAtIsPut(doc, p, WithoutChild(parent, i.value), cs);
      }
    }
  }

  /** For a key that stands out, the location is the one of the decoded key. */
  lemma FoundIsTaken(doc: Json, path: string, cs: bool)
    requires Keyed(doc, cs) && IsPointer(path) && path != "" && StandsOut(Meaning(doc, cs), Split(path), cs)
    ensures RfcRemove(Meaning(doc, cs), FoundPath(doc, path, cs), cs)
         == RfcRemove(Meaning(doc, cs), TakenPath(Meaning(doc, cs), Split(path), cs), cs)
  {
    LastSlashSplits(path);
    var p, t := path[..LastSlash(path)], path[LastSlash(path) + 1..];
    var v := Meaning(doc, cs);
    ParentDecides(v, Split(p), t, cs);
    TakenBelow(v, Split(p), t, cs);
    ResolveIsNav(doc, p, cs);
    var pos := Resolve(doc, p, cs);
    var u := if pos.None? then t else Found(At(doc, pos.value), t);
    var w := if Nav(v, Split(p), cs).None? then t else Taken(Nav(v, Split(p), cs).value, t);
    hide Keyed, Meaning, Split, Nav, LastSlash, RfcRemove, DecodeInPlace, TakenPath, StandsOut, Found, Taken, Straight,
      Resolve, Step, Without;
    RemoveBelow(v, Split(p), u, cs);
    RemoveBelow(v, Split(p), w, cs);
    if Nav(v, Split(p), cs).Some? {
      ResolvedIsKeyed(doc, pos.value, cs);
      SameKeyFound(At(doc, pos.value), t, cs);
    }
  }

  lemma SameKeyFound(parent: Json, t: string, cs: bool)
    requires Keyed(parent, cs) && KeyStandsOut(Meaning(parent, cs), DecodeInPlace(t, 0, 0), cs)
    ensures var v, u, w := Meaning(parent, cs), Found(parent, t), Taken(Meaning(parent, cs), t);
      Step(v, u, cs) == Step(v, w, cs) && (Step(v, u, cs).Some? ==> Without(v, u, cs) == Without(v, w, cs))
  {
    hide DecodeInPlace;
    if parent.Object? {
      var child := DecodeInPlace(t, 0, 0);
      KeyedObject(parent, cs);
      FindIgnoringCase(parent.members, child, cs);
      TokenStandsFor(child);
      if Find(parent.members, child, cs) < |parent.members| {
        TokenStandsFor(parent.members[Find(parent.members, child, cs)].key);
      }
    }
  }

  // ----- the last part of `apply_patch` is the addition of RFC 6902

  /** What becomes of the parent when `value` is added under the decoded token. */
  function Grown(parent: Json, child: string, value: Json, cs: bool): Option<Json> {
    match parent
    case Array(items) =>
      if child == "-" then Some(Array(items + [value]))
      else
        var i := DecodeIndex(child);
        if i.Some? && i.value <= |items| then Some(Array(InsertAt(items, i.value, value))) else None
    case Object(ms) => Some(Object(SetMember(ms, child, value, cs)))
    case _ => None
  }

  lemma GrownMeaning(parent: Json, t: string, value: Json, cs: bool)
    requires Keyed(parent, cs) && Keyed(value, cs) && '/' !in t
    ensures var g, u := Grown(parent, DecodeInPlace(t, 0, 0), value, cs), Taken(Meaning(parent, cs), t);
      if parent.Array? && LastMisread(t) then With(Meaning(parent, cs), u, Meaning(value, cs), cs).None?
      else With(Meaning(parent, cs), u, Meaning(value, cs), cs) == if g.None? then None else Some(Meaning(g.value, cs))
    ensures var g := Grown(parent, DecodeInPlace(t, 0, 0), value, cs);
      g.Some? && !(parent.Array? && LastMisread(t)) ==> Keyed(g.value, cs)
  {
    hide LastMisread, DecodeInPlace, ArrayIndex, DecodeIndex;
    if parent.Array? {
      LastMisreadIsNoIndex(t);
      GrownArray(parent, t, DecodeInPlace(t, 0, 0), value, cs);
    } else if parent.Object? {
      KeyedObject(parent, cs);
      TokenStandsFor(DecodeInPlace(t, 0, 0));
      ReplacedMember(parent.members, DecodeInPlace(t, 0, 0), value, cs);
    }
  }

  lemma GrownArray(parent: Json, t: string, child: string, value: Json, cs: bool)
    requires parent.Array? && Keyed(parent, cs) && Keyed(value, cs) && (child == "-" <==> t == "-")
    requires LastMisread(t) ==> ArrayIndex(t) == None && t != "-"
    requires !LastMisread(t) ==> DecodeIndex(child) == ArrayIndex(t)
    ensures var g := Grown(parent, child, value, cs);
      if LastMisread(t) then With(Meaning(parent, cs), t, Meaning(value, cs), cs).None?
      else && With(Meaning(parent, cs), t, Meaning(value, cs), cs) == (if g.None? then None else Some(Meaning(g.value, cs)))
           && (g.Some? ==> Keyed(g.value, cs))
  {
    hide LastMisread, DecodeIndex, ArrayIndex;
    var items, vs := parent.items, Meaning(parent, cs).items;
    if LastMisread(t) {
    } else if t == "-" {
      ArrayWithChild(items, |items|, value, cs);
      assert InsertAt(items, |items|, value) == items + [value];
      assert InsertAt(vs, |vs|, Meaning(value, cs)) == vs + [Meaning(value, cs)];
    } else {
      var i := ArrayIndex(t);
      if i.Some? && i.value <= |items| {
        ArrayWithChild(items, i.value, value, cs);
      }
    }
  }

  lemma AddChildIsGrown(doc: Json, p: string, child: string, value: Json, cs: bool)
    ensures AddChild(doc, p, child, value, cs).status == 0 <==>
              Resolve(doc, p, cs).Some? && Grown(At(doc, Resolve(doc, p, cs).value), child, value, cs).Some?
    ensures AddChild(doc, p, child, value, cs).status == 0 ==>
              AddChild(doc, p, child, value, cs).doc
              == PutAt(doc, Resolve(doc, p, cs).value, Grown(At(doc, Resolve(doc, p, cs).value), child, value, cs).value)
  {
  }

  lemma AddChildIsAdd(doc: Json, p: string, t: string, value: Json, cs: bool)
    requires Keyed(doc, cs) && Keyed(value, cs) && IsPointer(p) && '/' !in t
    ensures var r := AddChild(doc, p, DecodeInPlace(t, 0, 0), value, cs);
      && RfcAdd(Meaning(doc, cs), TakenPath(Meaning(doc, cs), Split(p) + [t], cs), Meaning(value, cs), cs)
         == (if r.status == 0 && ParentStraight(doc, p, t, cs) then Some(Meaning(r.doc, cs)) else None)
      && (r.status == 0 && ParentStraight(doc, p, t, cs) ==> Keyed(r.doc, cs))
  {
    hide Keyed, Meaning, With, Grown, Nav, Put, Split, Straight, Resolve, DecodeInPlace, LastMisread, AddChild, Taken,
      TakenPath, RfcAdd, At, PutAt, Has, IsPointer;
    var v, child := Meaning(doc, cs), DecodeInPlace(t, 0, 0);
    TakenBelow(v, Split(p), t, cs);
    ResolveIsNav(doc, p, cs);
    var u := if Nav(v, Split(p), cs).None? then t else Taken(Nav(v, Split(p), cs).value, t);
    AddChildIsGrown(doc, p, child, value, cs);
    AddBelow(v, Split(p), u, Meaning(value, cs), cs);
    var pos := Resolve(doc, p, cs);
    if pos.Some? && Straight(doc, p, cs) {
      var parent := At(doc, pos.value);
      ResolvedIsKeyed(doc, pos.value, cs);
      GrownMeaning(parent, t, value, cs);
      if Grown(parent, child, value, cs).Some? && !(parent.Array? && LastMisread(t)) {
        PutAtIsPut(doc, p, Grown(parent, child, value, cs).value, cs);
      }
    }
  }

  /** Section 4.1 of RFC 6902: what is added is what the addition adds, for the last token as it is taken;
      if an index on the way is misread, the addition is an error. */
  lemma AddAtPathIsAdd(doc: Json, path: string, value: Json, cs: bool)
    requires Keyed(doc, cs) && Keyed(value, cs) && IsPointer(path) && path != ""
    ensures var r := AddAtPath(doc, path, value, cs);
      && RfcAdd(Meaning(doc, cs), TakenPath(Meaning(doc, cs), Split(path), cs), Meaning(value, cs), cs)
         == (if r.status == 0 && TargetStraight(doc, path, cs) then Some(Meaning(r.doc, cs)) else None)
      && (r.status == 0 && TargetStraight(doc, path, cs) ==> Keyed(r.doc, cs))
  {
    LastSlashSplits(path);
    PathParts(doc, path, value, cs);
    hide Keyed, Meaning, Split, Nav, LastSlash, AddAtPath, AddChild, RfcAdd, TargetStraight, ParentStraight, TakenPath,
      DecodeInPlace;
    AddChildIsAdd(doc, path[..LastSlash(path)], path[LastSlash(path) + 1..], value, cs);
  }

  // ----- `compare_json` on a node of the document

  /** Putting in a node that means the same does not change what the document means. */
  lemma {:induction false} PutAlike(j: Json, pos: Position, x: Json, cs: bool)
    requires Has(j, pos) && Keyed(j, cs) && Keyed(x, cs) && Meaning(x, cs) == Meaning(At(j, pos), cs)
    ensures Keyed(PutAt(j, pos, x), cs) && Meaning(PutAt(j, pos, x), cs) == Meaning(j, cs)
    decreases |pos|
  {
    if pos != [] {
      PutAlike(Child(j, pos[0]), pos[1..], x, cs);
      ChildAlike(j, pos[0], PutAt(Child(j, pos[0]), pos[1..], x), cs);
    }
  }

  lemma ChildAlike(j: Json, i: nat, x: Json, cs: bool)
    requires i < Size(j) && Keyed(j, cs) && Keyed(x, cs) && Meaning(x, cs) == Meaning(Child(j, i), cs)
    ensures Keyed(WithChild(j, i, x), cs) && Meaning(WithChild(j, i, x), cs) == Meaning(j, cs)
  {
    if j.Array? {
      ArraysAgree(j.items[i := x], j.items, cs);
    } else {
      var ms := j.members;
      KeyedObject(j, cs);
      MeaningOfUpdate(ms, i, x, cs);
      MeaningAtMember(ms, i, cs);
      assert MembersMeaning(ms, cs)[Fold(ms[i].key, cs) := Meaning(x, cs)] == MembersMeaning(ms, cs);
    }
  }

  /** A test changes the order of members at most. */
  lemma TestKeepsMeaning(doc: Json, path: string, value: Option<Json>, cs: bool)
    requires Keyed(doc, cs)
    ensures var after := ExecuteTest(doc, path, value, cs).doc;
      Keyed(after, cs) && Meaning(after, cs) == Meaning(doc, cs)
  {
    hide Keyed, Meaning, Resolve, CompareJson, AfterCompare, PutAt, At, Has;
    var pos := Resolve(doc, path, cs);
    if pos.Some? && value.Some? {
      ResolvedIsKeyed(doc, pos.value, cs);
      CompareKeepsMeaning(At(doc, pos.value), value.value, cs, cs);
      PutAlike(doc, pos.value, AfterCompare(At(doc, pos.value), value.value, cs), cs);
    }
  }
}
