/** Generating a patch and applying it: the round trip. */
module PatchRoundTrip {
  import opened Text
  import opened Sequences
  import opened Json
  import opened Sorting
  import opened Compare
  import opened Pointer
  import opened PointerIndex
  import opened DataPath
  import opened Patch
  import opened PatchRfc
  import opened PatchGen

  // ----- trees between which the generated patches are right

  /** Two trees are joinable when, wherever two objects meet, their keys come in the same order with and
      without letter case if case counts, and the keys that have to be written into a path come back: those
      that are added, removed or replaced as the in-place decoder reads them, and those below which something
      changes as a pointer is resolved. */
  ghost predicate Joinable(from: Json, goal: Json, cs: bool)
    decreases from
  {
    match (from, goal)
    case (Array(xs), Array(ys)) =>
      |xs| <= SIZE_LIMIT && forall i :: 0 <= i < |xs| && i < |ys| ==> Joinable(xs[i], ys[i], cs)
    case (Object(ms), Object(ns)) =>
      && (cs ==> SameOrder(ms + ns, KeyOf))
      && OthersComeBack(ms, ns, cs) && OthersComeBack(ns, ms, cs)
      && forall i, j :: 0 <= i < |ms| && 0 <= j < |ns| && Fold(ms[i].key, cs) == Fold(ns[j].key, cs) ==>
           || CompareJson(ms[i].value, ns[j].value, cs)
           || (if ReplacedWhole(ms[i].value, ns[j].value) then ComesBack(ms[i].key)
               else Writable(ms[i].key) && Joinable(ms[i].value, ns[j].value, cs))
    case _ => true
  }

  /** The generator replaces the one value by the other; it does not descend. */
  predicate ReplacedWhole(from: Json, goal: Json) {
    || !SameKind(from, goal)
    || (from.Number? && from.n != goal.n) || (from.String? && from.text != goal.text)
  }

  /** A key that only one of the lists has comes back. */
  ghost predicate OthersComeBack(ms: seq<Member>, ns: seq<Member>, cs: bool) {
    forall i :: 0 <= i < |ms| && Unmatched(Fold(ms[i].key, cs), ns, cs) ==> ComesBack(ms[i].key)
  }

  ghost predicate Unmatched(k: string, ns: seq<Member>, cs: bool) {
    forall j :: 0 <= j < |ns| ==> Fold(ns[j].key, cs) != k
  }

  /** The same for two member lists. */
  ghost predicate JoinableMembers(ms: seq<Member>, ns: seq<Member>, cs: bool) {
    && OthersComeBack(ms, ns, cs) && OthersComeBack(ns, ms, cs)
    && forall i, j :: 0 <= i < |ms| && 0 <= j < |ns| && Fold(ms[i].key, cs) == Fold(ns[j].key, cs) ==>
         JoinablePair(ms[i], ns[j], cs)
  }

  ghost predicate JoinablePair(m: Member, n: Member, cs: bool) {
    || CompareJson(m.value, n.value, cs)
    || (if ReplacedWhole(m.value, n.value) then ComesBack(m.key)
        else Writable(m.key) && Joinable(m.value, n.value, cs))
  }

  /** A list of operations carried out in order on data, where the library takes their paths to lead; `None`
      as soon as one is in error. */
  ghost function Run(v: Value, patches: seq<Json>, cs: bool): Option<Value>
    decreases |patches|
  {
    if patches == [] then Some(v)
    else
      var next := RunPatch(v, patches[0], cs);
      if next.None? then None else Run(next.value, patches[1..], cs)
  }

  ghost function RunPatch(v: Value, patch: Json, cs: bool): Option<Value> {
    var f := ReadPatch(patch, cs);
    if WellFormed(v, f, cs) && ComparesRight(v, f, cs) then TakenResult(v, f, cs) else None
  }

  lemma {:induction false} RunAppend(v: Value, a: seq<Json>, b: seq<Json>, cs: bool)
    ensures Run(v, a + b, cs) == if Run(v, a, cs).None? then None else Run(Run(v, a, cs).value, b, cs)
    decreases |a|
  {
    if a == [] {
      assert a + b == b;
    } else {
      assert (a + b)[0] == a[0] && (a + b)[1..] == a[1..] + b;
      var next := RunPatch(v, a[0], cs);
      if next.Some? { RunAppend(next.value, a[1..], b, cs); }
    }
  }

  /** Two lists that each rewrite the data at one location. */
  lemma RunBoth(
      v: Value, a: seq<Json>, b: seq<Json>, p: seq<string>, w: Value, x: Value, cs: bool)
    requires Nav(v, p, cs).Some? && Run(v, a, cs) == Some(Put(v, p, w, cs))
    requires Nav(Put(v, p, w, cs), p, cs).Some?
    requires Run(Put(v, p, w, cs), b, cs) == Some(Put(Put(v, p, w, cs), p, x, cs))
    ensures Run(v, a + b, cs) == Some(Put(v, p, x, cs))
  {
    PutLaws(v, p, w, x, cs);
    RunAppend(v, a, b, cs);
  }

  // ----- the patches that are composed

  lemma FieldNames(cs: bool)
    ensures Fold("op", cs) == "op" && Fold("path", cs) == "path"
    ensures Fold("value", cs) == "value" && Fold("from", cs) == "from"
  {
    FoldIsIdentity("op", cs);
    FoldIsIdentity("path", cs);
    FoldIsIdentity("value", cs);
    FoldIsIdentity("from", cs);
  }

  lemma FindInPatch(ms: seq<Member>, name: string, cs: bool)
    requires |ms| >= 2 && ms[0].key == "op" && ms[1].key == "path"
    requires |ms| <= 3 && (|ms| == 3 ==> ms[2].key == "value")
    ensures Find(ms, "op", cs) == 0 && Find(ms, "path", cs) == 1
    ensures Find(ms, "value", cs) == 2
    ensures Find(ms, "from", cs) == |ms|
  {
    FieldNames(cs);
    assert "op" != "path" && "path"[0] != "value"[0] && "path"[0] != "from"[0];
    assert |"op"| == 2 && |"value"| == 5 && |"from"| == 4;
  }

  lemma OpcodeOf(patch: Json, op: string, cs: bool)
    requires GetObjectItem(patch, "op", cs) == Some(String(op))
    ensures op == "add" ==> DecodeOperation(patch, cs) == ADD
    ensures op == "remove" ==> DecodeOperation(patch, cs) == REMOVE
    ensures op == "replace" ==> DecodeOperation(patch, cs) == REPLACE
    ensures op == "test" ==> DecodeOperation(patch, cs) == TEST
  {
    hide GetObjectItem;
    assert "remove" != "add" && "replace" != "add" && "replace"[2] != "remove"[2];
    assert |"test"| == 4 && |"move"| == 4 && |"copy"| == 4 && "test"[0] != "move"[0] && "test"[0] != "copy"[0];
  }

  lemma ComposedReads(op: string, path: string, suffix: Option<string>, value: Option<Json>, cs: bool)
    ensures var f := ReadPatch(Compose(op, path, suffix, value), cs);
            && f.path == Some(String(if suffix.None? then path else path + "/" + Escape(suffix.value)))
            && f.value == value && f.from == None
            && (op == "add" ==> f.opcode == ADD)
            && (op == "remove" ==> f.opcode == REMOVE)
            && (op == "replace" ==> f.opcode == REPLACE)
            && (op == "test" ==> f.opcode == TEST)
  {
    var patch := Compose(op, path, suffix, value);
    FindInPatch(patch.members, "", cs);
    hide Find, Fold, Escape;
    assert GetObjectItem(patch, "op", cs) == Some(String(op));
    OpcodeOf(patch, op, cs);
    hide DecodeOperation;
  }

  lemma {:induction false} LastSlashOf(p: string, t: string)
    requires '/' !in t
    ensures LastSlash(p + "/" + t) == |p|
    decreases |t|
  {
    var q := p + "/" + t;
    if t == "" {
      assert q[|q| - 1] == '/';
    } else {
      var init := t[..|t| - 1];
      assert t[|t| - 1] in t && forall c <- init :: c in t;
      assert q[|q| - 1] == t[|t| - 1] && q[..|q| - 1] == p + "/" + init;
      LastSlashOf(p, init);
    }
  }

  /** A path one token longer. */
  lemma LongerPath(path: string, t: string)
    requires IsPointer(path) && '/' !in t
    ensures IsPointer(path + "/" + t) && path + "/" + t != "" && Split(path + "/" + t) == Split(path) + [t]
  {
    SplitAppend(path, t);
  }

  lemma DecimalIsSafe(n: nat)
    requires n < SIZE_LIMIT
    ensures ArrayIndex(Decimal(n)) == Some(n) && Decimal(n) != "-" && Plain(Decimal(n))
    ensures Escape(Decimal(n)) == Decimal(n) && '/' !in Decimal(n)
  {
    DecimalIsIndex(n);
    DecodeDecimal(n);
    PlainIsLeftAlone(Decimal(n));
  }

  lemma {:induction false} NoSlashWritten(key: string)
    requires '/' in key ==> UNWRITTEN == '~'
    ensures '/' !in Escape(key)
  {
    if key != "" {
      assert key[0] in key && forall c <- key[1..] :: c in key;
      NoSlashWritten(key[1..]);
    }
  }

  lemma {:induction false} ComesBackUnslashed(key: string)
    requires ComesBack(key)
    ensures '/' in key ==> UNWRITTEN == '~'
  {
    if key != "" {
      assert forall c <- key :: c == key[0] || c in key[1..];
      if key[0] == '~' { OnlySlashesNeedTilde(key[1..]); } else { ComesBackUnslashed(key[1..]); }
    }
  }

  lemma OnlySlashesNeedTilde(s: string)
    requires OnlySlashes(s)
    ensures s != "" ==> UNWRITTEN == '~'
  {
  }

  /** What the written token of a key that comes back is taken for in an object. */
  lemma KeyIsTaken(parent: Value, key: string)
    requires parent.VObject? && ComesBack(key)
    ensures '/' !in Escape(key) && DecodeInPlace(Escape(key), 0, 0) == key && Taken(parent, Escape(key)) == TokenOf(key)
  {
    ComesBackUnslashed(key);
    NoSlashWritten(key);
    DecoderUndoesWriter(key);
  }

  lemma RunOne(v: Value, patch: Json, cs: bool)
    requires WellFormed(v, ReadPatch(patch, cs), cs) && ReadPatch(patch, cs).opcode != TEST
    ensures Run(v, [patch], cs) == TakenResult(v, ReadPatch(patch, cs), cs)
  {
    assert ComparesRight(v, ReadPatch(patch, cs), cs);
    hide ReadPatch, WellFormed, TakenResult, ComparesRight;
    var next := RunPatch(v, patch, cs);
    assert [patch][1..] == [];
    if next.Some? { assert Run(next.value, [], cs) == next; }
  }

  /** Replacing where the last token is taken for what it is. */
  lemma RunReplace(v: Value, path: string, to: Json, cs: bool)
    requires IsPointer(path) && Keyed(to, cs) && Nav(v, Split(path), cs).Some?
    requires StandsOut(v, Split(path), cs) && Decodes(v, Split(path), cs)
    ensures Run(v, [Compose("replace", path, None, Some(to))], cs) == Some(Put(v, Split(path), Meaning(to, cs), cs))
  {
    hide *;
    ReadsAsReplaceAt(v, path, to, cs);
    TakenReplaceIsRfc(v, Split(path), to, cs);
    ReplacesFound(v, Split(path), to, cs);
    RunOne(v, Compose("replace", path, None, Some(to)), cs);
  }

  lemma ReplacesFound(v: Value, path: seq<string>, to: Json, cs: bool)
    requires Nav(v, path, cs).Some?
    ensures RfcApply(v, Replace(path, Meaning(to, cs)), cs) == Some(Put(v, path, Meaning(to, cs), cs))
  {
  }

  lemma ReadsAsReplaceAt(v: Value, path: string, to: Json, cs: bool)
    requires IsPointer(path) && Keyed(to, cs) && StandsOut(v, Split(path), cs)
    ensures var f := ReadPatch(Compose("replace", path, None, Some(to)), cs);
            && WellFormed(v, f, cs) && f.opcode != TEST
            && TakenResult(v, f, cs) == RfcReplace(v, TakenPath(v, Split(path), cs), Meaning(to, cs), cs)
  {
    hide ReadPatch, StandsOut, Split, Compose, TakenPath, RfcReplace, Meaning, Keyed;
    ComposedReads("replace", path, None, Some(to), cs);
  }

  lemma RunRemove(v: Value, path: string, key: string, cs: bool)
    requires IsPointer(path) && '/' !in Escape(key) && Nav(v, Split(path), cs).Some?
    requires var parent := Nav(v, Split(path), cs).value;
             && Step(parent, Taken(parent, Escape(key)), cs).Some?
             && KeyStandsOut(parent, DecodeInPlace(Escape(key), 0, 0), cs)
    ensures var parent := Nav(v, Split(path), cs).value;
            Run(v, [Compose("remove", path, Some(key), None)], cs)
              == Some(Put(v, Split(path), Without(parent, Taken(parent, Escape(key)), cs), cs))
  {
    var p, t := Split(path), Escape(key);
    var u := Taken(Nav(v, p, cs).value, t);
    ReadsAsRemove(v, path, key, cs);
    RemoveBelow(v, p, u, cs);
    TakenBelow(v, p, t, cs);
    hide WellFormed, TakenResult, ReadPatch, RunPatch, Run, Put, Nav, Step, Split, Without, Taken, RfcRemove, TakenPath;
    RunOne(v, Compose("remove", path, Some(key), None), cs);
  }

  lemma ReadsAsRemove(v: Value, path: string, key: string, cs: bool)
    requires IsPointer(path) && '/' !in Escape(key) && Nav(v, Split(path), cs).Some?
    requires KeyStandsOut(Nav(v, Split(path), cs).value, DecodeInPlace(Escape(key), 0, 0), cs)
    ensures var f := ReadPatch(Compose("remove", path, Some(key), None), cs);
            && WellFormed(v, f, cs) && f.opcode != TEST
            && TakenResult(v, f, cs) == AfterRemoval(RfcRemove(v, TakenPath(v, Split(path) + [Escape(key)], cs), cs))
  {
    hide ReadPatch, StandsOut, KeyStandsOut, Split, Nav, Escape, Compose, DecodeInPlace, TakenPath, RfcRemove;
    ComposedReads("remove", path, Some(key), None, cs);
    LongerPath(path, Escape(key));
    ParentDecides(v, Split(path), Escape(key), cs);
  }

  lemma RunAdd(v: Value, path: string, key: string, to: Json, cs: bool)
    requires IsPointer(path) && '/' !in Escape(key) && Keyed(to, cs) && Nav(v, Split(path), cs).Some?
    requires var parent := Nav(v, Split(path), cs).value;
             With(parent, Taken(parent, Escape(key)), Meaning(to, cs), cs).Some?
    ensures var parent := Nav(v, Split(path), cs).value;
            Run(v, [Compose("add", path, Some(key), Some(to))], cs)
              == Some(Put(v, Split(path), With(parent, Taken(parent, Escape(key)), Meaning(to, cs), cs).value, cs))
  {
    var p, t := Split(path), Escape(key);
    var u := Taken(Nav(v, p, cs).value, t);
    ReadsAsAdd(v, path, key, to, cs);
    AddBelow(v, p, u, Meaning(to, cs), cs);
    TakenBelow(v, p, t, cs);
    hide WellFormed, TakenResult, ReadPatch, RunPatch, Run, Put, Nav, Step, Split, With, Taken, RfcAdd, TakenPath, Meaning;
    RunOne(v, Compose("add", path, Some(key), Some(to)), cs);
  }

  lemma ReadsAsAdd(v: Value, path: string, key: string, to: Json, cs: bool)
    requires IsPointer(path) && '/' !in Escape(key) && Keyed(to, cs)
    ensures var f := ReadPatch(Compose("add", path, Some(key), Some(to)), cs);
            && WellFormed(v, f, cs) && f.opcode != TEST
            && TakenResult(v, f, cs) == RfcAdd(v, TakenPath(v, Split(path) + [Escape(key)], cs), Meaning(to, cs), cs)
  {
    hide ReadPatch, Split, Nav, Escape, Compose, Keyed, Meaning, TakenPath, RfcAdd;
    ComposedReads("add", path, Some(key), Some(to), cs);
    LongerPath(path, Escape(key));
  }

  /** Replacing a whole member. */
  lemma RunReplaceMember(v: Value, path: string, key: string, to: Json, cs: bool)
    requires IsPointer(path) && '/' !in Escape(key) && Keyed(to, cs) && Nav(v, Split(path), cs).Some?
    requires var parent := Nav(v, Split(path), cs).value;
             && Step(parent, Taken(parent, Escape(key)), cs).Some?
             && KeyStandsOut(parent, DecodeInPlace(Escape(key), 0, 0), cs)
    ensures var parent := Nav(v, Split(path), cs).value;
            Run(v, [Compose("replace", path + "/" + Escape(key), None, Some(to))], cs)
              == Some(Put(v, Split(path), PutChild(parent, Taken(parent, Escape(key)), Meaning(to, cs), cs), cs))
  {
    var p, t := Split(path), Escape(key);
    var u := Taken(Nav(v, p, cs).value, t);
    ReadsAsReplace(v, path, key, to, cs);
    NavAppend(v, p, u, cs);
    PutAppend(v, p, u, Meaning(to, cs), cs);
    TakenBelow(v, p, t, cs);
    hide WellFormed, TakenResult, ReadPatch, RunPatch, Run, Put, Nav, Step, Split, PutChild, Taken, TakenPath, Meaning;
    RunOne(v, Compose("replace", path + "/" + t, None, Some(to)), cs);
  }

  lemma ReadsAsReplace(v: Value, path: string, key: string, to: Json, cs: bool)
    requires IsPointer(path) && '/' !in Escape(key) && Keyed(to, cs) && Nav(v, Split(path), cs).Some?
    requires KeyStandsOut(Nav(v, Split(path), cs).value, DecodeInPlace(Escape(key), 0, 0), cs)
    ensures var f := ReadPatch(Compose("replace", path + "/" + Escape(key), None, Some(to)), cs);
            && WellFormed(v, f, cs) && f.opcode != TEST
            && TakenResult(v, f, cs) == RfcReplace(v, TakenPath(v, Split(path) + [Escape(key)], cs), Meaning(to, cs), cs)
  {
    hide ReadPatch, StandsOut, KeyStandsOut, Split, Nav, Escape, Compose, DecodeInPlace, TakenPath, RfcReplace, Meaning,
      Keyed;
    ComposedReads("replace", path + "/" + Escape(key), None, Some(to), cs);
    LongerPath(path, Escape(key));
    ParentDecides(v, Split(path), Escape(key), cs);
  }

  // ----- equal trees

  /** The library writes no patch for two trees exactly when its comparison finds them equal. */
  lemma {:induction false} NoPatchForEqual(path: string, from: Json, goal: Json, cs: bool)
    ensures CreatePatches(path, from, goal, cs) == [] <==> CompareJson(from, goal, cs)
    decreases Depth(from), 2, 0
  {
    if from.Array? && goal.Array? {
      NoPatchForElements(path, from.items, goal.items, 0, cs);
      NoneLeftOver(path, from.items, goal.items);
    } else if from.Object? && goal.Object? {
      var fs, ts := SortMembers(from.members, cs), SortMembers(goal.members, cs);
      NoPatchForMembers(path, fs, ts, cs);
      SortedComparison(from.members, goal.members, cs);
    }
  }

  lemma NoneLeftOver(path: string, xs: seq<Json>, ys: seq<Json>)
    ensures SurplusPatches(path, |ys|, |xs|) + MissingPatches(path, ys, |xs|) == [] <==> |xs| == |ys|
  {
  }

  lemma {:induction false} NoPatchForElements(path: string, xs: seq<Json>, ys: seq<Json>, i: nat, cs: bool)
    ensures CommonPatches(path, xs, ys, i, cs) == []
        <==> forall k :: i <= k < |xs| && k < |ys| ==> CompareJson(xs[k], ys[k], cs)
    decreases ItemsDepth(xs) + 1, 1, |xs| - i
  {
    if i < |xs| && i < |ys| {
      NoPatchForEqual(path + "/" + Decimal(i), xs[i], ys[i], cs);
      NoPatchForElements(path, xs, ys, i + 1, cs);
    }
  }

  lemma {:induction false} NoPatchForMembers(path: string, fs: seq<Member>, ts: seq<Member>, cs: bool)
    ensures JoinPatches(path, fs, ts, cs) == [] <==> EqualInOrder(fs, ts, cs)
    decreases MembersDepth(fs) + 1, 1, |fs| + |ts|
  {
    if fs != [] || ts != [] {
      var diff := JoinOrder(fs, ts, cs);
      if diff == 0 {
        NoPatchForEqual(path + "/" + Escape(fs[0].key), fs[0].value, ts[0].value, cs);
        NoPatchForMembers(path, fs[1..], ts[1..], cs);
        EqualInOrderSplits(fs, ts, cs);
      }
    }
  }

  lemma EqualInOrderSplits(fs: seq<Member>, ts: seq<Member>, cs: bool)
    requires fs != [] && ts != []
    ensures EqualInOrder(fs, ts, cs) <==>
      && CompareStrings(fs[0].key, ts[0].key, cs) == 0 && CompareJson(fs[0].value, ts[0].value, cs)
      && EqualInOrder(fs[1..], ts[1..], cs)
  {
    hide CompareStrings, CompareJson;
    assert fs == [fs[0]] + fs[1..] && ts == [ts[0]] + ts[1..];
  }

  // ----- what the generated lists do

  /** Whatever the surroundings: the patches for `from` and `to` at a path turn the data there from
      the one into the other and touch nothing else. */
  lemma {:induction false} Generated(v: Value, path: string, from: Json, to: Json, cs: bool)
    requires IsPointer(path) && Keyed(from, cs) && Keyed(to, cs) && Joinable(from, to, cs)
    requires Nav(v, Split(path), cs) == Some(Meaning(from, cs))
    requires ReplacedWhole(from, to) ==> StandsOut(v, Split(path), cs) && Decodes(v, Split(path), cs)
    ensures Run(v, CreatePatches(path, from, to, cs), cs) == Some(Put(v, Split(path), Meaning(to, cs), cs))
    decreases Depth(from), 2, 0
  {
    if ReplacedWhole(from, to) {
      RunReplace(v, path, to, cs);
    } else if from.Array? {
      GeneratedForArrays(v, path, from.items, to.items, cs);
    } else if from.Object? {
      GeneratedForObjects(v, path, from.members, to.members, cs);
    } else {
      PutLaws(v, Split(path), Meaning(to, cs), Meaning(to, cs), cs);
      assert Meaning(from, cs) == Meaning(to, cs);
      assert CreatePatches(path, from, to, cs) == [];
    }
  }

  lemma {:induction false} GeneratedForArrays(v: Value, path: string, xs: seq<Json>, ys: seq<Json>, cs: bool)
    requires IsPointer(path) && Keyed(Array(xs), cs) && Keyed(Array(ys), cs) && Joinable(Array(xs), Array(ys), cs)
    requires Nav(v, Split(path), cs) == Some(Meaning(Array(xs), cs))
    ensures Run(v, CreatePatches(path, Array(xs), Array(ys), cs), cs)
         == Some(Put(v, Split(path), Meaning(Array(ys), cs), cs))
    decreases Depth(Array(xs)), 1, |xs| + 1
  {
    var common, surplus, missing :=
      CommonPatches(path, xs, ys, 0, cs), SurplusPatches(path, |ys|, |xs|), MissingPatches(path, ys, |xs|);
    ArrayPatches(path, xs, ys, cs);
    MixedEnds(xs, ys, cs);
    assert |ys| < |xs| ==> |ys| < SIZE_LIMIT;
    hide RunPatch, Nav, Put, Split, Run, Mixed, Meaning, Keyed, Joinable, CreatePatches, CommonPatches, SurplusPatches,
      MissingPatches;
    CommonGenerated(v, path, xs, ys, 0, cs);
    if |xs| <= |ys| {
      CommonThenMissing(v, path, common, ys, |xs|, cs);
    } else {
      CommonThenSurplus(v, path, common, Mixed(xs, ys, |ys|, cs), |ys|, cs);
    }
  }

  lemma ArrayPatches(path: string, xs: seq<Json>, ys: seq<Json>, cs: bool)
    ensures CreatePatches(path, Array(xs), Array(ys), cs)
         == if |xs| <= |ys| then CommonPatches(path, xs, ys, 0, cs) + MissingPatches(path, ys, |xs|)
            else CommonPatches(path, xs, ys, 0, cs) + SurplusPatches(path, |ys|, |xs|)
  {
    hide Compose, CommonPatches;
    var common := CommonPatches(path, xs, ys, 0, cs);
    if |xs| <= |ys| {
      assert common + [] == common;
    } else {
      assert common + SurplusPatches(path, |ys|, |xs|) + [] == common + SurplusPatches(path, |ys|, |xs|);
    }
  }

  lemma MixedEnds(xs: seq<Json>, ys: seq<Json>, cs: bool)
    ensures VArray(Mixed(xs, ys, 0, cs)) == Meaning(Array(xs), cs)
    ensures |xs| <= |ys| ==> Mixed(xs, ys, |xs|, cs) == Meaning(Array(ys), cs).items[..|xs|]
    ensures |xs| > |ys| ==>
      var A := Mixed(xs, ys, |ys|, cs); |A| == |xs| && VArray(A[..|ys|]) == Meaning(Array(ys), cs)
  {
    var X, Y := Meaning(Array(xs), cs).items, Meaning(Array(ys), cs).items;
    assert |X| == |xs| && |Y| == |ys|;
    assert Y[..0] + X[0..] == X;
  }

  lemma CommonThenMissing(
      v: Value, path: string, common: seq<Json>, ys: seq<Json>, i: nat, cs: bool)
    requires IsPointer(path) && Keyed(Array(ys), cs) && i <= |ys| && Nav(v, Split(path), cs).Some?
    requires var Y := Meaning(Array(ys), cs).items;
             Run(v, common, cs) == Some(Put(v, Split(path), VArray(Y[..i]), cs))
    ensures Run(v, common + MissingPatches(path, ys, i), cs)
         == Some(Put(v, Split(path), Meaning(Array(ys), cs), cs))
  {
    var p, Y := Split(path), Meaning(Array(ys), cs).items;
    PutLaws(v, p, VArray(Y[..i]), VArray(Y), cs);
    MissingGenerated(Put(v, p, VArray(Y[..i]), cs), path, ys, i, cs);
    RunBoth(v, common, MissingPatches(path, ys, i), p, VArray(Y[..i]), VArray(Y), cs);
  }

  lemma CommonThenSurplus(
      v: Value, path: string, common: seq<Json>, A: seq<Value>, index: nat, cs: bool)
    requires IsPointer(path) && index < SIZE_LIMIT && index <= |A| && Nav(v, Split(path), cs).Some?
    requires Run(v, common, cs) == Some(Put(v, Split(path), VArray(A), cs))
    ensures Run(v, common + SurplusPatches(path, index, |A|), cs)
         == Some(Put(v, Split(path), VArray(A[..index]), cs))
  {
    var p := Split(path);
    PutLaws(v, p, VArray(A), VArray(A[..index]), cs);
    SurplusGenerated(Put(v, p, VArray(A), cs), path, A, index, cs);
    RunBoth(v, common, SurplusPatches(path, index, |A|), p, VArray(A), VArray(A[..index]), cs);
  }

  /** The first `i` elements of the new array, then what the old one had. */
  ghost function Mixed(xs: seq<Json>, ys: seq<Json>, i: nat, cs: bool): seq<Value>
    requires i <= |xs| && i <= |ys|
  {
    Meaning(Array(ys), cs).items[..i] + Meaning(Array(xs), cs).items[i..]
  }

  lemma MixedStep(xs: seq<Json>, ys: seq<Json>, i: nat, cs: bool)
    requires i < |xs| && i < |ys|
    ensures |Mixed(xs, ys, i, cs)| == |xs| && Mixed(xs, ys, i, cs)[i] == Meaning(xs[i], cs)
    ensures Mixed(xs, ys, i, cs)[i := Meaning(ys[i], cs)] == Mixed(xs, ys, i + 1, cs)
  {
    assert Meaning(Array(ys), cs).items[i] == Meaning(ys[i], cs);
  }

  lemma ElementsJoinable(xs: seq<Json>, ys: seq<Json>, i: nat, cs: bool)
    requires Keyed(Array(xs), cs) && Keyed(Array(ys), cs) && Joinable(Array(xs), Array(ys), cs)
    requires i < |xs| && i < |ys|
    ensures Keyed(xs[i], cs) && Keyed(ys[i], cs) && Joinable(xs[i], ys[i], cs) && i < SIZE_LIMIT
  {
  }

  lemma {:induction false} CommonGenerated(v: Value, path: string, xs: seq<Json>, ys: seq<Json>, i: nat, cs: bool)
    requires IsPointer(path) && Keyed(Array(xs), cs) && Keyed(Array(ys), cs) && Joinable(Array(xs), Array(ys), cs)
    requires i <= |xs| && i <= |ys|
    requires Nav(v, Split(path), cs) == Some(VArray(Mixed(xs, ys, i, cs)))
    ensures var n := if |xs| < |ys| then |xs| else |ys|;
            Run(v, CommonPatches(path, xs, ys, i, cs), cs) == Some(Put(v, Split(path), VArray(Mixed(xs, ys, n, cs)), cs))
    decreases ItemsDepth(xs) + 1, 1, |xs| - i
  {
    hide RunPatch, PutChild, Compose, Keyed, Joinable, Mixed, Nav, Put, Split, Meaning;
    var p, A := Split(path), Mixed(xs, ys, i, cs);
    if i < |xs| && i < |ys| {
      var n := if |xs| < |ys| then |xs| else |ys|;
      var A', final := Mixed(xs, ys, i + 1, cs), Mixed(xs, ys, n, cs);
      MixedStep(xs, ys, i, cs);
      ElementsJoinable(xs, ys, i, cs);
      ElementGenerated(v, path, A, i, xs[i], ys[i], cs);
      PutLaws(v, p, VArray(A'), VArray(final), cs);
      CommonGenerated(Put(v, p, VArray(A'), cs), path, xs, ys, i + 1, cs);
      RunBoth(v, CreatePatches(path + "/" + Decimal(i), xs[i], ys[i], cs), CommonPatches(path, xs, ys, i + 1, cs),
              p, VArray(A'), VArray(final), cs);
    } else {
      assert CommonPatches(path, xs, ys, i, cs) == [];
      PutLaws(v, p, VArray(A), VArray(A), cs);
    }
  }

  lemma {:induction false} ElementGenerated(
      v: Value, path: string, A: seq<Value>, i: nat, x: Json, y: Json, cs: bool)
    requires IsPointer(path) && Keyed(x, cs) && Keyed(y, cs) && Joinable(x, y, cs)
    requires i < |A| && i < SIZE_LIMIT && A[i] == Meaning(x, cs)
    requires Nav(v, Split(path), cs) == Some(VArray(A))
    ensures Run(v, CreatePatches(path + "/" + Decimal(i), x, y, cs), cs)
         == Some(Put(v, Split(path), VArray(A[i := Meaning(y, cs)]), cs))
    decreases Depth(x) + 1, 0, 0
  {
    var p, t := Split(path), Decimal(i);
    DecimalIsSafe(i);
    LongerPath(path, t);
    NavAppend(v, p, t, cs);
    ParentDecides(v, p, t, cs);
    hide StandsOut, Decodes, Joinable, Keyed, Meaning, Split, CreatePatches, Run, Nav, Put, Decimal;
    Generated(v, path + "/" + t, x, y, cs);
    PutAppend(v, p, t, Meaning(y, cs), cs);
  }

  lemma {:induction false} SurplusGenerated(v: Value, path: string, A: seq<Value>, index: nat, cs: bool)
    requires IsPointer(path) && index < SIZE_LIMIT && index <= |A|
    requires Nav(v, Split(path), cs) == Some(VArray(A))
    ensures Run(v, SurplusPatches(path, index, |A|), cs) == Some(Put(v, Split(path), VArray(A[..index]), cs))
    decreases |A|
  {
    hide RunPatch, Compose, Nav, Put, Split, Run, SurplusPatches;
    var p := Split(path);
    if index < |A| {
      // The patches are all alike, so the last one written can be the first one run.
      var A' := RemoveAt(A, index);
      assert A'[..index] == A[..index];
      ElementRemoved(v, path, A, index, cs);
      PutLaws(v, p, VArray(A'), VArray(A[..index]), cs);
      SurplusGenerated(Put(v, p, VArray(A'), cs), path, A', index, cs);
      SurplusFirst(path, index, |A|);
      RunBoth(v, [Compose("remove", path, Some(Decimal(index)), None)], SurplusPatches(path, index, |A| - 1),
              p, VArray(A'), VArray(A[..index]), cs);
    } else {
      assert A[..index] == A;
      PutLaws(v, p, VArray(A), VArray(A), cs);
      NoSurplus(path, index);
      NothingToRun(v, cs);
    }
  }

  lemma NoSurplus(path: string, index: nat)
    ensures SurplusPatches(path, index, index) == []
  {
  }

  lemma ElementRemoved(v: Value, path: string, A: seq<Value>, i: nat, cs: bool)
    requires IsPointer(path) && i < SIZE_LIMIT && i < |A|
    requires Nav(v, Split(path), cs) == Some(VArray(A))
    ensures Run(v, [Compose("remove", path, Some(Decimal(i)), None)], cs)
         == Some(Put(v, Split(path), VArray(RemoveAt(A, i)), cs))
  {
    DecimalIsSafe(i);
    assert Step(VArray(A), Decimal(i), cs).Some? && Without(VArray(A), Decimal(i), cs) == VArray(RemoveAt(A, i));
    hide Run, Compose, Nav, Put, Split, Decimal, Plain, Step, Without, RemoveAt;
    RunRemove(v, path, Decimal(i), cs);
  }

  lemma {:induction false} SurplusFirst(path: string, index: nat, end: nat)
    requires index < end
    ensures SurplusPatches(path, index, end)
         == [Compose("remove", path, Some(Decimal(index)), None)] + SurplusPatches(path, index, end - 1)
    decreases end
  {
    var one := [Compose("remove", path, Some(Decimal(index)), None)];
    if index < end - 1 {
      SurplusFirst(path, index, end - 1);
      assert (one + SurplusPatches(path, index, end - 2)) + one == one + (SurplusPatches(path, index, end - 2) + one);
    } else {
      assert SurplusPatches(path, index, end - 1) == [];
      assert [] + one == one + [];
    }
  }

  lemma MissingGenerated(v: Value, path: string, ys: seq<Json>, i: nat, cs: bool)
    requires IsPointer(path) && Keyed(Array(ys), cs) && i <= |ys|
    requires Nav(v, Split(path), cs) == Some(VArray(Meaning(Array(ys), cs).items[..i]))
    ensures Run(v, MissingPatches(path, ys, i), cs) == Some(Put(v, Split(path), Meaning(Array(ys), cs), cs))
  {
    var Y := Meaning(Array(ys), cs).items;
    assert forall k :: 0 <= k < |ys| ==> Y[k] == Meaning(ys[k], cs) && Keyed(ys[k], cs);
    hide Nav, Put, Split, Run, Compose, MissingPatches, Keyed, Meaning;
    ElementsAdded(v, path, ys, Y, i, cs);
  }

  lemma {:induction false} ElementsAdded(v: Value, path: string, ys: seq<Json>, Y: seq<Value>, i: nat, cs: bool)
    requires IsPointer(path) && i <= |ys| == |Y|
    requires forall k :: 0 <= k < |ys| ==> Y[k] == Meaning(ys[k], cs) && Keyed(ys[k], cs)
    requires Nav(v, Split(path), cs) == Some(VArray(Y[..i]))
    ensures Run(v, MissingPatches(path, ys, i), cs) == Some(Put(v, Split(path), VArray(Y), cs))
    decreases |ys| - i
  {
    hide Nav, Put, Split, Run, Compose, MissingPatches, Keyed, Meaning;
    MissingSplits(path, ys, i);
    var p := Split(path);
    if i < |ys| {
      assert Y[..i] + [Y[i]] == Y[..i + 1];
      ElementAdded(v, path, Y[..i], ys[i], cs);
      PutLaws(v, p, VArray(Y[..i + 1]), VArray(Y), cs);
      ElementsAdded(Put(v, p, VArray(Y[..i + 1]), cs), path, ys, Y, i + 1, cs);
      RunBoth(v, [Compose("add", path, Some("-"), Some(ys[i]))], MissingPatches(path, ys, i + 1),
              p, VArray(Y[..i + 1]), VArray(Y), cs);
    } else {
      assert Y[..i] == Y;
      PutLaws(v, p, VArray(Y), VArray(Y), cs);
      NothingToRun(v, cs);
    }
  }

  lemma MissingSplits(path: string, ys: seq<Json>, i: nat)
    requires i <= |ys|
    ensures MissingPatches(path, ys, i) ==
      if i < |ys| then [Compose("add", path, Some("-"), Some(ys[i]))] + MissingPatches(path, ys, i + 1) else []
  {
  }

  lemma NothingToRun(v: Value, cs: bool)
    ensures Run(v, [], cs) == Some(v)
  {
  }

  lemma ElementAdded(v: Value, path: string, A: seq<Value>, y: Json, cs: bool)
    requires IsPointer(path) && Keyed(y, cs) && Nav(v, Split(path), cs) == Some(VArray(A))
    ensures Run(v, [Compose("add", path, Some("-"), Some(y))], cs)
         == Some(Put(v, Split(path), VArray(A + [Meaning(y, cs)]), cs))
  {
    assert Escape("-") == "-" by { assert "-"[1..] == "" && ['-'] + "" == "-"; }
    RunAdd(v, path, "-", y, cs);
  }

  lemma {:induction false} GeneratedForObjects(v: Value, path: string, ms: seq<Member>, ns: seq<Member>, cs: bool)
    requires IsPointer(path) && Keyed(Object(ms), cs) && Keyed(Object(ns), cs) && Joinable(Object(ms), Object(ns), cs)
    requires Nav(v, Split(path), cs) == Some(Meaning(Object(ms), cs))
    ensures Run(v, CreatePatches(path, Object(ms), Object(ns), cs), cs)
         == Some(Put(v, Split(path), Meaning(Object(ns), cs), cs))
    decreases Depth(Object(ms)), 1, |ms| + |ns| + 1
  {
    var fs, ts := SortMembers(ms, cs), SortMembers(ns, cs);
    var M, N := MembersMeaning(ms, cs), MembersMeaning(ns, cs);
    assert CreatePatches(path, Object(ms), Object(ns), cs) == JoinPatches(path, fs, ts, cs);
    JoinStarts(ms, ns, cs);
    hide Keyed, Joinable, Ready, InPlay, InPlace, CreatePatches, JoinPatches, SortMembers, Nav, Put, Split, Run;
    JoinGenerated(v, path, fs, ts, M, M.Keys + N.Keys, cs);
    AllReplaced(M, N);
  }

  lemma JoinStarts(ms: seq<Member>, ns: seq<Member>, cs: bool)
    requires Keyed(Object(ms), cs) && Keyed(Object(ns), cs) && Joinable(Object(ms), Object(ns), cs)
    ensures var fs, ts := SortMembers(ms, cs), SortMembers(ns, cs);
            var M, N := MembersMeaning(ms, cs), MembersMeaning(ns, cs);
            && Ready(fs, ts, cs) && InPlay(M, fs, ts, M.Keys + N.Keys, cs) && InPlace(fs, M, cs)
            && MembersMeaning(fs, cs) == M && MembersMeaning(ts, cs) == N
  {
    SortedStaysJoinable(ms, ns, cs);
    assert cs ==> SameOrder(ms + ns, KeyOf);
    hide SameOrder, NoCaseTwins, Joinable, JoinableMembers, KeyedMembers, StrictlySorted, MembersMeaning, SortMembers;
    SortedForTheJoin(ms, ns, cs);
    SortedForTheJoin(ns, ms, cs);
    KeysAreApart(ms, ns, cs);
  }

  lemma AllReplaced(M: map<string, Value>, N: map<string, Value>)
    ensures M - M.Keys + N == N
  {
  }

  /** Each of the two lists is sorted right. */
  lemma SortedForTheJoin(ms: seq<Member>, ns: seq<Member>, cs: bool)
    requires Keyed(Object(ms), cs) && (cs ==> SameOrder(ms + ns, KeyOf) || SameOrder(ns + ms, KeyOf))
    ensures var fs := SortMembers(ms, cs);
            && KeyedMembers(fs, cs) && StrictlySorted(fs, KeyOf, cs)
            && MembersMeaning(fs, cs) == MembersMeaning(ms, cs)
            && InPlace(fs, MembersMeaning(ms, cs), cs)
  {
    assert KeyedMembers(ms, cs);
    forall m | m in ms ensures m in ms + ns && m in ns + ms {}
    SortKeepsMeaning(ms, cs, cs);
    MembersSorted(ms, cs);
    var fs := SortMembers(ms, cs);
    forall i | 0 <= i < |fs|
      ensures Fold(fs[i].key, cs) in MembersMeaning(ms, cs)
      ensures MembersMeaning(ms, cs)[Fold(fs[i].key, cs)] == Meaning(fs[i].value, cs)
    {
      MeaningAtMember(fs, i, cs);
    }
  }

  /** What is asked of the members does not depend on their order. */
  lemma SortedStaysJoinable(ms: seq<Member>, ns: seq<Member>, cs: bool)
    requires Joinable(Object(ms), Object(ns), cs)
    ensures JoinableMembers(SortMembers(ms, cs), SortMembers(ns, cs), cs)
  {
    var fs, ts := SortMembers(ms, cs), SortMembers(ns, cs);
    OthersStay(ms, ns, fs, ts, cs);
    OthersStay(ns, ms, ts, fs, cs);
    forall i, j | 0 <= i < |fs| && 0 <= j < |ts| && Fold(fs[i].key, cs) == Fold(ts[j].key, cs)
      ensures JoinablePair(fs[i], ts[j], cs)
    {
      assert fs[i] in ms && ts[j] in ns;
      var k :| 0 <= k < |ms| && ms[k] == fs[i];
      var l :| 0 <= l < |ns| && ns[l] == ts[j];
    }
  }

  lemma OthersStay(ms: seq<Member>, ns: seq<Member>, fs: seq<Member>, ts: seq<Member>, cs: bool)
    requires OthersComeBack(ms, ns, cs)
    requires (forall m :: m in fs <==> m in ms) && forall n :: n in ts <==> n in ns
    ensures OthersComeBack(fs, ts, cs)
  {
    forall i | 0 <= i < |fs| && Unmatched(Fold(fs[i].key, cs), ts, cs) ensures ComesBack(fs[i].key) {
      assert fs[i] in ms;
      var k :| 0 <= k < |ms| && ms[k] == fs[i];
      forall j | 0 <= j < |ns| ensures Fold(ns[j].key, cs) != Fold(ms[k].key, cs) {
        assert ns[j] in ts;
        var l :| 0 <= l < |ts| && ts[l] == ns[j];
      }
    }
  }

  /** No two of the keys in play differ in letter case only. */
  ghost predicate NoCaseTwins(keys: set<string>) {
    forall x <- keys, y <- keys :: Lower(x) == Lower(y) ==> x == y
  }

  lemma KeysAreApart(ms: seq<Member>, ns: seq<Member>, cs: bool)
    requires cs ==> SameOrder(ms + ns, KeyOf)
    ensures NoCaseTwins(MembersMeaning(ms, cs).Keys + MembersMeaning(ns, cs).Keys)
  {
    var keys := MembersMeaning(ms, cs).Keys + MembersMeaning(ns, cs).Keys;
    forall x <- keys, y <- keys | Lower(x) == Lower(y) ensures x == y {
      var m := MemberWithKey(ms, ns, x, cs);
      var n := MemberWithKey(ms, ns, y, cs);
      if cs {
        LessTotal(m.key, n.key);
        LessIrreflexive(Lower(x));
      } else {
        LowerTwice(m.key);
        LowerTwice(n.key);
      }
    }
  }

  lemma MemberWithKey(ms: seq<Member>, ns: seq<Member>, k: string, cs: bool) returns (m: Member)
    requires k in MembersMeaning(ms, cs) || k in MembersMeaning(ns, cs)
    ensures m in ms + ns && Fold(KeyOf(m), cs) == k
  {
    if k in MembersMeaning(ms, cs) {
      MeaningHasOnlyMembers(ms, cs, k);
      var i :| 0 <= i < |ms| && Fold(ms[i].key, cs) == k;
      m := ms[i];
    } else {
      MeaningHasOnlyMembers(ns, cs, k);
      var i :| 0 <= i < |ns| && Fold(ns[i].key, cs) == k;
      m := ns[i];
    }
  }

  /** The object consists of keys in play, and so do the rests of both lists. */
  ghost predicate InPlay(M: map<string, Value>, fs: seq<Member>, ts: seq<Member>, keys: set<string>, cs: bool) {
    && NoCaseTwins(keys) && M.Keys <= keys
    && (forall i :: 0 <= i < |fs| ==> Fold(fs[i].key, cs) in keys)
    && forall i :: 0 <= i < |ts| ==> Fold(ts[i].key, cs) in keys
  }

  lemma InPlayStandsOut(M: map<string, Value>, key: string, keys: set<string>, cs: bool)
    requires NoCaseTwins(keys) && M.Keys <= keys && Fold(key, cs) in keys
    ensures KeyStandsOut(VObject(M), key, cs)
  {
    LowerTwice(key);
    forall k <- M | Lower(k) == Lower(key) ensures k == Fold(key, cs) {
      assert k in keys && Lower(Fold(key, cs)) == Lower(k);
    }
  }

  /** The two lists are ready for the walk. */
  ghost predicate Ready(fs: seq<Member>, ts: seq<Member>, cs: bool) {
    && KeyedMembers(fs, cs) && KeyedMembers(ts, cs)
    && StrictlySorted(fs, KeyOf, cs) && StrictlySorted(ts, KeyOf, cs) && JoinableMembers(fs, ts, cs)
  }

  /** All remaining members of `from` are in place in `M`; those of `to` are put in their stead. */
  lemma {:induction false} JoinGenerated(
      v: Value, path: string, fs: seq<Member>, ts: seq<Member>, M: map<string, Value>, keys: set<string>, cs: bool)
    requires IsPointer(path) && Ready(fs, ts, cs) && InPlay(M, fs, ts, keys, cs)
    requires Nav(v, Split(path), cs) == Some(VObject(M)) && InPlace(fs, M, cs)
    ensures Run(v, JoinPatches(path, fs, ts, cs), cs)
         == Some(Put(v, Split(path), VObject(M - MembersMeaning(fs, cs).Keys + MembersMeaning(ts, cs)), cs))
    decreases MembersDepth(fs) + 1, 1, |fs| + |ts|
  {
    hide RunPatch, PutChild, Compose, Ready, InPlay, InPlace, Joined, JoinHead, Nav, Put, Split;
    var p := Split(path);
    if fs == [] && ts == [] {
      assert M - MembersMeaning(fs, cs).Keys + MembersMeaning(ts, cs) == M;
      PutLaws(v, p, VObject(M), VObject(M), cs);
    } else {
      var fs', ts' := RestOfFrom(fs, ts, cs), RestOfTo(fs, ts, cs);
      var M' := Joined(M, fs, ts, cs);
      var final := M' - MembersMeaning(fs', cs).Keys + MembersMeaning(ts', cs);
      JoinStep(v, path, fs, ts, M, keys, cs);
      ReadyAfterStep(fs, ts, cs);
      InPlayAfterStep(M, fs, ts, keys, cs);
      JoinKeepsInvariant(fs, ts, M, cs);
      PutLaws(v, p, VObject(M'), VObject(M'), cs);
      JoinGenerated(Put(v, p, VObject(M'), cs), path, fs', ts', M', keys, cs);
      RunBoth(v, JoinHead(path, fs, ts, cs), JoinPatches(path, fs', ts', cs), p, VObject(M'), VObject(final), cs);
    }
  }

  lemma InPlayAfterStep(M: map<string, Value>, fs: seq<Member>, ts: seq<Member>, keys: set<string>, cs: bool)
    requires InPlay(M, fs, ts, keys, cs) && (fs != [] || ts != [])
    ensures InPlay(Joined(M, fs, ts, cs), RestOfFrom(fs, ts, cs), RestOfTo(fs, ts, cs), keys, cs)
  {
    hide Fold, CompareStrings, NoCaseTwins;
  }

  lemma ReadyAfterStep(fs: seq<Member>, ts: seq<Member>, cs: bool)
    requires Ready(fs, ts, cs) && (fs != [] || ts != [])
    ensures Ready(RestOfFrom(fs, ts, cs), RestOfTo(fs, ts, cs), cs)
  {
    var diff := JoinOrder(fs, ts, cs);
    if diff <= 0 { KeyedTail(fs, cs); }
    if diff >= 0 { KeyedTail(ts, cs); }
    var fs', ts' := RestOfFrom(fs, ts, cs), RestOfTo(fs, ts, cs);
    HeadsUnmatched(fs, ts, cs);
    hide KeyedMembers, StrictlySorted, CompareStrings, Fold, Unmatched;
    JoinableTails(fs, ts, fs', ts', cs);
  }

  /** `ms'` is the list or its tail; in the second case no member of `ns'` has the key of the head. */
  ghost predicate Rest(ms: seq<Member>, ms': seq<Member>, ns': seq<Member>, cs: bool) {
    ms' == ms || (ms != [] && ms' == ms[1..] && Unmatched(Fold(ms[0].key, cs), ns', cs))
  }

  lemma JoinableTails(fs: seq<Member>, ts: seq<Member>, fs': seq<Member>, ts': seq<Member>, cs: bool)
    requires JoinableMembers(fs, ts, cs) && Rest(fs, fs', ts', cs) && Rest(ts, ts', fs', cs)
    ensures JoinableMembers(fs', ts', cs)
  {
    hide Fold, ComesBack, Joinable, JoinablePair, OthersComeBack, Unmatched;
    OthersInTail(fs, ts, fs', ts', cs);
    OthersInTail(ts, fs, ts', fs', cs);
    forall i, j | 0 <= i < |fs'| && 0 <= j < |ts'| && Fold(fs'[i].key, cs) == Fold(ts'[j].key, cs)
      ensures JoinablePair(fs'[i], ts'[j], cs)
    {
      assert fs'[i] == fs[i + |fs| - |fs'|] && ts'[j] == ts[j + |ts| - |ts'|];
    }
  }

  lemma KeyedTail(ms: seq<Member>, cs: bool)
    requires KeyedMembers(ms, cs) && StrictlySorted(ms, KeyOf, cs) && ms != []
    ensures KeyedMembers(ms[1..], cs) && StrictlySorted(ms[1..], KeyOf, cs)
  {
    assert forall i :: 0 <= i < |ms[1..]| ==> ms[1..][i] == ms[i + 1];
    SortedTail(ms, cs);
  }

  /** A head that is taken leaves no member with its key behind. */
  lemma HeadsUnmatched(fs: seq<Member>, ts: seq<Member>, cs: bool)
    requires StrictlySorted(fs, KeyOf, cs) && StrictlySorted(ts, KeyOf, cs) && (fs != [] || ts != [])
    ensures JoinOrder(fs, ts, cs) <= 0 ==> Unmatched(Fold(fs[0].key, cs), RestOfTo(fs, ts, cs), cs)
    ensures JoinOrder(fs, ts, cs) >= 0 ==> Unmatched(Fold(ts[0].key, cs), RestOfFrom(fs, ts, cs), cs)
  {
    if fs != [] && ts != [] { LessTotal(Fold(ts[0].key, cs), Fold(fs[0].key, cs)); }
    if fs != [] { SortedTail(fs, cs); LessIrreflexive(Fold(fs[0].key, cs)); }
    if ts != [] { SortedTail(ts, cs); LessIrreflexive(Fold(ts[0].key, cs)); }
    if JoinOrder(fs, ts, cs) < 0 { NotBelowHead(Fold(fs[0].key, cs), ts, cs); }
    if JoinOrder(fs, ts, cs) > 0 { NotBelowHead(Fold(ts[0].key, cs), fs, cs); }
  }

  lemma OthersInTail(ms: seq<Member>, ns: seq<Member>, ms': seq<Member>, ns': seq<Member>, cs: bool)
    requires OthersComeBack(ms, ns, cs) && Rest(ms, ms', ns', cs) && Rest(ns, ns', ms', cs)
    ensures OthersComeBack(ms', ns', cs)
  {
    hide Fold, ComesBack;
    forall i | 0 <= i < |ms'| && Unmatched(Fold(ms'[i].key, cs), ns', cs) ensures ComesBack(ms'[i].key) {
      var j := i + |ms| - |ms'|;
      assert ms[j] == ms'[i];
      forall k | 0 <= k < |ns| ensures Fold(ns[k].key, cs) != Fold(ms[j].key, cs) {
        if ns' == ns { assert ns'[k] == ns[k]; } else if k > 0 { assert ns'[k - 1] == ns[k]; }
      }
    }
  }

  /** The object after one step of the walk. */
  ghost function Joined(M: map<string, Value>, fs: seq<Member>, ts: seq<Member>, cs: bool): map<string, Value>
    requires fs != [] || ts != []
  {
    if JoinOrder(fs, ts, cs) < 0 then M - {Fold(fs[0].key, cs)}
    else M[Fold(ts[0].key, cs) := Meaning(ts[0].value, cs)]
  }

  ghost predicate InPlace(fs: seq<Member>, M: map<string, Value>, cs: bool) {
    forall i :: 0 <= i < |fs| ==>
      Fold(fs[i].key, cs) in M && M[Fold(fs[i].key, cs)] == Meaning(fs[i].value, cs)
  }

  lemma {:induction false} JoinStep(
      v: Value, path: string, fs: seq<Member>, ts: seq<Member>, M: map<string, Value>, keys: set<string>, cs: bool)
    requires IsPointer(path) && Ready(fs, ts, cs) && InPlay(M, fs, ts, keys, cs)
    requires Nav(v, Split(path), cs) == Some(VObject(M)) && InPlace(fs, M, cs)
    requires fs != [] || ts != []
    ensures Run(v, JoinHead(path, fs, ts, cs), cs) == Some(Put(v, Split(path), VObject(Joined(M, fs, ts, cs)), cs))
    decreases MembersDepth(fs) + 1, 0, 1
  {
    HeadsUnmatched(fs, ts, cs);
    hide Run, CreatePatches, Compose, Nav, Put, Split, Step, With, Without, Fold, Keyed, StrictlySorted, NoCaseTwins,
      Joinable, JoinablePair, KeyStandsOut, Meaning, ComesBack, Escape, DecodeInPlace, Taken, TokenOf;
    var diff := JoinOrder(fs, ts, cs);
    if diff == 0 {
      SameKeys(fs[0].key, ts[0].key, cs);
      MemberGenerated(v, path, fs[0], ts[0], M, keys, cs);
    } else if diff < 0 {
      InPlayStandsOut(M, fs[0].key, keys, cs);
      EditMember(M, fs[0].key, VNull, cs);
      KeyIsTaken(VObject(M), fs[0].key);
      RunRemove(v, path, fs[0].key, cs);
    } else {
      EditMember(M, ts[0].key, Meaning(ts[0].value, cs), cs);
      KeyIsTaken(VObject(M), ts[0].key);
      RunAdd(v, path, ts[0].key, ts[0].value, cs);
    }
  }

  lemma SameKeys(a: string, b: string, cs: bool)
    requires CompareStrings(a, b, cs) == 0
    ensures Fold(a, cs) == Fold(b, cs)
  {
  }

  /** What the token of a key means in an object. */
  lemma EditMember(M: map<string, Value>, key: string, w: Value, cs: bool)
    ensures var t := TokenOf(key);
      && Step(VObject(M), t, cs) == (if Fold(key, cs) in M then Some(M[Fold(key, cs)]) else None)
      && (Fold(key, cs) in M ==> PutChild(VObject(M), t, w, cs) == VObject(M[Fold(key, cs) := w]))
      && (Fold(key, cs) in M ==> Without(VObject(M), t, cs) == VObject(M - {Fold(key, cs)}))
      && With(VObject(M), t, w, cs) == Some(VObject(M[Fold(key, cs) := w]))
  {
    TokenStandsFor(key);
  }

  /** The same for the written token of a writable key. */
  lemma DescendToMember(M: map<string, Value>, key: string, w: Value, cs: bool)
    requires Writable(key) && Fold(key, cs) in M
    ensures '/' !in Escape(key)
    ensures Step(VObject(M), Escape(key), cs) == Some(M[Fold(key, cs)])
    ensures PutChild(VObject(M), Escape(key), w, cs) == VObject(M[Fold(key, cs) := w])
  {
    EscapeNamesKey(key);
    NoSlashWritten(key);
  }

  lemma {:induction false} MemberGenerated(
      v: Value, path: string, f: Member, t: Member, M: map<string, Value>, keys: set<string>, cs: bool)
    requires IsPointer(path) && Keyed(f.value, cs) && Keyed(t.value, cs) && JoinablePair(f, t, cs)
    requires Nav(v, Split(path), cs) == Some(VObject(M))
    requires NoCaseTwins(keys) && M.Keys <= keys
    requires Fold(f.key, cs) in M && M[Fold(f.key, cs)] == Meaning(f.value, cs)
    ensures Run(v, CreatePatches(path + "/" + Escape(f.key), f.value, t.value, cs), cs)
         == Some(Put(v, Split(path), VObject(M[Fold(f.key, cs) := Meaning(t.value, cs)]), cs))
    decreases Depth(f.value) + 1, 0, 0
  {
    hide *;
    if CompareJson(f.value, t.value, cs) {
      UnchangedMember(v, path, f, t, M, cs);
    } else if ReplacedWhole(f.value, t.value) {
      PairReplaced(f, t, cs);
      MemberReplaced(v, path, f, t, M, keys, cs);
    } else {
      PairEdited(f, t, cs);
      DescendToMember(M, f.key, Meaning(t.value, cs), cs);
      LongerPath(path, Escape(f.key));
      NavAppend(v, Split(path), Escape(f.key), cs);
      Generated(v, path + "/" + Escape(f.key), f.value, t.value, cs);
      PutAppend(v, Split(path), Escape(f.key), Meaning(t.value, cs), cs);
    }
  }

  lemma PairReplaced(f: Member, t: Member, cs: bool)
    requires JoinablePair(f, t, cs) && !CompareJson(f.value, t.value, cs) && ReplacedWhole(f.value, t.value)
    ensures ComesBack(f.key)
  {
  }

  lemma PairEdited(f: Member, t: Member, cs: bool)
    requires JoinablePair(f, t, cs) && !CompareJson(f.value, t.value, cs) && !ReplacedWhole(f.value, t.value)
    ensures Writable(f.key) && Joinable(f.value, t.value, cs)
  {
  }

  lemma UnchangedMember(v: Value, path: string, f: Member, t: Member, M: map<string, Value>, cs: bool)
    requires Keyed(f.value, cs) && Keyed(t.value, cs) && CompareJson(f.value, t.value, cs)
    requires IsPointer(path) && Nav(v, Split(path), cs) == Some(VObject(M))
    requires Fold(f.key, cs) in M && M[Fold(f.key, cs)] == Meaning(f.value, cs)
    ensures Run(v, CreatePatches(path + "/" + Escape(f.key), f.value, t.value, cs), cs)
         == Some(Put(v, Split(path), VObject(M[Fold(f.key, cs) := Meaning(t.value, cs)]), cs))
  {
    hide Keyed, Meaning, CompareJson, Run, CreatePatches, Nav, Put, Split, Fold;
    NoPatchForEqual(path + "/" + Escape(f.key), f.value, t.value, cs);
    EqualFoundIsEqual(f.value, t.value, cs);
    assert M[Fold(f.key, cs) := Meaning(t.value, cs)] == M;
    PutLaws(v, Split(path), VObject(M), VObject(M), cs);
    NothingToRun(v, cs);
  }

  lemma MemberReplaced(
      v: Value, path: string, f: Member, t: Member, M: map<string, Value>, keys: set<string>, cs: bool)
    requires IsPointer(path) && Keyed(t.value, cs) && ReplacedWhole(f.value, t.value) && ComesBack(f.key)
    requires Nav(v, Split(path), cs) == Some(VObject(M)) && NoCaseTwins(keys) && M.Keys <= keys
    requires Fold(f.key, cs) in M
    ensures Run(v, CreatePatches(path + "/" + Escape(f.key), f.value, t.value, cs), cs)
         == Some(Put(v, Split(path), VObject(M[Fold(f.key, cs) := Meaning(t.value, cs)]), cs))
  {
    assert CreatePatches(path + "/" + Escape(f.key), f.value, t.value, cs)
        == [Compose("replace", path + "/" + Escape(f.key), None, Some(t.value))];
    assert Fold(f.key, cs) in keys;
    hide *;
    EditMember(M, f.key, Meaning(t.value, cs), cs);
    KeyIsTaken(VObject(M), f.key);
    InPlayStandsOut(M, f.key, keys, cs);
    RunReplaceMember(v, path, f.key, t.value, cs);
  }

  lemma JoinKeepsInvariant(fs: seq<Member>, ts: seq<Member>, M: map<string, Value>, cs: bool)
    requires Ready(fs, ts, cs) && InPlace(fs, M, cs) && (fs != [] || ts != [])
    ensures var fs', ts' := RestOfFrom(fs, ts, cs), RestOfTo(fs, ts, cs);
            var M' := Joined(M, fs, ts, cs);
            && InPlace(fs', M', cs)
            && M' - MembersMeaning(fs', cs).Keys + MembersMeaning(ts', cs)
            == M - MembersMeaning(fs, cs).Keys + MembersMeaning(ts, cs)
  {
    hide KeyedMembers, JoinableMembers, CompareStrings, Meaning, Fold;
    HeadsInOrder(fs, ts, cs);
    var diff := JoinOrder(fs, ts, cs);
    if diff <= 0 {
      SortedTail(fs, cs);
      TailInPlace(fs, M, if diff == 0 then Meaning(ts[0].value, cs) else VNull, cs);
    }
    if diff >= 0 {
      SortedTail(ts, cs);
    }
    if diff > 0 {
      var k := Fold(ts[0].key, cs);
      NotBelowHead(k, fs, cs);
      AddCommutes(M, MembersMeaning(fs, cs).Keys, MembersMeaning(ts[1..], cs), k, Meaning(ts[0].value, cs));
    } else if diff == 0 {
      var k := Fold(fs[0].key, cs);
      SwapCommutes(M, MembersMeaning(fs[1..], cs).Keys, MembersMeaning(ts[1..], cs), k, Meaning(ts[0].value, cs));
      assert MembersMeaning(fs, cs).Keys == MembersMeaning(fs[1..], cs).Keys + {k};
    } else {
      var k := Fold(fs[0].key, cs);
      assert MembersMeaning(fs, cs).Keys == MembersMeaning(fs[1..], cs).Keys + {k};
      assert M - {k} - MembersMeaning(fs[1..], cs).Keys == M - (MembersMeaning(fs[1..], cs).Keys + {k});
    }
  }

  lemma HeadsInOrder(fs: seq<Member>, ts: seq<Member>, cs: bool)
    requires fs != [] || ts != []
    ensures JoinOrder(fs, ts, cs) > 0 && fs != [] ==> Less(Fold(ts[0].key, cs), Fold(fs[0].key, cs))
    ensures JoinOrder(fs, ts, cs) == 0 ==> Fold(ts[0].key, cs) == Fold(fs[0].key, cs)
  {
    if fs != [] && ts != [] { LessTotal(Fold(ts[0].key, cs), Fold(fs[0].key, cs)); }
  }

  lemma AddCommutes(M: map<string, Value>, gone: set<string>, rest: map<string, Value>, k: string, w: Value)
    requires k !in gone && k !in rest
    ensures M[k := w] - gone + rest == M - gone + rest[k := w]
  {
  }

  lemma SwapCommutes(M: map<string, Value>, gone: set<string>, rest: map<string, Value>, k: string, w: Value)
    requires k !in gone && k !in rest
    ensures M[k := w] - gone + rest == M - (gone + {k}) + rest[k := w]
  {
  }

  lemma TailInPlace(fs: seq<Member>, M: map<string, Value>, w: Value, cs: bool)
    requires fs != [] && StrictlySorted(fs, KeyOf, cs) && InPlace(fs, M, cs)
    ensures InPlace(fs[1..], M, cs)
    ensures InPlace(fs[1..], M - {Fold(fs[0].key, cs)}, cs)
    ensures InPlace(fs[1..], M[Fold(fs[0].key, cs) := w], cs)
  {
    SortedTail(fs, cs);
    forall i | 0 <= i < |fs[1..]|
      ensures Fold(fs[1..][i].key, cs) in M && M[Fold(fs[1..][i].key, cs)] == Meaning(fs[1..][i].value, cs)
      ensures Fold(fs[1..][i].key, cs) != Fold(fs[0].key, cs)
    {
      assert fs[1..][i] == fs[i + 1];
      LessIrreflexive(Fold(fs[0].key, cs));
    }
  }

  // ----- keys that are written into a path

  /** From the empty object to one with a single member: the member comes with the key that the decoder makes
      of what the writer wrote, so the round trip succeeds exactly for the keys that come back. */
  lemma AddedKeyComesBack(key: string, value: Json, cs: bool)
    requires '/' !in key
    ensures var goal := Object([Member(key, value)]);
            var result := ApplyPatches(Object([]), Array(CreatePatches("", Object([]), goal, cs)), cs);
      && result == Outcome(0, Object([Member(DecodeInPlace(Escape(key), 0, 0), value)]))
      && (result.doc == goal <==> ComesBack(key))
  {
    var m := Member(key, value);
    var patch := Compose("add", "", Some(key), Some(value));
    OneAdded(m, cs);
    AppliesAdd(Object([]), key, value, cs);
    DecoderUndoesWriter(key);
    hide Escape, DecodeInPlace, ComesBack, Compose, ApplyPatch, CreatePatches;
    var after := ApplyPatch(Object([]), patch, cs);
    assert [patch][1..] == [] && ApplyAll(after.doc, [], cs) == Outcome(0, after.doc);
  }

  lemma OneAdded(m: Member, cs: bool)
    ensures CreatePatches("", Object([]), Object([m]), cs) == [Compose("add", "", Some(m.key), Some(m.value))]
  {
    hide Compose;
    assert SortMembers([], cs) == [] && SortMembers([m], cs) == [m];
    assert [m][1..] == [] && JoinPatches("", [], [], cs) == [];
    assert RestOfFrom([], [m], cs) == [] && RestOfTo([], [m], cs) == [];
  }

  lemma AppliesAdd(doc: Json, key: string, value: Json, cs: bool)
    requires '/' !in key && doc == Object([])
    ensures ApplyPatch(doc, Compose("add", "", Some(key), Some(value)), cs)
         == Outcome(0, Object([Member(DecodeInPlace(Escape(key), 0, 0), value)]))
  {
    var patch := Compose("add", "", Some(key), Some(value));
    ComposedReads("add", "", Some(key), Some(value), cs);
    NoSlashWritten(key);
    hide Escape, DecodeInPlace, ReadPatch, Compose, AddAtPath;
    AddsToRoot(Escape(key), value, cs);
  }

  lemma AddsToRoot(token: string, value: Json, cs: bool)
    requires '/' !in token
    ensures "" + "/" + token != ""
    ensures AddAtPath(Object([]), "" + "/" + token, value, cs)
         == Outcome(0, Object([Member(DecodeInPlace(token, 0, 0), value)]))
  {
    LastSlashOf("", token);
    hide DecodeInPlace, LastSlash;
    var path := "" + "/" + token;
    assert path[..0] == "" && path[0 + 1..] == token && Resolve(Object([]), "", cs) == Some([]);
    assert SetMember([], DecodeInPlace(token, 0, 0), value, cs) == [Member(DecodeInPlace(token, 0, 0), value)];
  }
}
