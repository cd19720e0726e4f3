/** Generated patch lists as RFC 6902 reads them. */
module RfcRoundTrip {
  import opened Text
  import opened Json
  import opened Sorting
  import opened Compare
  import opened Pointer
  import opened DataPath
  import opened Patch
  import opened PatchRfc
  import opened PatchGen
  import opened PatchRoundTrip

  // ----- what kind of patches is generated

  /** A path without escapes. */
  predicate PlainPath(path: string) {
    IsPointer(path) && '~' !in path
  }

  /** The patch adds, removes or replaces. */
  predicate IsEdit(patch: Json, plain: bool, cs: bool) {
    var f := ReadPatch(patch, cs);
    && (f.opcode == ADD || f.opcode == REMOVE || f.opcode == REPLACE)
    && (plain ==> HasText(f.path) && PlainPath(f.path.value.text))
  }

  predicate Edits(patches: seq<Json>, plain: bool, cs: bool) {
    forall i :: 0 <= i < |patches| ==> IsEdit(patches[i], plain, cs)
  }

  ghost predicate SafeMembers(ms: seq<Member>) {
    forall i :: 0 <= i < |ms| ==> Plain(ms[i].key) && PointerSafe(ms[i].value)
  }

  lemma ComposedIsEdit(op: string, path: string, suffix: Option<string>, value: Option<Json>, plain: bool, cs: bool)
    requires op == "add" || op == "remove" || op == "replace"
    requires plain ==> PlainPath(path) && (suffix.Some? ==> Plain(suffix.value))
    ensures Edits([Compose(op, path, suffix, value)], plain, cs)
  {
    hide Compose, ReadPatch;
    ComposedReads(op, path, suffix, value, cs);
    if plain && suffix.Some? { PlainIsLeftAlone(suffix.value); }
  }

  lemma NoEdits(plain: bool, cs: bool)
    ensures Edits([], plain, cs)
  {
  }

  lemma EditsTogether(a: seq<Json>, b: seq<Json>, plain: bool, cs: bool)
    requires Edits(a, plain, cs) && Edits(b, plain, cs)
    ensures Edits(a + b, plain, cs)
  {
    hide IsEdit;
  }

  lemma PlainBelow(path: string, token: string)
    requires PlainPath(path) && Plain(token)
    ensures PlainPath(path + "/" + Escape(token))
  {
    PlainIsLeftAlone(token);
  }

  lemma PlainDecimal(n: nat)
    ensures Plain(Decimal(n)) && Escape(Decimal(n)) == Decimal(n)
  {
    DigitsArePlain(n);
    PlainIsLeftAlone(Decimal(n));
  }

  lemma {:induction false} DigitsArePlain(n: nat)
    ensures Plain(Decimal(n))
  {
    if n >= 10 { DigitsArePlain(n / 10); }
  }

  /** Whatever is generated adds, removes or replaces; with keys free of '~' and '/', at paths without escapes. */
  lemma {:induction false} GeneratedEdits(path: string, from: Json, goal: Json, plain: bool, cs: bool)
    requires plain ==> PlainPath(path) && PointerSafe(from) && PointerSafe(goal)
    ensures Edits(CreatePatches(path, from, goal, cs), plain, cs)
    decreases Depth(from), 2, 0
  {
    hide Edits, Compose, Plain, PlainPath, SortMembers;
    ComposedIsEdit("replace", path, None, Some(goal), plain, cs);
    NoEdits(plain, cs);
    if from.Array? && goal.Array? {
      var xs, ys := from.items, goal.items;
      CommonEdits(path, xs, ys, 0, plain, cs);
      SurplusEdits(path, |ys|, |xs|, plain, cs);
      MissingEdits(path, ys, |xs|, plain, cs);
      EditsTogether(CommonPatches(path, xs, ys, 0, cs), SurplusPatches(path, |ys|, |xs|), plain, cs);
      EditsTogether(CommonPatches(path, xs, ys, 0, cs) + SurplusPatches(path, |ys|, |xs|),
                    MissingPatches(path, ys, |xs|), plain, cs);
    } else if from.Object? && goal.Object? {
      if plain {
        SortedIsSafe(from.members, cs);
        SortedIsSafe(goal.members, cs);
      }
      JoinEdits(path, SortMembers(from.members, cs), SortMembers(goal.members, cs), plain, cs);
    }
  }

  lemma SortedIsSafe(ms: seq<Member>, cs: bool)
    requires SafeMembers(ms)
    ensures SafeMembers(SortMembers(ms, cs))
  {
    hide Plain, PointerSafe;
    var fs := SortMembers(ms, cs);
    forall i | 0 <= i < |fs| ensures Plain(fs[i].key) && PointerSafe(fs[i].value) {
      assert fs[i] in fs && fs[i] in ms;
    }
  }

  lemma {:induction false} CommonEdits(path: string, xs: seq<Json>, ys: seq<Json>, i: nat, plain: bool, cs: bool)
    requires plain ==> PlainPath(path)
    requires plain ==> forall k :: 0 <= k < |xs| ==> PointerSafe(xs[k])
    requires plain ==> forall k :: 0 <= k < |ys| ==> PointerSafe(ys[k])
    ensures Edits(CommonPatches(path, xs, ys, i, cs), plain, cs)
    decreases ItemsDepth(xs) + 1, 1, |xs| - i
  {
    hide Edits, CreatePatches, Plain, PlainPath, PointerSafe;
    NoEdits(plain, cs);
    if i < |xs| && i < |ys| {
      PlainDecimal(i);
      if plain { PlainBelow(path, Decimal(i)); }
      GeneratedEdits(path + "/" + Decimal(i), xs[i], ys[i], plain, cs);
      CommonEdits(path, xs, ys, i + 1, plain, cs);
      EditsTogether(CreatePatches(path + "/" + Decimal(i), xs[i], ys[i], cs), CommonPatches(path, xs, ys, i + 1, cs),
                    plain, cs);
    }
  }

  lemma {:induction false} SurplusEdits(path: string, index: nat, end: nat, plain: bool, cs: bool)
    requires plain ==> PlainPath(path)
    ensures Edits(SurplusPatches(path, index, end), plain, cs)
    decreases end - index
  {
    hide Edits, Compose, Plain, PlainPath;
    NoEdits(plain, cs);
    if index < end {
      SurplusEdits(path, index, end - 1, plain, cs);
      PlainDecimal(index);
      ComposedIsEdit("remove", path, Some(Decimal(index)), None, plain, cs);
      EditsTogether(SurplusPatches(path, index, end - 1), [Compose("remove", path, Some(Decimal(index)), None)], plain, cs);
    }
  }

  lemma {:induction false} MissingEdits(path: string, ys: seq<Json>, i: nat, plain: bool, cs: bool)
    requires plain ==> PlainPath(path)
    ensures Edits(MissingPatches(path, ys, i), plain, cs)
    decreases |ys| - i
  {
    assert Plain("-");
    hide Edits, Compose, Plain, PlainPath;
    NoEdits(plain, cs);
    if i < |ys| {
      ComposedIsEdit("add", path, Some("-"), Some(ys[i]), plain, cs);
      MissingEdits(path, ys, i + 1, plain, cs);
      EditsTogether([Compose("add", path, Some("-"), Some(ys[i]))], MissingPatches(path, ys, i + 1), plain, cs);
    }
  }

  lemma SafeMember(ms: seq<Member>)
    requires SafeMembers(ms) && ms != []
    ensures Plain(ms[0].key) && PointerSafe(ms[0].value) && SafeMembers(ms[1..])
  {
    hide Plain, PointerSafe;
    assert forall i :: 0 <= i < |ms[1..]| ==> ms[1..][i] == ms[i + 1];
  }

  lemma {:induction false} JoinEdits(path: string, fs: seq<Member>, ts: seq<Member>, plain: bool, cs: bool)
    requires plain ==> PlainPath(path) && SafeMembers(fs) && SafeMembers(ts)
    ensures Edits(JoinPatches(path, fs, ts, cs), plain, cs)
    decreases MembersDepth(fs) + 1, 1, |fs| + |ts|
  {
    hide Edits, Compose, CreatePatches, Plain, PlainPath, SafeMembers, PointerSafe, CompareStrings;
    NoEdits(plain, cs);
    if fs != [] || ts != [] {
      if plain && fs != [] { SafeMember(fs); }
      if plain && ts != [] { SafeMember(ts); }
      var diff := JoinOrder(fs, ts, cs);
      if diff == 0 {
        if plain { PlainBelow(path, fs[0].key); }
        GeneratedEdits(path + "/" + Escape(fs[0].key), fs[0].value, ts[0].value, plain, cs);
      } else if diff < 0 {
        ComposedIsEdit("remove", path, Some(fs[0].key), None, plain, cs);
      } else {
        ComposedIsEdit("add", path, Some(ts[0].key), Some(ts[0].value), plain, cs);
      }
      JoinEdits(path, RestOfFrom(fs, ts, cs), RestOfTo(fs, ts, cs), plain, cs);
      EditsTogether(JoinHead(path, fs, ts, cs), JoinPatches(path, RestOfFrom(fs, ts, cs), RestOfTo(fs, ts, cs), cs),
                    plain, cs);
    }
  }

  // ----- runs by the RFC

  /** A list of operations carried out in order on data by RFC 6902; `None` as soon as one is in error. */
  ghost function RfcRun(v: Value, patches: seq<Json>, cs: bool): Option<Value>
    decreases |patches|
  {
    if patches == [] then Some(v)
    else
      var next := RfcPatch(v, patches[0], cs);
      if next.None? then None else RfcRun(next.value, patches[1..], cs)
  }

  ghost function RfcPatch(v: Value, patch: Json, cs: bool): Option<Value> {
    var f := ReadPatch(patch, cs);
    if WellFormed(v, f, cs) then RfcResult(v, f, cs) else None
  }

  lemma {:induction false} PlainTokens(path: string)
    requires PlainPath(path)
    ensures forall t <- Split(path) :: Plain(t)
    decreases |path|
  {
    if path != "" {
      var n := TokenEnd(path[1..]);
      var rest := path[1..][n..];
      assert forall c <- rest :: c in path;
      assert forall c <- path[1..][..n] :: c in path;
      PlainTokens(rest);
      assert Split(path) == [path[1..][..n]] + Split(rest);
    }
  }

  lemma {:induction false} PlainSurvives(t: string, i: nat)
    requires Plain(t) && i <= |t|
    ensures SurvivesInPlace(t, i, i)
    decreases |t| - i
  {
    if i < |t| {
      assert t[i] in t;
      PlainSurvives(t, i + 1);
    }
  }

  lemma PlainDecodes(v: Value, path: seq<string>, cs: bool)
    requires forall t <- path :: Plain(t)
    ensures Decodes(v, path, cs)
  {
    hide Plain, Nav, SurvivesInPlace;
    if path != [] {
      var t := path[|path| - 1];
      assert t in path;
      PlainIsLeftAlone(t);
      PlainSurvives(t, 0);
    }
  }

  /** On paths without escapes the library takes every edit for what it is. */
  lemma EditIsRfc(v: Value, patch: Json, cs: bool)
    requires IsEdit(patch, true, cs) && RunPatch(v, patch, cs).Some?
    ensures RfcPatch(v, patch, cs) == RunPatch(v, patch, cs)
  {
    var f := ReadPatch(patch, cs);
    hide ReadPatch, TakenResult, RfcResult, Decodes, Plain, WellFormed;
    var path := f.path.value.text;
    PlainTokens(path);
    PlainDecodes(v, Split(path), cs);
    TakenIsRfc(v, f, cs);
  }

  lemma {:induction false} EditsAreRfc(v: Value, patches: seq<Json>, cs: bool)
    requires Edits(patches, true, cs) && Run(v, patches, cs).Some?
    ensures RfcRun(v, patches, cs) == Run(v, patches, cs)
    decreases |patches|
  {
    hide IsEdit, RunPatch, RfcPatch;
    if patches != [] {
      EditIsRfc(v, patches[0], cs);
      assert forall i :: 0 <= i < |patches[1..]| ==> patches[1..][i] == patches[i + 1];
      EditsAreRfc(RunPatch(v, patches[0], cs).value, patches[1..], cs);
    }
  }


  /** With keys free of '~' and '/', the generated patches take `from` to `goal` for anyone who goes by
      RFC 6902. */
  lemma GeneratedIsRfc(from: Json, goal: Json, cs: bool)
    requires Keyed(from, cs) && Keyed(goal, cs) && Joinable(from, goal, cs) && PointerSafe(from) && PointerSafe(goal)
    ensures RfcRun(Meaning(from, cs), CreatePatches("", from, goal, cs), cs) == Some(Meaning(goal, cs))
  {
    AtTheRoot(Meaning(from, cs), Meaning(goal, cs), cs);
    hide Keyed, Meaning, Joinable, CreatePatches, Edits, Run, RfcRun, Nav, Put, StandsOut, Decodes;
    Generated(Meaning(from, cs), "", from, goal, cs);
    GeneratedEdits("", from, goal, true, cs);
    EditsAreRfc(Meaning(from, cs), CreatePatches("", from, goal, cs), cs);
  }

  lemma AtTheRoot(v: Value, w: Value, cs: bool)
    ensures Split("") == [] && Nav(v, [], cs) == Some(v) && Put(v, [], w, cs) == w
    ensures StandsOut(v, [], cs) && Decodes(v, [], cs)
  {
  }
}
