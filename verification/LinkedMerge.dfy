/** `merge_patch` on documents with links, and the round trip of generated merge patches. */
module LinkedMerge {
  import opened Text
  import opened Sequences
  import opened Json
  import opened Sorting
  import opened Compare
  import opened Patch
  import opened Linked
  import opened Merging = MergePatch
  import opened MergeExact
  import LinkedRoundTrip

  // ----- merging

  type ObjectTree = t: Tree | t.LinkedObject? witness LinkedObject([], false)

  function TakeNamed(t: ObjectTree, key: string, cs: bool): Option<Tree> {
    var i := Find(EraseMembers(t.members), key, cs);
    if i < |t.members| then Some(t.members[i].value) else None
  }

  /** `None` where the library would unlink a node through a stale link. */
  function DropNamed(t: ObjectTree, key: string, cs: bool): Option<ObjectTree> {
    var i := Find(EraseMembers(t.members), key, cs);
    if i == |t.members| then Some(t)
    else if i == 0 && t.stale then None
    else Some(LinkedObject(RemoveAt(t.members, i), t.stale))
  }

  function MergeLinked(target: Option<Tree>, patch: Json, cs: bool): Option<Tree>
    decreases patch, 0
  {
    if !patch.Object? then Some(Fresh(patch))
    else MergeAllLinked(if target.Some? && target.value.LinkedObject? then target.value else LinkedObject([], false),
                        patch.members, cs)
  }

  function MergeAllLinked(t: ObjectTree, ps: seq<Member>, cs: bool): Option<ObjectTree>
    decreases ps, 1
  {
    if ps == [] then Some(t)
    else
      var next := MergeOneLinked(t, ps[0], cs);
      if next.None? then None else MergeAllLinked(next.value, ps[1..], cs)
  }

  function MergeOneLinked(t: ObjectTree, p: Member, cs: bool): Option<ObjectTree>
    decreases p.value, 1
  {
    var rest := DropNamed(t, p.key, cs);
    if rest.None? || p.value.Null? then rest
    else
      var merged := MergeLinked(TakeNamed(t, p.key, cs), p.value, cs);
      if merged.None? then None
      else Some(LinkedObject(rest.value.members + [Named(p.key, merged.value)], rest.value.stale))
  }

  function Erased(t: Option<Tree>): Option<Json> {
    if t.None? then None else Some(Erase(t.value))
  }

  predicate Linkable(t: Option<Tree>) {
    t.Some? ==> WellLinked(t.value)
  }

  /** Unless a stale link is followed, the merged document is what the function without links says; and none is
      followed in a well linked document, which stays so. */
  lemma {:induction false} MergedErased(target: Option<Tree>, patch: Json, cs: bool)
    ensures var r := MergeLinked(target, patch, cs);
      && (r.Some? ==> Erase(r.value) == Merging.MergePatch(Erased(target), patch, cs))
      && (Linkable(target) ==> r.Some? && WellLinked(r.value))
    decreases patch, 0
  {
    if !patch.Object? {
      FreshIsWellLinked(patch);
    } else {
      var t: ObjectTree := if target.Some? && target.value.LinkedObject? then target.value else LinkedObject([], false);
      AllMergedErased(t, patch.members, cs);
    }
  }

  lemma {:induction false} AllMergedErased(t: ObjectTree, ps: seq<Member>, cs: bool)
    ensures var r := MergeAllLinked(t, ps, cs);
      && (r.Some? ==> EraseMembers(r.value.members) == MergeMembers(EraseMembers(t.members), ps, cs))
      && (WellLinked(t) ==> r.Some? && WellLinked(r.value))
    decreases ps, 1
  {
    hide WellLinked, MergeOneLinked, MergeMember, EraseMembers;
    if ps != [] {
      OneMergedErased(t, ps[0], cs);
      var next := MergeOneLinked(t, ps[0], cs);
      if next.Some? { AllMergedErased(next.value, ps[1..], cs); }
    }
  }

  lemma {:induction false} OneMergedErased(t: ObjectTree, p: Member, cs: bool)
    ensures var r := MergeOneLinked(t, p, cs);
      && (r.Some? ==> EraseMembers(r.value.members) == MergeMember(EraseMembers(t.members), p, cs))
      && (WellLinked(t) ==> r.Some? && WellLinked(r.value))
    decreases p.value, 1
  {
    hide WellLinked, EraseMembers, Erase, MergeLinked, Merging.MergePatch, DropNamed, DropMember, TakeNamed, TakeMember;
    NamedErased(t, p.key, cs);
    var target, rest := TakeNamed(t, p.key, cs), DropNamed(t, p.key, cs);
    if !p.value.Null? {
      MergedErased(target, p.value, cs);
      var merged := MergeLinked(target, p.value, cs);
      if rest.Some? && merged.Some? { ErasedAppend(rest.value.members, rest.value.stale, p.key, merged.value); }
    }
  }

  lemma NamedErased(t: ObjectTree, key: string, cs: bool)
    ensures var rest := DropNamed(t, key, cs);
      && (rest.Some? ==> EraseMembers(rest.value.members) == DropMember(EraseMembers(t.members), key, cs))
      && (WellLinked(t) ==> rest.Some? && WellLinked(rest.value))
    ensures Erased(TakeNamed(t, key, cs)) == TakeMember(EraseMembers(t.members), key, cs)
    ensures WellLinked(t) ==> Linkable(TakeNamed(t, key, cs))
  {
    var i := Find(EraseMembers(t.members), key, cs);
    hide Find;
    if i < |t.members| { ErasedDrop(t, i); }
  }

  // ----- what the generator leaves of its first argument

  /** `generate_merge_patch` sorts both objects, and compares and walks the members that it meets. */
  function Walked(t: Tree, goal: Json, gen: bool): Tree
    decreases Depth(Erase(t)), 2
  {
    match (t, goal)
    case (LinkedObject(ms, stale), Object(ns)) =>
      ErasedSort(ms, gen);
      SortedDepth(EraseMembers(ms), gen);
      LinkedObject(MembersWalked(SortNamed(ms, gen), SortMembers(ns, gen), gen), StaleAfterSort(ms, stale, gen))
    case _ => t
  }

  function MembersWalked(fs: seq<Named>, ts: seq<Member>, gen: bool): seq<Named>
    decreases MembersDepth(EraseMembers(fs)) + 1, 0, |fs| + |ts|
  {
    if fs == [] || ts == [] then fs
    else
      MembersParts(fs);
      var diff := CompareStrings(fs[0].key, ts[0].key, true);
      if diff < 0 then [fs[0]] + MembersWalked(fs[1..], ts, gen)
      else if diff > 0 then MembersWalked(fs, ts[1..], gen)
      else [Named(fs[0].key, PairWalked(fs[0].value, ts[0].value, gen))] + MembersWalked(fs[1..], ts[1..], gen)
  }

  function PairWalked(f: Tree, t: Json, gen: bool): Tree
    decreases Depth(Erase(f)), 3
  {
    ErasedCompared(f, t, gen);
    CompareKeepsDepth(Erase(f), t, gen);
    if CompareJson(Erase(f), t, gen) then Compared(f, t, gen)
    else Walked(Compared(f, t, gen), AfterCompare(t, Erase(f), gen), false)
  }

  /** Generating changes the order of members and nothing else in the data. */
  lemma {:induction false} WalkedMeans(t: Tree, goal: Json, gen: bool, cs: bool)
    requires Keyed(Erase(t), cs)
    ensures Keyed(Erase(Walked(t, goal, gen)), cs) && Meaning(Erase(Walked(t, goal, gen)), cs) == Meaning(Erase(t), cs)
    decreases Depth(Erase(t)), 2
  {
    if t.LinkedObject? && goal.Object? {
      var ms, fs, ts := t.members, SortNamed(t.members, gen), SortMembers(goal.members, gen);
      WalkedParts(t, goal, gen);
      ErasedSort(ms, gen);
      SortedDepth(EraseMembers(ms), gen);
      KeyedObject(Erase(t), cs);
      KeyedObject(Erase(Walked(t, goal, gen)), cs);
      SortKeepsMeaning(EraseMembers(ms), gen, cs);
      hide *;
      DistinctMembers(EraseMembers(fs), cs);
      MembersWalkedMean(fs, ts, gen, cs);
      SameButForOrder(EraseMembers(MembersWalked(fs, ts, gen)), EraseMembers(fs), cs);
    }
  }

  lemma WalkedParts(t: ObjectTree, goal: Json, gen: bool)
    requires goal.Object?
    ensures Erase(t) == Object(EraseMembers(t.members))
    ensures Erase(Walked(t, goal, gen))
         == Object(EraseMembers(MembersWalked(SortNamed(t.members, gen), SortMembers(goal.members, gen), gen)))
  {
  }

  lemma {:induction false} MembersWalkedMean(fs: seq<Named>, ts: seq<Member>, gen: bool, cs: bool)
    requires forall i :: 0 <= i < |fs| ==> Keyed(EraseMembers(fs)[i].value, cs)
    ensures MembersAgree(EraseMembers(MembersWalked(fs, ts, gen)), EraseMembers(fs), cs)
    decreases MembersDepth(EraseMembers(fs)) + 1, 0, |fs| + |ts|
  {
    hide Keyed, Meaning, PairWalked, Erase, CompareStrings;
    if fs != [] && ts != [] {
      MembersParts(fs);
      assert EraseMembers(fs)[0].value == Erase(fs[0].value);
      assert forall i :: 0 <= i < |fs[1..]| ==> EraseMembers(fs[1..])[i] == EraseMembers(fs)[i + 1];
      var diff := CompareStrings(fs[0].key, ts[0].key, true);
      if diff < 0 {
        MembersWalkedMean(fs[1..], ts, gen, cs);
        LinkedRoundTrip.MembersAgreeFurther(fs[0], fs[0].value, MembersWalked(fs[1..], ts, gen), fs[1..], cs);
      } else if diff > 0 {
        MembersWalkedMean(fs, ts[1..], gen, cs);
      } else {
        PairWalkedMeans(fs[0].value, ts[0].value, gen, cs);
        MembersWalkedMean(fs[1..], ts[1..], gen, cs);
        LinkedRoundTrip.MembersAgreeFurther(fs[0], PairWalked(fs[0].value, ts[0].value, gen),
                                            MembersWalked(fs[1..], ts[1..], gen), fs[1..], cs);
      }
      assert fs == [fs[0]] + fs[1..];
    }
  }

  lemma {:induction false} PairWalkedMeans(f: Tree, t: Json, gen: bool, cs: bool)
    requires Keyed(Erase(f), cs)
    ensures Keyed(Erase(PairWalked(f, t, gen)), cs) && Meaning(Erase(PairWalked(f, t, gen)), cs) == Meaning(Erase(f), cs)
    decreases Depth(Erase(f)), 3
  {
    hide Erase, Keyed, Meaning, CompareJson, AfterCompare, Compared, Walked, Depth;
    ErasedCompared(f, t, gen);
    CompareKeepsDepth(Erase(f), t, gen);
    CompareKeepsMeaning(Erase(f), t, gen, cs);
    if !CompareJson(Erase(f), t, gen) { WalkedMeans(Compared(f, t, gen), AfterCompare(t, Erase(f), gen), false, cs); }
  }

  // ----- the round trip

  /** Merging what was generated; there may be no patch. */
  function MergedTree(t: Tree, patch: Option<Json>, cs: bool): Option<Tree> {
    if patch.None? then Some(t) else MergeLinked(Some(t), patch.value, cs)
  }

  /** The generated patch, merged into any well linked document that means what `from` means (a copy of it, say),
      leaves a well linked document, and that means what `goal` means if and only if `Reaches` holds. */
  lemma MergePatchTakesFromToGoal(t: Tree, from: Json, goal: Json, gen: bool, cs: bool)
    requires Keyed(from, cs) && Keyed(goal, cs)
    requires WellLinked(t) && Keyed(Erase(t), cs) && Meaning(Erase(t), cs) == Meaning(from, cs)
    ensures var r := MergedTree(t, GenerateMergePatch(Some(from), Some(goal), gen), cs);
      && r.Some? && WellLinked(r.value)
      && (Meaning(Erase(r.value), cs) == Meaning(goal, cs) <==> Reaches(from, goal, gen, cs))
  {
    hide Erase, WellLinked, Keyed, Meaning, GenerateMergePatch, Reaches, MergeLinked, Merging.MergePatch;
    var g := GenerateMergePatch(Some(from), Some(goal), gen);
    GenerateReaches(Erase(t), from, goal, gen, cs);
    if g.Some? { MergedErased(Some(t), g.value, cs); }
  }

  /** The generator's own argument, too, if generating moved no first member of an object. */
  lemma MergePatchTakesArgumentToGoal(from: Json, goal: Json, gen: bool, cs: bool)
    requires Keyed(from, cs) && Keyed(goal, cs) && WellLinked(Walked(Fresh(from), goal, gen))
    ensures var r := MergedTree(Walked(Fresh(from), goal, gen), GenerateMergePatch(Some(from), Some(goal), gen), cs);
      r.Some? && (Meaning(Erase(r.value), cs) == Meaning(goal, cs) <==> Reaches(from, goal, gen, cs))
  {
    FreshIsWellLinked(from);
    hide *;
    WalkedMeans(Fresh(from), goal, gen, cs);
    MergePatchTakesFromToGoal(Walked(Fresh(from), goal, gen), from, goal, gen, cs);
  }

  // ----- where it goes wrong

  /** The generator has sorted its argument, and merging removes the member that came first by that. */
  lemma MergedArgumentIsSpoilt(cs: bool)
    ensures var from, goal := Object([Member("b", Number(1)), Member("a", Number(2))]), Object([Member("b", Number(1))]);
      && GenerateMergePatch(Some(from), Some(goal), cs) == Some(Object([Member("a", Null)]))
      && MergedTree(Walked(Fresh(from), goal, cs), GenerateMergePatch(Some(from), Some(goal), cs), cs) == None
  {
    hide *;
    var b, a := Member("b", Number(1)), Member("a", Number(2));
    var from, goal := Object([b, a]), Object([b]);
    LinkedRoundTrip.TwoErasedSorted(b, a, cs);
    OneSorted(b, cs);
    OneNull(a, b, cs);
    GeneratedObject(from, goal, cs);
    ArgumentWalked(from, goal, cs);
    NullOnFirst(Leaf(Number(2)), Leaf(Number(1)), cs);
    MergedTreeIs(Walked(Fresh(from), goal, cs), [Member("a", Null)], cs);
  }

  lemma MergedTreeIs(t: ObjectTree, ps: seq<Member>, cs: bool)
    ensures MergedTree(t, Some(Object(ps)), cs) == MergeAllLinked(t, ps, cs)
  {
    hide MergeAllLinked;
  }

  lemma OneSorted(m: Member, cs: bool)
    ensures SortMembers([m], cs) == [m]
  {
  }

  lemma OneNull(a: Member, b: Member, cs: bool)
    requires b.value == Number(1) && a.key == "a" && b.key == "b"
    ensures DifferentMembers([a, b], [b], cs) == [Member("a", Null)]
  {
    hide *;
    LinkedRoundTrip.AscendingLetters(true);
    assert [a, b][1..] == [b] && [b][1..] == [];
    WalkedMembers([a, b], [b], cs);
    WalkedPair([b], [b], cs);
    NumberIsItself(1, cs);
    NothingLeft(cs);
    assert [Member("a", Null)] + [] == [Member("a", Null)];
  }

  lemma NumberIsItself(n: int, cs: bool)
    ensures CompareJson(Number(n), Number(n), cs)
  {
  }

  lemma NullOnFirst(x: Tree, y: Tree, cs: bool)
    ensures MergeAllLinked(LinkedObject([Named("a", x), Named("b", y)], true), [Member("a", Null)], cs) == None
  {
    var t: ObjectTree := LinkedObject([Named("a", x), Named("b", y)], true);
    assert EraseMembers(t.members)[0].key == "a";
    assert Find(EraseMembers(t.members), "a", cs) == 0;
    assert DropNamed(t, "a", cs) == None;
    hide DropNamed;
    assert MergeOneLinked(t, Member("a", Null), cs) == None;
  }

  lemma ArgumentWalked(from: Json, goal: Json, cs: bool)
    requires from == Object([Member("b", Number(1)), Member("a", Number(2))]) && goal == Object([Member("b", Number(1))])
    ensures Walked(Fresh(from), goal, cs)
         == LinkedObject([Named("a", Leaf(Number(2))), Named("b", Leaf(Number(1)))], true)
  {
    var t := Fresh(from);
    var sorted := [Named("a", Leaf(Number(2))), Named("b", Leaf(Number(1)))];
    assert t == LinkedObject([Named("b", Leaf(Number(1))), Named("a", Leaf(Number(2)))], false);
    hide *;
    OneSorted(goal.members[0], cs);
    LinkedRoundTrip.TwoSorted(Leaf(Number(1)), Leaf(Number(2)), cs);
    LinkedRoundTrip.AscendingLetters(true);
    ScalarWalked(sorted[1].value, goal.members[0].value, cs);
    WalkedPastFirst(sorted, goal.members, cs);
    WalkedObject(t, goal, cs);
    assert goal.members == [goal.members[0]];
  }

  lemma WalkedObject(t: ObjectTree, goal: Json, gen: bool)
    requires goal.Object?
    ensures Walked(t, goal, gen)
         == LinkedObject(MembersWalked(SortNamed(t.members, gen), SortMembers(goal.members, gen), gen),
                         StaleAfterSort(t.members, t.stale, gen))
  {
  }

  lemma ScalarWalked(f: Tree, t: Json, gen: bool)
    requires f.Leaf?
    ensures PairWalked(f, t, gen) == f
  {
  }

  lemma WalkedPastFirst(fs: seq<Named>, ts: seq<Member>, gen: bool)
    requires |fs| == 2 && |ts| == 1 && PairWalked(fs[1].value, ts[0].value, gen) == fs[1].value
    requires CompareStrings(fs[0].key, ts[0].key, true) < 0 && CompareStrings(fs[1].key, ts[0].key, true) == 0
    ensures MembersWalked(fs, ts, gen) == fs
  {
    hide CompareStrings, PairWalked;
    assert fs == [fs[0]] + fs[1..] && fs[1..] == [fs[1]] + fs[1..][1..] && fs[1..][1..] == [] && ts[1..] == [];
    assert fs[1] == Named(fs[1].key, fs[1].value);
    assert MembersWalked(fs[1..], ts, gen) == [fs[1]] + MembersWalked([], [], gen);
  }
}
