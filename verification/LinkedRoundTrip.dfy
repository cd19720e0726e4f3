/** Whole runs on documents with links, and the round trip of generated patches. */
module LinkedRoundTrip {
  import opened Text
  import opened Sequences
  import opened Json
  import opened Sorting
  import opened Compare
  import opened Pointer
  import opened DataPath
  import opened Patch
  import opened PatchGen
  import opened PatchRfc
  import opened PatchRoundTrip
  import opened RfcRoundTrip
  import opened Linked
  import opened LinkedPatch

  // ----- runs

  /** Every test of the list leaves a well linked document: no object that it compares gets another first
      member. */
  predicate TestsKeepHeads(t: Tree, patches: seq<Json>, cs: bool)
    decreases |patches|
  {
    patches != [] ==>
      var first := ApplyLinked(t, patches[0], cs);
      first.Ended? ==>
        && (DecodeOperation(patches[0], cs) == TEST ==> WellLinked(first.doc))
        && TestsKeepHeads(first.doc, patches[1..], cs)
  }

  /** A list of operations that is without error on the data is carried out with status 0 throughout, unless a
      stale link is followed; and none is, from a well linked document, if the tests among them leave the first
      members where they are. */
  lemma {:induction false} RunLinked(t: Tree, patches: seq<Json>, cs: bool)
    requires Keyed(Erase(t), cs) && Run(Meaning(Erase(t), cs), patches, cs).Some?
    ensures var e := ApplyAllLinked(t, patches, cs);
      && (e.Ended? ==> e.status == 0 && Keyed(Erase(e.doc), cs)
                       && Run(Meaning(Erase(t), cs), patches, cs) == Some(Meaning(Erase(e.doc), cs)))
      && (WellLinked(t) && TestsKeepHeads(t, patches, cs) ==> e.Ended? && WellLinked(e.doc))
    decreases |patches|
  {
    if patches == [] {
      NothingRun(t, cs);
    } else {
      RunUnfolds(t, patches, cs);
      hide *;
      StepLinked(t, patches[0], cs);
      var first := ApplyLinked(t, patches[0], cs);
      if first.Ended? { RunLinked(first.doc, patches[1..], cs); }
    }
  }

  lemma NothingRun(t: Tree, cs: bool)
    ensures ApplyAllLinked(t, [], cs) == Ended(0, t) && Run(Meaning(Erase(t), cs), [], cs) == Some(Meaning(Erase(t), cs))
  {
  }

  lemma RunUnfolds(t: Tree, patches: seq<Json>, cs: bool)
    requires patches != [] && Run(Meaning(Erase(t), cs), patches, cs).Some?
    ensures var first, v := ApplyLinked(t, patches[0], cs), Meaning(Erase(t), cs);
      && ApplyAllLinked(t, patches, cs)
         == (if first.Misled? || first.status != 0 then first else ApplyAllLinked(first.doc, patches[1..], cs))
      && RunPatch(v, patches[0], cs).Some?
      && Run(v, patches, cs) == Run(RunPatch(v, patches[0], cs).value, patches[1..], cs)
      && (TestsKeepHeads(t, patches, cs) && first.Ended? ==>
            && (DecodeOperation(patches[0], cs) == TEST ==> WellLinked(first.doc))
            && TestsKeepHeads(first.doc, patches[1..], cs))
  {
    hide ApplyLinked, Meaning, Erase, RunPatch, WellLinked, DecodeOperation;
  }

  /** One step of a run. */
  lemma StepLinked(t: Tree, patch: Json, cs: bool)
    requires Keyed(Erase(t), cs) && RunPatch(Meaning(Erase(t), cs), patch, cs).Some?
    ensures var first := ApplyLinked(t, patch, cs);
      && (first.Ended? ==> first.status == 0 && Keyed(Erase(first.doc), cs)
                           && RunPatch(Meaning(Erase(t), cs), patch, cs) == Some(Meaning(Erase(first.doc), cs)))
      && (WellLinked(t) ==> first.Ended? && (DecodeOperation(patch, cs) != TEST ==> WellLinked(first.doc)))
  {
    hide Erase, WellLinked, Keyed, Meaning, ApplyPatch, TakenResult, WellFormed, ComparesRight, ExecuteLinked, Execute,
      IndicesRight, ReadPatch;
    ExecuteErased(t, ReadPatch(patch, cs), cs);
    ApplyPatchIsTaken(Erase(t), patch, cs);
    ApplyIsExecute(Erase(t), patch, cs);
  }

  lemma ApplyIsExecute(doc: Json, patch: Json, cs: bool)
    ensures ApplyPatch(doc, patch, cs) == Execute(doc, ReadPatch(patch, cs), cs)
    ensures ReadPatch(patch, cs).opcode == DecodeOperation(patch, cs)
  {
  }

  /** Lists without tests never meet a stale link on a well linked document. */
  predicate NoTests(patches: seq<Json>, cs: bool) {
    forall i :: 0 <= i < |patches| ==> DecodeOperation(patches[i], cs) != TEST
  }

  lemma {:induction false} NoTestsKeepHeads(t: Tree, patches: seq<Json>, cs: bool)
    requires NoTests(patches, cs)
    ensures TestsKeepHeads(t, patches, cs)
    decreases |patches|
  {
    hide ApplyLinked, DecodeOperation, WellLinked;
    if patches != [] {
      assert forall i :: 0 <= i < |patches[1..]| ==> patches[1..][i] == patches[i + 1];
      var first := ApplyLinked(t, patches[0], cs);
      if first.Ended? { NoTestsKeepHeads(first.doc, patches[1..], cs); }
    }
  }

  lemma EditsAreNoTests(patches: seq<Json>, cs: bool)
    requires Edits(patches, false, cs)
    ensures NoTests(patches, cs)
  {
    forall i | 0 <= i < |patches| ensures DecodeOperation(patches[i], cs) != TEST {
      ReadOpcode(patches[i], cs);
      hide DecodeOperation, ReadPatch;
      assert IsEdit(patches[i], false, cs);
    }
  }

  lemma ReadOpcode(patch: Json, cs: bool)
    ensures ReadPatch(patch, cs).opcode == DecodeOperation(patch, cs)
  {
  }

  // ----- the round trip

  /** The generated patches, applied in order to any well linked document that means what `from` means (a copy
      of it, say), succeed at every step and leave a well linked document that means what `to` means. */
  lemma PatchesTakeFromToTo(t: Tree, from: Json, to: Json, cs: bool)
    requires Keyed(from, cs) && Keyed(to, cs) && Joinable(from, to, cs)
    requires WellLinked(t) && Keyed(Erase(t), cs) && Meaning(Erase(t), cs) == Meaning(from, cs)
    ensures var e := ApplyPatchesLinked(t, Array(CreatePatches("", from, to, cs)), cs);
            e.Ended? && e.status == 0 && WellLinked(e.doc) && Meaning(Erase(e.doc), cs) == Meaning(to, cs)
  {
    hide Erase, WellLinked, Keyed, Meaning, Joinable, CreatePatches, TestsKeepHeads, NoTests, Edits, Run, ApplyAllLinked;
    var patches := CreatePatches("", from, to, cs);
    AtTheRoot(Meaning(from, cs), Meaning(to, cs), cs);
    Generated(Meaning(Erase(t), cs), "", from, to, cs);
    GeneratedEdits("", from, to, false, cs);
    EditsAreNoTests(patches, cs);
    NoTestsKeepHeads(t, patches, cs);
    RunLinked(t, patches, cs);
  }

  // ----- what the generator leaves of its first argument

  /** `create_patches` sorts wherever two objects meet. */
  function Created(t: Tree, goal: Json, cs: bool): Tree
    decreases Depth(Erase(t)), 1
  {
    match (t, goal)
    case (LinkedArray(xs), Array(ys)) => LinkedArray(ItemsCreated(xs, ys, cs))
    case (LinkedObject(ms, stale), Object(ns)) =>
      ErasedSort(ms, cs);
      SortedDepth(EraseMembers(ms), cs);
      LinkedObject(MembersCreated(SortNamed(ms, cs), SortMembers(ns, cs), cs), StaleAfterSort(ms, stale, cs))
    case _ => t
  }

  function ItemsCreated(xs: seq<Tree>, ys: seq<Json>, cs: bool): seq<Tree>
    decreases ItemsDepth(EraseItems(xs)) + 1, 0, |xs|
  {
    if xs == [] || ys == [] then xs
    else
      ItemsParts(xs);
      [Created(xs[0], ys[0], cs)] + ItemsCreated(xs[1..], ys[1..], cs)
  }

  /** The walk along both sorted lists. */
  function MembersCreated(fs: seq<Named>, ts: seq<Member>, cs: bool): seq<Named>
    decreases MembersDepth(EraseMembers(fs)) + 1, 0, |fs| + |ts|
  {
    if fs == [] || ts == [] then fs
    else
      MembersParts(fs);
      var diff := CompareStrings(fs[0].key, ts[0].key, cs);
      if diff < 0 then [fs[0]] + MembersCreated(fs[1..], ts, cs)
      else if diff > 0 then MembersCreated(fs, ts[1..], cs)
      else [Named(fs[0].key, Created(fs[0].value, ts[0].value, cs))] + MembersCreated(fs[1..], ts[1..], cs)
  }

  /** Generating changes the order of members and nothing else in the data. */
  lemma {:induction false} CreatedMeans(t: Tree, goal: Json, cs: bool)
    requires Keyed(Erase(t), cs)
    ensures Keyed(Erase(Created(t, goal, cs)), cs) && Meaning(Erase(Created(t, goal, cs)), cs) == Meaning(Erase(t), cs)
    decreases Depth(Erase(t)), 1
  {
    match (t, goal)
    case (LinkedArray(xs), Array(ys)) =>
      assert forall i :: 0 <= i < |xs| ==> Erase(t).items[i] == Erase(xs[i]);
      ItemsCreatedMean(xs, ys, cs);
      hide Keyed, Meaning, Erase;
      ElementsMeanTheSame(xs, ItemsCreated(xs, ys, cs), cs);
    case (LinkedObject(ms, stale), Object(ns)) =>
      CreatedParts(ms, stale, ns, cs);
      ErasedSort(ms, cs);
      SortedDepth(EraseMembers(ms), cs);
      KeyedObject(Erase(t), cs);
      KeyedObject(Erase(Created(t, goal, cs)), cs);
      SortKeepsMeaning(EraseMembers(ms), cs, cs);
      hide Keyed, Meaning, MembersMeaning, Fold, SortMembers, SortNamed, Created, Erase;
      var fs, ts := SortNamed(ms, cs), SortMembers(ns, cs);
      MembersCreatedMean(fs, ts, cs);
      SameButForOrder(EraseMembers(MembersCreated(fs, ts, cs)), EraseMembers(fs), cs);
    case _ =>
  }

  lemma CreatedParts(ms: seq<Named>, stale: bool, ns: seq<Member>, cs: bool)
    ensures var t, c := LinkedObject(ms, stale), Created(LinkedObject(ms, stale), Object(ns), cs);
      && Erase(t) == Object(EraseMembers(ms))
      && Erase(c) == Object(EraseMembers(MembersCreated(SortNamed(ms, cs), SortMembers(ns, cs), cs)))
  {
  }

  lemma ElementsMeanTheSame(xs: seq<Tree>, zs: seq<Tree>, cs: bool)
    requires |zs| == |xs|
    requires forall i :: 0 <= i < |xs| ==> Keyed(Erase(zs[i]), cs) && Meaning(Erase(zs[i]), cs) == Meaning(Erase(xs[i]), cs)
    ensures Keyed(Erase(LinkedArray(zs)), cs)
    ensures Meaning(Erase(LinkedArray(zs)), cs) == Meaning(Erase(LinkedArray(xs)), cs)
  {
    ArraysAgree(EraseItems(zs), EraseItems(xs), cs);
    assert forall i :: 0 <= i < |xs| ==> EraseItems(zs)[i] == Erase(zs[i]) && EraseItems(xs)[i] == Erase(xs[i]);
  }

  lemma {:induction false} ItemsCreatedMean(xs: seq<Tree>, ys: seq<Json>, cs: bool)
    requires forall i :: 0 <= i < |xs| ==> Keyed(Erase(xs[i]), cs)
    ensures var zs := ItemsCreated(xs, ys, cs);
      && |zs| == |xs|
      && forall i :: 0 <= i < |xs| ==> Keyed(Erase(zs[i]), cs) && Meaning(Erase(zs[i]), cs) == Meaning(Erase(xs[i]), cs)
    decreases ItemsDepth(EraseItems(xs)) + 1, 0, |xs|
  {
    hide Keyed, Meaning, Created, Erase;
    if xs != [] && ys != [] {
      ItemsParts(xs);
      CreatedMeans(xs[0], ys[0], cs);
      assert forall i :: 0 <= i < |xs[1..]| ==> xs[1..][i] == xs[i + 1];
      ItemsCreatedMean(xs[1..], ys[1..], cs);
    }
  }

  ghost predicate ValuesKeyed(ms: seq<Member>, cs: bool) {
    forall i :: 0 <= i < |ms| ==> Keyed(ms[i].value, cs)
  }

  lemma {:induction false} MembersCreatedMean(fs: seq<Named>, ts: seq<Member>, cs: bool)
    requires ValuesKeyed(EraseMembers(fs), cs)
    ensures MembersAgree(EraseMembers(MembersCreated(fs, ts, cs)), EraseMembers(fs), cs)
    decreases MembersDepth(EraseMembers(fs)) + 1, 0, |fs| + |ts|
  {
    hide Keyed, Meaning, Created, Erase, CompareStrings;
    if fs != [] && ts != [] {
      MembersParts(fs);
      assert EraseMembers(fs)[0].value == Erase(fs[0].value);
      assert forall i :: 0 <= i < |fs[1..]| ==> EraseMembers(fs[1..])[i] == EraseMembers(fs)[i + 1];
      var diff := CompareStrings(fs[0].key, ts[0].key, cs);
      if diff < 0 {
        MembersCreatedMean(fs[1..], ts, cs);
        MembersAgreeFurther(fs[0], fs[0].value, MembersCreated(fs[1..], ts, cs), fs[1..], cs);
      } else if diff > 0 {
        MembersCreatedMean(fs, ts[1..], cs);
      } else {
        CreatedMeans(fs[0].value, ts[0].value, cs);
        MembersCreatedMean(fs[1..], ts[1..], cs);
        MembersAgreeFurther(fs[0], Created(fs[0].value, ts[0].value, cs), MembersCreated(fs[1..], ts[1..], cs), fs[1..], cs);
      }
      assert fs == [fs[0]] + fs[1..];
    }
  }

  lemma MembersAgreeFurther(f: Named, x: Tree, zs: seq<Named>, fs: seq<Named>, cs: bool)
    requires MembersAgree(EraseMembers(zs), EraseMembers(fs), cs)
    requires Keyed(Erase(x), cs) && Meaning(Erase(x), cs) == Meaning(Erase(f.value), cs)
    ensures MembersAgree(EraseMembers([Named(f.key, x)] + zs), EraseMembers([f] + fs), cs)
  {
    hide Keyed, Meaning, Erase;
    var a, b := EraseMembers([Named(f.key, x)] + zs), EraseMembers([f] + fs);
    assert a[0] == Member(f.key, Erase(x)) && b[0] == Member(f.key, Erase(f.value));
    assert forall i :: 1 <= i < |b| ==> a[i] == EraseMembers(zs)[i - 1] && b[i] == EraseMembers(fs)[i - 1];
  }

  /** The generator's own argument can be patched, too, if generating moved no first member of an object. */
  lemma PatchesTakeArgumentToTo(from: Json, to: Json, cs: bool)
    requires Keyed(from, cs) && Keyed(to, cs) && Joinable(from, to, cs)
    requires WellLinked(Created(Fresh(from), to, cs))
    ensures var e := ApplyPatchesLinked(Created(Fresh(from), to, cs), Array(CreatePatches("", from, to, cs)), cs);
            e.Ended? && e.status == 0 && Meaning(Erase(e.doc), cs) == Meaning(to, cs)
  {
    FreshIsWellLinked(from);
    hide Erase, WellLinked, Keyed, Meaning, Joinable, CreatePatches, Fresh, Created, ApplyPatchesLinked;
    CreatedMeans(Fresh(from), to, cs);
    PatchesTakeFromToTo(Created(Fresh(from), to, cs), from, to, cs);
  }

  // ----- where it goes wrong

  /** `sort_object` on `{"b": x, "a": y}`: "a" comes first and points back at "b". */
  lemma TwoSorted(x: Tree, y: Tree, cs: bool)
    ensures var ms := [Named("b", x), Named("a", y)];
      SortNamed(ms, cs) == [Named("a", y), Named("b", x)] && StaleAfterSort(ms, false, cs)
  {
    var ms := [Named("b", x), Named("a", y)];
    var ss := Slots(ms);
    var b, a := Slot(0, ms[0]), Slot(1, ms[1]);
    assert ss == [b, a];
    LettersInOrder(cs);
    assert CompareStrings(SlotKey(ss[0]), SlotKey(ss[0 + 1]), cs) == 1;
    assert !NeighboursSorted(ss, SlotKey, cs);
    assert ss[..1] == [b] && ss[1..] == [a] && SortList([b], SlotKey, cs) == [b] && SortList([a], SlotKey, cs) == [a];
    hide CompareStrings, NeighboursSorted;
    MergeUnfolds([b], [a], SlotKey);
    assert [a][1..] == [] && Merge([b], [], SlotKey) == [b] && [a] + [b] == [a, b];
    assert SortSlots(ms, cs) == [a, b];
    assert Mapped([a, b], NamedOf) == [a.named, b.named];
  }

  lemma LettersInOrder(cs: bool)
    ensures CompareStrings("b", "a", cs) == 1 && CompareStrings("b", "a", false) == 1
  {
    FoldIsIdentity("a", cs);
    FoldIsIdentity("b", cs);
    FoldIsIdentity("a", false);
    FoldIsIdentity("b", false);
    assert !Less("b", "a") && "b" != "a";
  }

  lemma RemoveUnfolds(t: Tree, patch: Json, path: string, cs: bool)
    requires var f := ReadPatch(patch, cs); f.opcode == REMOVE && f.path == Some(String(path)) && path != ""
    ensures ApplyLinked(t, patch, cs) == RemoveLinked(t, path, cs)
  {
    hide ReadPatch, RemoveLinked;
  }

  lemma TestUnfolded(t: Tree, patch: Json, value: Json, cs: bool)
    requires var f := ReadPatch(patch, cs); f.opcode == TEST && f.path == Some(String("")) && f.value == Some(value)
    ensures ApplyLinked(t, patch, cs) == TestLinked(t, "", Some(value), cs)
  {
    hide ReadPatch, TestLinked;
  }

  lemma MisledAtSecond(t: Tree, u: Tree, p: Json, q: Json, cs: bool)
    requires ApplyLinked(t, p, cs) == Ended(0, u) && ApplyLinked(u, q, cs) == Misled
    ensures ApplyPatchesLinked(t, Array([p, q]), cs) == Misled
  {
    hide ApplyLinked;
    assert [p, q][1..] == [q] && ApplyAllLinked(u, [q], cs) == Misled;
  }

  lemma MisledAtFirst(t: Tree, p: Json, cs: bool)
    requires ApplyLinked(t, p, cs) == Misled
    ensures ApplyPatchesLinked(t, Array([p]), cs) == Misled
  {
    hide ApplyLinked;
  }

  /** Removing "a" then follows the stale link. */
  lemma RemovingFirstIsMisled(x: Tree, y: Tree, cs: bool)
    ensures ApplyLinked(LinkedObject([Named("a", x), Named("b", y)], true), Compose("remove", "", Some("a"), None), cs)
         == Misled
  {
    var t := LinkedObject([Named("a", x), Named("b", y)], true);
    PathOfA();
    MisledDetachment(t, "/a", cs);
    hide *;
    ComposedReads("remove", "", Some("a"), None, cs);
    DetachFirstMember(t, x, y, cs);
    RemoveUnfolds(t, Compose("remove", "", Some("a"), None), "/a", cs);
  }

  lemma PathOfA()
    ensures "" + "/" + Escape("a") == "/a" && "/a" != ""
  {
    PlainIsLeftAlone("a");
  }

  lemma MisledDetachment(t: Tree, path: string, cs: bool)
    ensures DetachLinked(t, path, cs) == StaleLink ==> RemoveLinked(t, path, cs) == Misled
  {
    hide DetachLinked;
  }

  lemma DetachFirstMember(t: Tree, x: Tree, y: Tree, cs: bool)
    requires t == LinkedObject([Named("a", x), Named("b", y)], true)
    ensures DetachLinked(t, "/a", cs) == StaleLink
  {
    assert "/a"[..1] == "/" && LastSlash("/a") == 0 && "/a"[..0] == "" && "/a"[0 + 1..] == "a";
    PlainIsDecodedInPlace("a", 0);
    assert Resolve(Erase(t), "", cs) == Some([]) && NodeAt(t, []) == t && At(Erase(t), []) == Erase(t);
    assert Erase(t).members[0].key == "a" && Find(Erase(t).members, "a", false) == 0;
    assert ChildToDetach(Erase(t), "a") == Some(0);
  }

  /** A test may be in the way of a removal: it sorts the object, and the removal of the new first member is
      misled. */
  lemma TestThenRemove(cs: bool)
    ensures var doc := Object([Member("b", True), Member("a", False)]);
      var patches := [Compose("test", "", None, Some(Object([Member("a", False), Member("b", True)]))),
                      Compose("remove", "", Some("a"), None)];
      ApplyPatchesLinked(Fresh(doc), Array(patches), cs) == Misled
  {
    var doc, goal := Object([Member("b", True), Member("a", False)]), Object([Member("a", False), Member("b", True)]);
    var t, u := Fresh(doc), LinkedObject([Named("a", Leaf(False)), Named("b", Leaf(True))], true);
    assert t == LinkedObject([Named("b", Leaf(True)), Named("a", Leaf(False))], false);
    var p, q := Compose("test", "", None, Some(goal)), Compose("remove", "", Some("a"), None);
    hide *;
    ComposedReads("test", "", None, Some(goal), cs);
    TestUnfolded(t, p, goal, cs);
    TestedAtRoot(t, goal, cs);
    RemovingFirstIsMisled(Leaf(False), Leaf(True), cs);
    MisledAtSecond(t, u, p, q, cs);
  }

  lemma TestedAtRoot(t: Tree, goal: Json, cs: bool)
    requires t == LinkedObject([Named("b", Leaf(True)), Named("a", Leaf(False))], false)
    requires goal == Object([Member("a", False), Member("b", True)])
    ensures TestLinked(t, "", Some(goal), cs)
         == Ended(0, LinkedObject([Named("a", Leaf(False)), Named("b", Leaf(True))], true))
  {
    var sorted := [Named("a", Leaf(False)), Named("b", Leaf(True))];
    assert EraseMembers(sorted) == goal.members;
    hide *;
    TwoSorted(Leaf(True), Leaf(False), cs);
    ErasedSort(t.members, cs);
    GoalIsSorted(False, True, cs);
    ComparedPair(goal.members, cs);
    ScalarsCompared(sorted, goal.members, cs);
    SortedComparison(EraseMembers(t.members), goal.members, cs);
    TestUnfoldsAtRoot(t, goal, cs);
  }

  lemma TestUnfoldsAtRoot(t: Tree, goal: Json, cs: bool)
    requires t.LinkedObject? && goal.Object?
    ensures TestLinked(t, "", Some(goal), cs)
         == Ended(if CompareJson(Object(EraseMembers(t.members)), goal, cs) then 0 else 1,
                  LinkedObject(MembersCompared(SortNamed(t.members, cs), SortMembers(goal.members, cs), cs),
                               StaleAfterSort(t.members, t.stale, cs)))
  {
    hide CompareJson, MembersCompared, SortNamed, SortMembers, StaleAfterSort, EraseMembers;
    assert Resolve(Erase(t), "", cs) == Some([]) && NodeAt(t, []) == t;
  }

  lemma GoalIsSorted(x: Json, y: Json, cs: bool)
    ensures SortMembers([Member("a", x), Member("b", y)], cs) == [Member("a", x), Member("b", y)]
  {
    var ms := [Member("a", x), Member("b", y)];
    FoldIsIdentity("a", cs);
    FoldIsIdentity("b", cs);
    assert Less("a", "b");
    assert CompareStrings(KeyOf(ms[0]), KeyOf(ms[0 + 1]), cs) == -1;
    assert NeighboursSorted(ms, KeyOf, cs);
  }

  lemma ComparedPair(ms: seq<Member>, cs: bool)
    requires |ms| == 2 && ms[0].value == False && ms[1].value == True
    ensures EqualInOrder(ms, ms, cs)
  {
  }

  lemma ScalarsCompared(xs: seq<Named>, ys: seq<Member>, cs: bool)
    requires |xs| == |ys| == 2 && forall i :: 0 <= i < 2 ==> xs[i].value.Leaf? && xs[i].key == ys[i].key
    ensures MembersCompared(xs, ys, cs) == xs
  {
    OneScalarCompared(xs[1..], ys[1..], cs);
    OneScalarCompared(xs, ys, cs);
  }

  lemma OneScalarCompared(xs: seq<Named>, ys: seq<Member>, cs: bool)
    requires xs != [] && ys != [] && xs[0].value.Leaf? && MembersCompared(xs[1..], ys[1..], cs) == xs[1..]
    ensures MembersCompared(xs, ys, cs) == xs
  {
    hide CompareStrings, CompareJson;
    assert xs == [xs[0]] + xs[1..] && xs[0] == Named(xs[0].key, xs[0].value);
    assert Compared(xs[0].value, ys[0].value, cs) == xs[0].value;
  }

  /** Nor can the generator's own argument always be patched: the generator has sorted it. */
  lemma ArgumentIsSpoilt(cs: bool)
    ensures var from, to := Object([Member("b", Number(1)), Member("a", Number(2))]), Object([Member("b", Number(1))]);
      ApplyPatchesLinked(Created(Fresh(from), to, cs), Array(CreatePatches("", from, to, cs)), cs) == Misled
  {
    hide *;
    var from, to := Object([Member("b", Number(1)), Member("a", Number(2))]), Object([Member("b", Number(1))]);
    ArgumentSorted(from, to, cs);
    OneRemoval(from, to, cs);
    RemovingFirstIsMisled(Leaf(Number(2)), Leaf(Number(1)), cs);
    MisledAtFirst(Created(Fresh(from), to, cs), Compose("remove", "", Some("a"), None), cs);
  }

  lemma ArgumentSorted(from: Json, to: Json, cs: bool)
    requires from == Object([Member("b", Number(1)), Member("a", Number(2))]) && to == Object([Member("b", Number(1))])
    ensures Created(Fresh(from), to, cs)
         == LinkedObject([Named("a", Leaf(Number(2))), Named("b", Leaf(Number(1)))], true)
  {
    var t := Fresh(from);
    var sorted := [Named("a", Leaf(Number(2))), Named("b", Leaf(Number(1)))];
    assert t == LinkedObject([Named("b", Leaf(Number(1))), Named("a", Leaf(Number(2)))], false);
    assert SortMembers(to.members, cs) == to.members;
    hide *;
    TwoSorted(Leaf(Number(1)), Leaf(Number(2)), cs);
    AscendingLetters(cs);
    WalkPastFirst(sorted, to.members, cs);
    CreatedObject(t.members, t.stale, to.members, cs);
  }

  lemma CreatedObject(ms: seq<Named>, stale: bool, ns: seq<Member>, cs: bool)
    ensures Created(LinkedObject(ms, stale), Object(ns), cs)
         == LinkedObject(MembersCreated(SortNamed(ms, cs), SortMembers(ns, cs), cs), StaleAfterSort(ms, stale, cs))
  {
  }

  lemma AscendingLetters(cs: bool)
    ensures CompareStrings("a", "b", cs) == -1 && CompareStrings("b", "b", cs) == 0
  {
    FoldIsIdentity("a", cs);
    FoldIsIdentity("b", cs);
    assert Less("a", "b");
  }

  lemma WalkPastFirst(fs: seq<Named>, ts: seq<Member>, cs: bool)
    requires |fs| == 2 && |ts| == 1 && fs[1].value.Leaf?
    requires CompareStrings(fs[0].key, ts[0].key, cs) < 0 && CompareStrings(fs[1].key, ts[0].key, cs) == 0
    ensures MembersCreated(fs, ts, cs) == fs
  {
    hide CompareStrings;
    assert fs == [fs[0]] + fs[1..] && fs[1..] == [fs[1]] + fs[1..][1..] && fs[1..][1..] == [] && ts[1..] == [];
    assert fs[1] == Named(fs[1].key, fs[1].value) && Created(fs[1].value, ts[0].value, cs) == fs[1].value;
    assert MembersCreated(fs[1..], ts, cs) == [fs[1]] + MembersCreated([], [], cs);
  }

  lemma OneRemoval(from: Json, to: Json, cs: bool)
    requires from == Object([Member("b", Number(1)), Member("a", Number(2))]) && to == Object([Member("b", Number(1))])
    ensures CreatePatches("", from, to, cs) == [Compose("remove", "", Some("a"), None)]
  {
    var b, a := Member("b", Number(1)), Member("a", Number(2));
    TwoErasedSorted(b, a, cs);
    AscendingLetters(cs);
    assert SortMembers([b], cs) == [b];
    assert CreatePatches("", from, to, cs) == JoinPatches("", [a, b], [b], cs);
    hide SortMembers, CompareStrings, Compose, Escape;
    OneJoined(a, b, cs);
  }

  lemma TwoErasedSorted(b: Member, a: Member, cs: bool)
    requires b == Member("b", Number(1)) && a == Member("a", Number(2))
    ensures SortMembers([b, a], cs) == [a, b]
  {
    var n := [Named("b", Leaf(Number(1))), Named("a", Leaf(Number(2)))];
    TwoSorted(Leaf(Number(1)), Leaf(Number(2)), cs);
    ErasedSort(n, cs);
    hide SortNamed, SortMembers;
    assert EraseMembers(n) == [b, a] && EraseMembers([n[1], n[0]]) == [a, b];
  }

  lemma OneJoined(a: Member, b: Member, cs: bool)
    requires b == Member("b", Number(1)) && a.key == "a"
    requires CompareStrings("a", "b", cs) < 0 && CompareStrings("b", "b", cs) == 0
    ensures JoinPatches("", [a, b], [b], cs) == [Compose("remove", "", Some("a"), None)]
  {
    hide CompareStrings, Compose, Escape;
    var remove := [Compose("remove", "", Some("a"), None)];
    assert [a, b][1..] == [b] && [b][1..] == [];
    assert JoinPatches("", [b], [b], cs) == JoinHead("", [b], [b], cs) + JoinPatches("", [], [], cs) == [] + [];
    assert JoinPatches("", [a, b], [b], cs) == remove + JoinPatches("", [b], [b], cs);
    assert remove + [] == remove;
  }
}
