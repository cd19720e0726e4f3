/** Generating a merge patch and merging it, for all trees: exactly when the goal is reached. */
module MergeExact {
  import opened Text
  import opened Sequences
  import opened Json
  import opened Sorting
  import opened Compare
  import opened MergePatch
  import opened MergeWalk

  // ----- what a list of patch members does to one key

  /** Position of the first member whose key counts as `k`. */
  function Place(ms: seq<Member>, k: string, cs: bool): (i: nat)
    ensures i <= |ms| && (i < |ms| ==> Fold(ms[i].key, cs) == k)
    ensures forall j :: 0 <= j < i ==> Fold(ms[j].key, cs) != k
  {
    if ms == [] || Fold(ms[0].key, cs) == k then 0 else 1 + Place(ms[1..], k, cs)
  }

  function Lookup(ms: seq<Member>, k: string, cs: bool): Option<Json> {
    var i := Place(ms, k, cs);
    if i < |ms| then Some(ms[i].value) else None
  }

  lemma {:induction false} MeaningIsLookup(ms: seq<Member>, k: string, cs: bool)
    ensures k in MembersMeaning(ms, cs) <==> Lookup(ms, k, cs).Some?
    ensures Lookup(ms, k, cs).Some? ==> MembersMeaning(ms, cs)[k] == Meaning(Lookup(ms, k, cs).value, cs)
  {
    hide Meaning, Fold;
    if ms != [] && Fold(ms[0].key, cs) != k {
      MeaningIsLookup(ms[1..], k, cs);
    }
  }

  lemma PlaceIs(ms: seq<Member>, i: nat, cs: bool)
    requires DistinctKeys(ms, cs) && i < |ms|
    ensures Place(ms, Fold(ms[i].key, cs), cs) == i
  {
  }

  lemma PlaceIsFind(ms: seq<Member>, key: string, cs: bool)
    ensures Place(ms, Fold(key, cs), cs) == Find(ms, key, cs)
  {
  }

  function OneEffect(x: Option<Json>, patch: Json, cs: bool): Option<Json> {
    if patch.Null? then None else Some(MergePatch.MergePatch(x, patch, cs))
  }

  function Effect(ps: seq<Member>, k: string, x: Option<Json>, cs: bool): Option<Json>
    decreases |ps|
  {
    if ps == [] then x
    else Effect(ps[1..], k, if Fold(ps[0].key, cs) == k then OneEffect(x, ps[0].value, cs) else x, cs)
  }

  lemma EffectOfCons(p: Member, ps: seq<Member>, k: string, x: Option<Json>, cs: bool)
    ensures Effect([p] + ps, k, x, cs)
         == Effect(ps, k, if Fold(p.key, cs) == k then OneEffect(x, p.value, cs) else x, cs)
  {
    assert ([p] + ps)[1..] == ps;
  }

  lemma PlaceOfAppend(ms: seq<Member>, m: Member, k: string, cs: bool)
    ensures Lookup(ms + [m], k, cs)
         == if Lookup(ms, k, cs).Some? then Lookup(ms, k, cs) else if Fold(m.key, cs) == k then Some(m.value) else None
  {
    hide Fold;
    var all, i := ms + [m], Place(ms, k, cs);
    assert forall j :: 0 <= j < |ms| ==> all[j] == ms[j];
    if i == |ms| { assert all[|ms|] == m; }
    var l := Place(all, k, cs);
    assert i < |ms| ==> l == i;
  }

  lemma NotPlaced(ms: seq<Member>, k: string, cs: bool)
    ensures Lookup(ms, k, cs).None? <==> forall j :: 0 <= j < |ms| ==> Fold(ms[j].key, cs) != k
  {
    hide Fold;
  }

  lemma PlacedAt(ms: seq<Member>, i: nat, k: string, cs: bool)
    requires DistinctKeys(ms, cs) && i < |ms| && Fold(ms[i].key, cs) == k
    ensures Lookup(ms, k, cs) == Some(ms[i].value)
  {
    PlaceIs(ms, i, cs);
  }

  lemma RemovedKeys(ms: seq<Member>, i: nat, cs: bool)
    requires DistinctKeys(ms, cs) && i < |ms|
    ensures var rest := RemoveAt(ms, i);
      && |rest| == |ms| - 1 && (forall j :: 0 <= j < |rest| ==> rest[j] == ms[if j < i then j else j + 1])
      && DistinctKeys(rest, cs)
  {
    hide Fold;
    var rest := RemoveAt(ms, i);
    assert forall j :: 0 <= j < |rest| ==> rest[j] == ms[if j < i then j else j + 1];
  }

  lemma TwoPlaces(ms: seq<Member>, i: nat, j: nat, cs: bool)
    requires DistinctKeys(ms, cs) && i < |ms| && j < |ms| && Fold(ms[i].key, cs) == Fold(ms[j].key, cs)
    ensures i == j
  {
  }

  lemma RemovedAt(ms: seq<Member>, i: nat, k: string, cs: bool)
    requires DistinctKeys(ms, cs) && i < |ms|
    ensures DistinctKeys(RemoveAt(ms, i), cs)
    ensures Lookup(RemoveAt(ms, i), k, cs) == if Fold(ms[i].key, cs) == k then None else Lookup(ms, k, cs)
  {
    hide *;
    RemovedKeys(ms, i, cs);
    var rest := RemoveAt(ms, i);
    NotPlaced(ms, k, cs);
    NotPlaced(rest, k, cs);
    if l: nat :| l < |ms| && l != i && Fold(ms[l].key, cs) == k {
      var m := if l < i then l else l - 1;
      if Fold(ms[i].key, cs) == k { TwoPlaces(ms, i, l, cs); }
      assert rest[m] == ms[l];
      PlacedAt(rest, m, k, cs);
      PlacedAt(ms, l, k, cs);
    }
  }

  lemma DroppedLookup(ms: seq<Member>, key: string, k: string, cs: bool)
    requires DistinctKeys(ms, cs)
    ensures DistinctKeys(DropMember(ms, key, cs), cs)
    ensures Lookup(DropMember(ms, key, cs), k, cs) == if Fold(key, cs) == k then None else Lookup(ms, k, cs)
  {
    hide Fold, RemoveAt, Place;
    var i := Find(ms, key, cs);
    if i < |ms| {
      RemovedAt(ms, i, k, cs);
    } else {
      NotPlaced(ms, Fold(key, cs), cs);
    }
  }

  /** One patch member changes its own key only. */
  lemma OneLookup(ms: seq<Member>, p: Member, k: string, cs: bool)
    requires DistinctKeys(ms, cs)
    ensures DistinctKeys(MergeMember(ms, p, cs), cs)
    ensures Lookup(MergeMember(ms, p, cs), k, cs)
         == if Fold(p.key, cs) == k then OneEffect(Lookup(ms, k, cs), p.value, cs) else Lookup(ms, k, cs)
  {
    hide Fold, MergePatch.MergePatch;
    var rest := DropMember(ms, p.key, cs);
    DroppedLookup(ms, p.key, k, cs);
    DroppedLookup(ms, p.key, Fold(p.key, cs), cs);
    PlaceIsFind(ms, p.key, cs);
    if !p.value.Null? {
      var m := Member(p.key, MergePatch.MergePatch(TakeMember(ms, p.key, cs), p.value, cs));
      hide Place;
      PlaceOfAppend(rest, m, k, cs);
      DistinctAppend(rest, m, cs);
    }
  }

  lemma DistinctAppend(ms: seq<Member>, m: Member, cs: bool)
    requires DistinctKeys(ms, cs) && Lookup(ms, Fold(m.key, cs), cs).None?
    ensures DistinctKeys(ms + [m], cs)
  {
    hide Fold;
    var i := Place(ms, Fold(m.key, cs), cs);
    assert forall j :: 0 <= j < |ms| ==> (ms + [m])[j] == ms[j] && Fold(ms[j].key, cs) != Fold(m.key, cs);
  }

  /** Merging member by member, seen from one key. */
  lemma {:induction false} MergedLookup(ms: seq<Member>, ps: seq<Member>, k: string, cs: bool)
    requires DistinctKeys(ms, cs)
    ensures Lookup(MergeMembers(ms, ps, cs), k, cs) == Effect(ps, k, Lookup(ms, k, cs), cs)
    decreases |ps|
  {
    hide Lookup, MergeMember, OneEffect, DistinctKeys, Fold;
    if ps != [] {
      OneLookup(ms, ps[0], k, cs);
      MergedLookup(MergeMember(ms, ps[0], cs), ps[1..], k, cs);
    }
  }

  // ----- what the generated members do to one key

  function Keys(ms: seq<Member>): (ks: seq<string>)
    ensures |ks| == |ms|
  {
    seq(|ms|, i requires 0 <= i < |ms| => ms[i].key)
  }

  /** The effect of the members for a key that both lists have, and that the walk meets. */
  function PairEffect(x: Option<Json>, f: Json, t: Json, gen: bool, cs: bool): Option<Json> {
    if CompareJson(f, t, gen) then x
    else
      var nested := NestedPatch(f, t, gen);
      if nested.None? then x else OneEffect(x, nested.value, cs)
  }

  /** Which of two members the walk over both lists passes first. */
  function Meet(fs: seq<Member>, ts: seq<Member>, i: nat, j: nat): Passing
    requires i < |fs| && j < |ts|
  {
    Pass(Keys(fs[..i + 1]), Keys(ts[..j + 1]))
  }

  /** The effect of all generated members on a key. */
  function KeyEffect(fs: seq<Member>, ts: seq<Member>, k: string, x: Option<Json>, gen: bool, cs: bool): Option<Json> {
    var i, j := Place(fs, k, cs), Place(ts, k, cs);
    if i == |fs| then if j == |ts| then x else OneEffect(x, ts[j].value, cs)
    else if j == |ts| then None
    else
      match Meet(fs, ts, i, j)
      case Together => PairEffect(x, fs[i].value, ts[j].value, gen, cs)
      case LeftFirst => OneEffect(None, ts[j].value, cs)
      case RightFirst => None
  }

  lemma KeyEffectIs(fs: seq<Member>, ts: seq<Member>, k: string, x: Option<Json>, gen: bool, cs: bool)
    ensures var i, j := Place(fs, k, cs), Place(ts, k, cs);
      && (i == |fs| && j == |ts| ==> KeyEffect(fs, ts, k, x, gen, cs) == x)
      && (i == |fs| && j < |ts| ==> KeyEffect(fs, ts, k, x, gen, cs) == OneEffect(x, ts[j].value, cs))
      && (i < |fs| && j == |ts| ==> KeyEffect(fs, ts, k, x, gen, cs) == None)
      && (i < |fs| && j < |ts| ==>
            && (Meet(fs, ts, i, j) == Together ==>
                  KeyEffect(fs, ts, k, x, gen, cs) == PairEffect(x, fs[i].value, ts[j].value, gen, cs))
            && (Meet(fs, ts, i, j) == LeftFirst ==>
                  KeyEffect(fs, ts, k, x, gen, cs) == OneEffect(None, ts[j].value, cs))
            && (Meet(fs, ts, i, j) == RightFirst ==> KeyEffect(fs, ts, k, x, gen, cs) == None))
  {
    hide Place, Meet, PairEffect, OneEffect;
  }

  lemma PlaceInTail(ms: seq<Member>, k: string, cs: bool)
    requires ms != [] && DistinctKeys(ms, cs)
    ensures DistinctKeys(ms[1..], cs)
    ensures Fold(ms[0].key, cs) == k ==> Place(ms, k, cs) == 0 && Place(ms[1..], k, cs) == |ms[1..]|
    ensures Fold(ms[0].key, cs) != k ==> Place(ms, k, cs) == 1 + Place(ms[1..], k, cs)
  {
    hide Fold;
    assert forall j :: 0 <= j < |ms[1..]| ==> ms[1..][j] == ms[j + 1];
  }

  lemma HeadKeys(ms: seq<Member>, i: nat)
    requires i < |ms|
    ensures var p := Keys(ms[..i + 1]);
      |p| == i + 1 && p[0] == ms[0].key && (i > 0 ==> p[1..] == Keys(ms[1..][..i]))
  {
    if i > 0 { assert ms[..i + 1][1..] == ms[1..][..i]; }
  }

  lemma MeetUnfolds(fs: seq<Member>, ts: seq<Member>, i: nat, j: nat)
    requires i < |fs| && j < |ts|
    ensures Less(fs[0].key, ts[0].key) ==>
      Meet(fs, ts, i, j) == if i == 0 then LeftFirst else Meet(fs[1..], ts, i - 1, j)
    ensures Less(ts[0].key, fs[0].key) ==>
      Meet(fs, ts, i, j) == if j == 0 then RightFirst else Meet(fs, ts[1..], i, j - 1)
    ensures fs[0].key == ts[0].key ==>
      Meet(fs, ts, i, j) == if i == 0 then if j == 0 then Together else LeftFirst
                            else if j == 0 then RightFirst else Meet(fs[1..], ts[1..], i - 1, j - 1)
  {
    hide Less, Keys;
    HeadKeys(fs, i);
    HeadKeys(ts, j);
    if Less(ts[0].key, fs[0].key) { LessAsymmetric(ts[0].key, fs[0].key); }
    LessIrreflexive(fs[0].key);
  }

  lemma SignOf(a: string, b: string)
    ensures CompareStrings(a, b, true) < 0 <==> Less(a, b)
    ensures CompareStrings(a, b, true) > 0 <==> Less(b, a)
    ensures CompareStrings(a, b, true) == 0 <==> a == b
  {
    LessTotal(a, b);
    LessIrreflexive(a);
    if Less(a, b) { LessAsymmetric(a, b); }
    if Less(b, a) { LessAsymmetric(b, a); }
  }

  lemma {:induction false} WalkEffect(fs: seq<Member>, ts: seq<Member>, k: string, x: Option<Json>, gen: bool, cs: bool)
    requires DistinctKeys(fs, cs) && DistinctKeys(ts, cs)
    ensures Effect(DifferentMembers(fs, ts, gen), k, x, cs) == KeyEffect(fs, ts, k, x, gen, cs)
    decreases |fs| + |ts|
  {
    hide *;
    if fs == [] && ts == [] {
      NothingWalked(k, x, gen, cs);
    } else if ts == [] || (fs != [] && CompareStrings(fs[0].key, ts[0].key, true) < 0) {
      PlaceInTail(fs, k, cs);
      var x' := if Fold(fs[0].key, cs) == k then None else x;
      WalkEffect(fs[1..], ts, k, x', gen, cs);
      WalkFromFirst(fs, ts, k, x, gen, cs);
    } else if fs == [] || CompareStrings(fs[0].key, ts[0].key, true) > 0 {
      PlaceInTail(ts, k, cs);
      var x' := if Fold(ts[0].key, cs) == k then OneEffect(x, ts[0].value, cs) else x;
      WalkEffect(fs, ts[1..], k, x', gen, cs);
      WalkGoalFirst(fs, ts, k, x, gen, cs);
    } else {
      PlaceInTail(fs, k, cs);
      PlaceInTail(ts, k, cs);
      var x' := if Fold(fs[0].key, cs) == k then PairEffect(x, fs[0].value, ts[0].value, gen, cs) else x;
      WalkEffect(fs[1..], ts[1..], k, x', gen, cs);
      WalkTogether(fs, ts, k, x, gen, cs);
    }
  }

  lemma NothingWalked(k: string, x: Option<Json>, gen: bool, cs: bool)
    ensures Effect(DifferentMembers([], [], gen), k, x, cs) == x == KeyEffect([], [], k, x, gen, cs)
  {
  }

  lemma WalkedMembers(fs: seq<Member>, ts: seq<Member>, gen: bool)
    ensures fs != [] && (ts == [] || CompareStrings(fs[0].key, ts[0].key, true) < 0) ==>
      DifferentMembers(fs, ts, gen) == [Member(fs[0].key, Null)] + DifferentMembers(fs[1..], ts, gen)
    ensures ts != [] && (fs == [] || CompareStrings(fs[0].key, ts[0].key, true) > 0) ==>
      DifferentMembers(fs, ts, gen) == [ts[0]] + DifferentMembers(fs, ts[1..], gen)
  {
    hide CompareStrings, CompareJson, NestedPatch;
  }

  lemma TailMember(ms: seq<Member>, i: nat)
    requires 0 < i < |ms|
    ensures ms[1..][i - 1] == ms[i]
  {
  }

  lemma NullHasNoEffect(x: Option<Json>, cs: bool)
    ensures OneEffect(x, Null, cs) == None
  {
  }

  lemma WalkFromFirst(fs: seq<Member>, ts: seq<Member>, k: string, x: Option<Json>, gen: bool, cs: bool)
    requires DistinctKeys(fs, cs) && fs != [] && (ts == [] || CompareStrings(fs[0].key, ts[0].key, true) < 0)
    requires var x' := if Fold(fs[0].key, cs) == k then None else x;
      Effect(DifferentMembers(fs[1..], ts, gen), k, x', cs) == KeyEffect(fs[1..], ts, k, x', gen, cs)
    ensures Effect(DifferentMembers(fs, ts, gen), k, x, cs) == KeyEffect(fs, ts, k, x, gen, cs)
  {
    hide *;
    WalkedMembers(fs, ts, gen);
    EffectOfCons(Member(fs[0].key, Null), DifferentMembers(fs[1..], ts, gen), k, x, cs);
    NullHasNoEffect(x, cs);
    PlaceInTail(fs, k, cs);
    var x' := if Fold(fs[0].key, cs) == k then None else x;
    KeyEffectIs(fs, ts, k, x, gen, cs);
    KeyEffectIs(fs[1..], ts, k, x', gen, cs);
    var i, j := Place(fs, k, cs), Place(ts, k, cs);
    if 0 < i < |fs| { TailMember(fs, i); }
    if i < |fs| && j < |ts| {
      SignOf(fs[0].key, ts[0].key);
      MeetUnfolds(fs, ts, i, j);
    }
  }

  lemma WalkGoalFirst(fs: seq<Member>, ts: seq<Member>, k: string, x: Option<Json>, gen: bool, cs: bool)
    requires DistinctKeys(ts, cs) && ts != [] && (fs == [] || CompareStrings(fs[0].key, ts[0].key, true) > 0)
    requires var x' := if Fold(ts[0].key, cs) == k then OneEffect(x, ts[0].value, cs) else x;
      Effect(DifferentMembers(fs, ts[1..], gen), k, x', cs) == KeyEffect(fs, ts[1..], k, x', gen, cs)
    ensures Effect(DifferentMembers(fs, ts, gen), k, x, cs) == KeyEffect(fs, ts, k, x, gen, cs)
  {
    hide *;
    WalkedMembers(fs, ts, gen);
    EffectOfCons(ts[0], DifferentMembers(fs, ts[1..], gen), k, x, cs);
    PlaceInTail(ts, k, cs);
    var x' := if Fold(ts[0].key, cs) == k then OneEffect(x, ts[0].value, cs) else x;
    KeyEffectIs(fs, ts, k, x, gen, cs);
    KeyEffectIs(fs, ts[1..], k, x', gen, cs);
    var i, j := Place(fs, k, cs), Place(ts, k, cs);
    if 0 < j < |ts| { TailMember(ts, j); }
    if i < |fs| && j < |ts| {
      SignOf(fs[0].key, ts[0].key);
      MeetUnfolds(fs, ts, i, j);
    }
  }

  lemma WalkTogether(fs: seq<Member>, ts: seq<Member>, k: string, x: Option<Json>, gen: bool, cs: bool)
    requires DistinctKeys(fs, cs) && DistinctKeys(ts, cs)
    requires fs != [] && ts != [] && CompareStrings(fs[0].key, ts[0].key, true) == 0
    requires var x' := if Fold(fs[0].key, cs) == k then PairEffect(x, fs[0].value, ts[0].value, gen, cs) else x;
      Effect(DifferentMembers(fs[1..], ts[1..], gen), k, x', cs) == KeyEffect(fs[1..], ts[1..], k, x', gen, cs)
    ensures Effect(DifferentMembers(fs, ts, gen), k, x, cs) == KeyEffect(fs, ts, k, x, gen, cs)
  {
    hide *;
    MembersTogether(fs, ts, k, x, gen, cs);
    PlaceInTail(fs, k, cs);
    PlaceInTail(ts, k, cs);
    SignOf(fs[0].key, ts[0].key);
    var x' := if Fold(fs[0].key, cs) == k then PairEffect(x, fs[0].value, ts[0].value, gen, cs) else x;
    KeyEffectIs(fs, ts, k, x, gen, cs);
    KeyEffectIs(fs[1..], ts[1..], k, x', gen, cs);
    var i, j := Place(fs, k, cs), Place(ts, k, cs);
    if 0 < i < |fs| { TailMember(fs, i); }
    if 0 < j < |ts| { TailMember(ts, j); }
    if i < |fs| && j < |ts| { MeetUnfolds(fs, ts, i, j); }
  }

  lemma WalkedPair(fs: seq<Member>, ts: seq<Member>, gen: bool)
    requires fs != [] && ts != [] && CompareStrings(fs[0].key, ts[0].key, true) == 0
    ensures var rest, nested := DifferentMembers(fs[1..], ts[1..], gen), NestedPatch(fs[0].value, ts[0].value, gen);
      DifferentMembers(fs, ts, gen)
      == if CompareJson(fs[0].value, ts[0].value, gen) || nested.None? then rest
         else [Member(ts[0].key, nested.value)] + rest
  {
    hide CompareStrings, CompareJson, NestedPatch;
    var rest := DifferentMembers(fs[1..], ts[1..], gen);
    assert [] + rest == rest;
  }

  lemma MembersTogether(fs: seq<Member>, ts: seq<Member>, k: string, x: Option<Json>, gen: bool, cs: bool)
    requires fs != [] && ts != [] && CompareStrings(fs[0].key, ts[0].key, true) == 0
    ensures var x' := if Fold(fs[0].key, cs) == k then PairEffect(x, fs[0].value, ts[0].value, gen, cs) else x;
      Effect(DifferentMembers(fs, ts, gen), k, x, cs) == Effect(DifferentMembers(fs[1..], ts[1..], gen), k, x', cs)
  {
    SignOf(fs[0].key, ts[0].key);
    WalkedPair(fs, ts, gen);
    var rest, nested := DifferentMembers(fs[1..], ts[1..], gen), NestedPatch(fs[0].value, ts[0].value, gen);
    if nested.Some? {
      EffectOfCons(Member(ts[0].key, nested.value), rest, k, x, cs);
    }
    hide CompareJson, NestedPatch, Fold, OneEffect, DifferentMembers, Effect, Less, CompareStrings;
  }

  // ----- when the goal is reached

  /** A value that a merge patch can put where there is none. */
  ghost predicate Creatable(t: Json, cs: bool) {
    !t.Null? && NullFree(Meaning(t, cs))
  }

  /** What two documents must be like for the generated patch, merged into the first, to give the second.
      Objects: every key of the goal is new and its value can be created; or the walk meets it in both lists and
      the values are as they must be; or the walk passes the old member first, so that the new one is
      created after the old one has been removed. */
  ghost predicate Reaches(from: Json, goal: Json, gen: bool, cs: bool)
    decreases Depth(from), 2
  {
    if !from.Object? || !goal.Object? then NullFree(Meaning(goal, cs))
    else KeysReached(SortMembers(from.members, gen), SortMembers(goal.members, gen), gen, cs)
  }

  ghost predicate KeysReached(fs: seq<Member>, ts: seq<Member>, gen: bool, cs: bool)
    decreases MembersDepth(fs) + 1, 1
  {
    forall j :: 0 <= j < |ts| ==> KeyReached(fs, ts, j, gen, cs)
  }

  /** The two keys are met at once exactly when the same stairs lead down to them. */
  ghost predicate KeyReached(fs: seq<Member>, ts: seq<Member>, j: nat, gen: bool, cs: bool)
    requires j < |ts|
    decreases MembersDepth(fs) + 1, 0
  {
    var i := Place(fs, Fold(ts[j].key, cs), cs);
    if i == |fs| then Creatable(ts[j].value, cs)
    else
      match ByStairs(Stairs(Keys(fs[..i + 1])), Stairs(Keys(ts[..j + 1])))
      case Together => PairReached(fs[i].value, ts[j].value, gen, cs)
      case LeftFirst => Creatable(ts[j].value, cs)
      case RightFirst => false
  }

  /** The values of a key that is met: taken for equal they must be equal, and otherwise the nested patch, for
      which they have been sorted, must reach the second from the first. */
  ghost predicate PairReached(f: Json, t: Json, gen: bool, cs: bool)
    decreases Depth(f), 3
  {
    if CompareJson(f, t, gen) then Meaning(f, cs) == Meaning(t, cs)
    else
      CompareKeepsDepth(f, t, gen);
      !t.Null? && Reaches(AfterCompare(f, t, gen), AfterCompare(t, f, gen), false, cs)
  }

  /** Merging a generated patch; there may be none. */
  function Merged(doc: Json, patch: Option<Json>, cs: bool): Json {
    if patch.None? then doc else MergePatch.MergePatch(Some(doc), patch.value, cs)
  }

  ghost function MeaningOf(x: Option<Json>, cs: bool): Option<Value> {
    if x.None? then None else Some(Meaning(x.value, cs))
  }

  lemma LookupMeaning(ms: seq<Member>, k: string, cs: bool)
    ensures k in MembersMeaning(ms, cs) <==> MeaningOf(Lookup(ms, k, cs), cs).Some?
    ensures k in MembersMeaning(ms, cs) ==> MeaningOf(Lookup(ms, k, cs), cs) == Some(MembersMeaning(ms, cs)[k])
  {
    hide Meaning, MembersMeaning, Lookup;
    MeaningIsLookup(ms, k, cs);
  }

  lemma SameLookups(ms: seq<Member>, ns: seq<Member>, cs: bool)
    ensures MembersMeaning(ms, cs) == MembersMeaning(ns, cs)
        <==> forall k :: MeaningOf(Lookup(ms, k, cs), cs) == MeaningOf(Lookup(ns, k, cs), cs)
  {
    hide MembersMeaning, Lookup, MeaningOf;
    var m, n := MembersMeaning(ms, cs), MembersMeaning(ns, cs);
    forall k
      ensures k in m <==> MeaningOf(Lookup(ms, k, cs), cs).Some?
      ensures k in n <==> MeaningOf(Lookup(ns, k, cs), cs).Some?
      ensures k in m ==> MeaningOf(Lookup(ms, k, cs), cs) == Some(m[k])
      ensures k in n ==> MeaningOf(Lookup(ns, k, cs), cs) == Some(n[k])
    {
      LookupMeaning(ms, k, cs);
      LookupMeaning(ns, k, cs);
    }
    if forall k :: MeaningOf(Lookup(ms, k, cs), cs) == MeaningOf(Lookup(ns, k, cs), cs) {
      forall k ensures k in m <==> k in n
        ensures k in m && k in n ==> m[k] == n[k]
      {
        assert MeaningOf(Lookup(ms, k, cs), cs) == MeaningOf(Lookup(ns, k, cs), cs);
      }
    }
  }

  lemma CreatedMeans(t: Json, cs: bool)
    requires Keyed(t, cs)
    ensures MeaningOf(OneEffect(None, t, cs), cs) == Some(Meaning(t, cs)) <==> Creatable(t, cs)
  {
    if !t.Null? {
      MergePatchIsRfc(None, t, cs);
      MergeIntoNothing(None, Meaning(t, cs));
    }
  }

  lemma KeysDistinct(ms: seq<Member>, i: nat, cs: bool)
    requires DistinctKeys(ms, cs) && i < |ms|
    ensures Keys(ms[..i + 1]) != [] && NoDuplicates(Keys(ms[..i + 1]))
  {
    var p := Keys(ms[..i + 1]);
    forall a, b | 0 <= a < b < |p| ensures p[a] != p[b] {
      assert p[a] == ms[a].key && p[b] == ms[b].key;
    }
  }

  lemma MeetIsByStairs(fs: seq<Member>, ts: seq<Member>, i: nat, j: nat, cs: bool)
    requires DistinctKeys(fs, cs) && DistinctKeys(ts, cs) && i < |fs| && j < |ts|
    ensures Meet(fs, ts, i, j) == ByStairs(Stairs(Keys(fs[..i + 1])), Stairs(Keys(ts[..j + 1])))
  {
    hide DistinctKeys, Keys, Stairs, ByStairs, Pass;
    KeysDistinct(fs, i, cs);
    KeysDistinct(ts, j, cs);
    PassIsByStairs(Keys(fs[..i + 1]), Keys(ts[..j + 1]));
  }

  lemma KeyReachedIs(fs: seq<Member>, ts: seq<Member>, j: nat, gen: bool, cs: bool)
    requires DistinctKeys(fs, cs) && DistinctKeys(ts, cs) && j < |ts|
    ensures var i := Place(fs, Fold(ts[j].key, cs), cs);
      && (i == |fs| ==> (KeyReached(fs, ts, j, gen, cs) <==> Creatable(ts[j].value, cs)))
      && (i < |fs| ==>
           && (Meet(fs, ts, i, j) == Together ==>
                 (KeyReached(fs, ts, j, gen, cs) <==> PairReached(fs[i].value, ts[j].value, gen, cs)))
           && (Meet(fs, ts, i, j) == LeftFirst ==> (KeyReached(fs, ts, j, gen, cs) <==> Creatable(ts[j].value, cs)))
           && (Meet(fs, ts, i, j) == RightFirst ==> !KeyReached(fs, ts, j, gen, cs)))
  {
    hide DistinctKeys, Keys, Stairs, ByStairs, Meet, Creatable, PairReached, Place, Fold;
    var i := Place(fs, Fold(ts[j].key, cs), cs);
    if i < |fs| { MeetIsByStairs(fs, ts, i, j, cs); }
  }

  /** The generated patch, merged into any document that means the first one, gives the second one if and only if
      the two are as described. */
  lemma {:induction false} GenerateReaches(doc: Json, from: Json, goal: Json, gen: bool, cs: bool)
    requires Keyed(doc, cs) && Keyed(from, cs) && Keyed(goal, cs) && Meaning(doc, cs) == Meaning(from, cs)
    ensures Meaning(Merged(doc, GenerateMergePatch(Some(from), Some(goal), gen), cs), cs) == Meaning(goal, cs)
        <==> Reaches(from, goal, gen, cs)
    decreases Depth(from), 3
  {
    if from.Object? && goal.Object? {
      ObjectsReached(doc, from, goal, gen, cs);
    } else {
      WholeReached(doc, from, goal, gen, cs);
    }
  }

  lemma WholeReached(doc: Json, from: Json, goal: Json, gen: bool, cs: bool)
    requires Keyed(doc, cs) && Keyed(from, cs) && Keyed(goal, cs) && Meaning(doc, cs) == Meaning(from, cs)
    requires !from.Object? || !goal.Object?
    ensures Meaning(Merged(doc, GenerateMergePatch(Some(from), Some(goal), gen), cs), cs) == Meaning(goal, cs)
        <==> Reaches(from, goal, gen, cs)
  {
    MergePatchIsRfc(Some(doc), goal, cs);
    if goal.Object? { MergeIntoNothing(Some(Meaning(doc, cs)), Meaning(goal, cs)); }
  }

  lemma {:induction false} ObjectsReached(doc: Json, from: Json, goal: Json, gen: bool, cs: bool)
    requires Keyed(doc, cs) && Keyed(from, cs) && Keyed(goal, cs) && Meaning(doc, cs) == Meaning(from, cs)
    requires from.Object? && goal.Object?
    ensures Meaning(Merged(doc, GenerateMergePatch(Some(from), Some(goal), gen), cs), cs) == Meaning(goal, cs)
        <==> Reaches(from, goal, gen, cs)
    decreases Depth(from), 2
  {
    hide *;
    MeaningIsObject(doc, from, cs);
    KeyedObject(doc, cs);
    KeyedObject(from, cs);
    KeyedObject(goal, cs);
    var fs, ts := SortMembers(from.members, gen), SortMembers(goal.members, gen);
    SortKeepsMeaning(from.members, gen, cs);
    SortKeepsMeaning(goal.members, gen, cs);
    DepthOfObject(from);
    SortedDepth(from.members, gen);
    MembersReached(doc.members, fs, ts, gen, cs);
    GeneratedObject(from, goal, gen);
    MergedObject(doc, DifferentMembers(fs, ts, gen), cs);
    ReachesObject(from, goal, gen, cs);
  }

  lemma DepthOfObject(j: Json)
    requires j.Object?
    ensures Depth(j) == 1 + MembersDepth(j.members)
  {
  }

  lemma MeaningIsObject(a: Json, b: Json, cs: bool)
    requires Meaning(a, cs) == Meaning(b, cs) && b.Object?
    ensures a.Object? && MembersMeaning(a.members, cs) == MembersMeaning(b.members, cs)
  {
  }

  lemma MergedObject(doc: Json, ps: seq<Member>, cs: bool)
    requires doc.Object?
    ensures Meaning(Merged(doc, if ps == [] then None else Some(Object(ps)), cs), cs)
         == VObject(MembersMeaning(MergeMembers(doc.members, ps, cs), cs))
  {
    hide MergeMember;
  }

  lemma ReachesObject(from: Json, goal: Json, gen: bool, cs: bool)
    requires from.Object? && goal.Object?
    ensures Reaches(from, goal, gen, cs)
        <==> KeysReached(SortMembers(from.members, gen), SortMembers(goal.members, gen), gen, cs)
  {
    hide KeysReached, SortMembers;
  }

  lemma {:induction false} MembersReached(ms: seq<Member>, fs: seq<Member>, ts: seq<Member>, gen: bool, cs: bool)
    requires KeyedMembers(ms, cs) && KeyedMembers(fs, cs) && KeyedMembers(ts, cs)
    requires MembersMeaning(ms, cs) == MembersMeaning(fs, cs)
    ensures MembersMeaning(MergeMembers(ms, DifferentMembers(fs, ts, gen), cs), cs) == MembersMeaning(ts, cs)
        <==> KeysReached(fs, ts, gen, cs)
    decreases MembersDepth(fs) + 1, 1
  {
    hide *;
    var r := MergeMembers(ms, DifferentMembers(fs, ts, gen), cs);
    DistinctMembers(ts, cs);
    SameLookups(r, ts, cs);
    forall k
      ensures MeaningOf(Lookup(r, k, cs), cs) == MeaningOf(Lookup(ts, k, cs), cs)
          <==> (Place(ts, k, cs) < |ts| ==> KeyReached(fs, ts, Place(ts, k, cs), gen, cs))
    {
      OneKeyReached(ms, fs, ts, k, gen, cs);
    }
    if MembersMeaning(r, cs) == MembersMeaning(ts, cs) {
      forall j | 0 <= j < |ts| ensures KeyReached(fs, ts, j, gen, cs) {
        PlaceIs(ts, j, cs);
        var k := Fold(ts[j].key, cs);
        assert MeaningOf(Lookup(r, k, cs), cs) == MeaningOf(Lookup(ts, k, cs), cs);
      }
      AllReached(fs, ts, gen, cs);
    }
    if KeysReached(fs, ts, gen, cs) {
      forall k ensures MeaningOf(Lookup(r, k, cs), cs) == MeaningOf(Lookup(ts, k, cs), cs) {
        if Place(ts, k, cs) < |ts| { OneReached(fs, ts, Place(ts, k, cs), gen, cs); }
      }
    }
  }

  lemma OneReached(fs: seq<Member>, ts: seq<Member>, j: nat, gen: bool, cs: bool)
    requires KeysReached(fs, ts, gen, cs) && j < |ts|
    ensures KeyReached(fs, ts, j, gen, cs)
  {
  }

  lemma AllReached(fs: seq<Member>, ts: seq<Member>, gen: bool, cs: bool)
    requires forall j :: 0 <= j < |ts| ==> KeyReached(fs, ts, j, gen, cs)
    ensures KeysReached(fs, ts, gen, cs)
  {
  }

  lemma DistinctMembers(ms: seq<Member>, cs: bool)
    requires KeyedMembers(ms, cs)
    ensures DistinctKeys(ms, cs)
    ensures forall i :: 0 <= i < |ms| ==> Keyed(ms[i].value, cs)
  {
  }

  lemma LookupIs(ms: seq<Member>, k: string, cs: bool)
    ensures var i := Place(ms, k, cs);
      && (i < |ms| ==> Lookup(ms, k, cs) == Some(ms[i].value)
                       && MeaningOf(Lookup(ms, k, cs), cs) == Some(Meaning(ms[i].value, cs)))
      && (i == |ms| ==> Lookup(ms, k, cs) == None && MeaningOf(Lookup(ms, k, cs), cs) == None)
      && (KeyedMembers(ms, cs) && i < |ms| ==> Keyed(ms[i].value, cs))
  {
  }

  lemma {:induction false} OneKeyReached(ms: seq<Member>, fs: seq<Member>, ts: seq<Member>, k: string, gen: bool, cs: bool)
    requires KeyedMembers(ms, cs) && KeyedMembers(fs, cs) && KeyedMembers(ts, cs)
    requires MembersMeaning(ms, cs) == MembersMeaning(fs, cs)
    ensures var r := MergeMembers(ms, DifferentMembers(fs, ts, gen), cs);
      MeaningOf(Lookup(r, k, cs), cs) == MeaningOf(Lookup(ts, k, cs), cs)
      <==> (Place(ts, k, cs) < |ts| ==> KeyReached(fs, ts, Place(ts, k, cs), gen, cs))
    decreases MembersDepth(fs) + 1, 0
  {
    hide *;
    DistinctMembers(ms, cs);
    DistinctMembers(fs, cs);
    DistinctMembers(ts, cs);
    var x, i, j := Lookup(ms, k, cs), Place(fs, k, cs), Place(ts, k, cs);
    MergedLookup(ms, DifferentMembers(fs, ts, gen), k, cs);
    WalkEffect(fs, ts, k, x, gen, cs);
    KeyEffectIs(fs, ts, k, x, gen, cs);
    SameLookups(ms, fs, cs);
    assert MeaningOf(Lookup(ms, k, cs), cs) == MeaningOf(Lookup(fs, k, cs), cs);
    LookupIs(ms, k, cs);
    LookupIs(fs, k, cs);
    LookupIs(ts, k, cs);
    MeaningOfNone(cs);
    if j < |ts| {
      KeyReachedIs(fs, ts, j, gen, cs);
      CreatedMeans(ts[j].value, cs);
      if i < |fs| && Meet(fs, ts, i, j) == Together {
        MeaningOfSome(x, cs);
        PairReaches(x.value, fs[i].value, ts[j].value, gen, cs);
      }
    }
  }

  lemma MeaningOfNone(cs: bool)
    ensures MeaningOf(None, cs) == None
  {
  }

  lemma MeaningOfSome(x: Option<Json>, cs: bool)
    ensures x.Some? <==> MeaningOf(x, cs).Some?
    ensures x.Some? ==> MeaningOf(x, cs) == Some(Meaning(x.value, cs))
  {
  }

  lemma {:induction false} PairReaches(v: Json, f: Json, t: Json, gen: bool, cs: bool)
    requires Keyed(v, cs) && Keyed(f, cs) && Keyed(t, cs) && Meaning(v, cs) == Meaning(f, cs)
    ensures MeaningOf(PairEffect(Some(v), f, t, gen, cs), cs) == Some(Meaning(t, cs)) <==> PairReached(f, t, gen, cs)
    decreases Depth(f), 4
  {
    hide *;
    var a, b := AfterCompare(f, t, gen), AfterCompare(t, f, gen);
    CompareKeepsDepth(f, t, gen);
    CompareKeepsMeaning(f, t, gen, cs);
    CompareKeepsMeaning(t, f, gen, cs);
    GenerateReaches(v, a, b, false, cs);
    PairEffectIs(v, f, t, gen, cs);
    PairReachedIs(f, t, gen, cs);
    MeaningOfSome(Some(v), cs);
    MeaningOfSome(PairEffect(Some(v), f, t, gen, cs), cs);
  }

  lemma PairReachedIs(f: Json, t: Json, gen: bool, cs: bool)
    ensures CompareJson(f, t, gen) ==> (PairReached(f, t, gen, cs) <==> Meaning(f, cs) == Meaning(t, cs))
    ensures !CompareJson(f, t, gen) ==>
      (PairReached(f, t, gen, cs) <==> !t.Null? && Reaches(AfterCompare(f, t, gen), AfterCompare(t, f, gen), false, cs))
  {
    hide CompareJson, Reaches, AfterCompare;
  }

  lemma PairEffectIs(v: Json, f: Json, t: Json, gen: bool, cs: bool)
    ensures CompareJson(f, t, gen) ==> PairEffect(Some(v), f, t, gen, cs) == Some(v)
    ensures !CompareJson(f, t, gen) ==>
      PairEffect(Some(v), f, t, gen, cs)
      == if t.Null? then None
         else Some(Merged(v, GenerateMergePatch(Some(AfterCompare(f, t, gen)), Some(AfterCompare(t, f, gen)), false), cs))
  {
    NestedKind(f, t, gen);
    hide CompareJson, AfterCompare, MergePatch.MergePatch, GenerateMergePatch;
  }

  lemma NestedKind(f: Json, t: Json, gen: bool)
    ensures NestedPatch(f, t, gen).Some? ==> (NestedPatch(f, t, gen).value.Null? <==> t.Null?)
    ensures NestedPatch(f, t, gen).None? ==> !t.Null?
  {
    hide *;
    var a, b := AfterCompare(f, t, gen), AfterCompare(t, f, gen);
    NestedIs(f, t, gen);
    SameKindAfterCompare(t, f, gen);
    if a.Object? && b.Object? { GeneratedObject(a, b, false); } else { WholeIsGoal(a, b, false); }
  }

  lemma NestedIs(f: Json, t: Json, gen: bool)
    ensures NestedPatch(f, t, gen)
         == GenerateMergePatch(Some(AfterCompare(f, t, gen)), Some(AfterCompare(t, f, gen)), false)
  {
    hide AfterCompare, GenerateMergePatch;
  }

  lemma SameKindAfterCompare(a: Json, b: Json, gen: bool)
    ensures AfterCompare(a, b, gen).Null? <==> a.Null?
  {
  }

  lemma WholeIsGoal(from: Json, goal: Json, gen: bool)
    requires !from.Object? || !goal.Object?
    ensures GenerateMergePatch(Some(from), Some(goal), gen) == Some(goal)
  {
  }

  // ----- where the orders of the keys agree

  lemma NothingToKeep(v: Value)
    ensures NullsKept(v, v)
  {
  }

  /** On trees in which the byte order of the keys that meet is also their order without case, the condition is
      the one on nulls alone. */
  lemma AlikeReaches(from: Json, goal: Json, gen: bool, cs: bool)
    requires Keyed(from, cs) && Keyed(goal, cs) && AlikeTrees(from, goal)
    ensures Reaches(from, goal, gen, cs) <==> NullsKept(Meaning(from, cs), Meaning(goal, cs))
  {
    hide Keyed, Meaning, AlikeTrees, Reaches, NullsKept, GenerateMergePatch, MergePatch.MergePatch;
    GenerateReaches(from, from, goal, gen, cs);
    MergePatchTakesFromToGoal(from, goal, gen, cs);
    if GenerateMergePatch(Some(from), Some(goal), gen).None? { NothingToKeep(Meaning(from, cs)); }
  }

  // ----- an input that fails

  /** The default flag sorts "a" before "B", and the walk compares bytes: the key "B" is passed in the goal first,
      so its removal comes last.  Merging takes out a member that both documents have. */
  lemma CommonKeyIsRemoved()
    ensures var from, goal := Object([Member("a", False), Member("B", True)]), Object([Member("B", True)]);
      && GenerateMergePatch(Some(from), Some(goal), false)
         == Some(Object([Member("B", True), Member("a", Null), Member("B", Null)]))
      && MergePatch.MergePatch(Some(from), GenerateMergePatch(Some(from), Some(goal), false).value, false) == Object([])
  {
    hide *;
    var x, y := Member("a", False), Member("B", True);
    var from, goal := Object([x, y]), Object([y]);
    MixedCaseIsSorted(x, y);
    WalkOfThree(x, y);
    GeneratedObject(from, goal, false);
    MergeOfThree(x, y);
    MergedObjectIs([x, y], [y, Member("a", Null), Member("B", Null)]);
  }

  lemma MergedObjectIs(ms: seq<Member>, ps: seq<Member>)
    ensures MergePatch.MergePatch(Some(Object(ms)), Object(ps), false) == Object(MergeMembers(ms, ps, false))
  {
    hide MergeMember;
  }

  lemma MixedCaseIsSorted(x: Member, y: Member)
    requires x.key == "a" && y.key == "B"
    ensures SortMembers([x, y], false) == [x, y] && SortMembers([y], false) == [y]
  {
    UpperCaseOrder();
    hide CompareStrings;
    assert NeighboursSorted([x, y], KeyOf, false);
  }

  lemma WalkOfThree(x: Member, y: Member)
    requires x.key == "a" && y.key == "B"
    ensures DifferentMembers([x, y], [y], false) == [y, Member("a", Null), Member("B", Null)]
  {
    hide *;
    UpperCaseOrder();
    assert [x, y][0] == x && [x, y][1..] == [y] && [y][0] == y && [y][1..] == [];
    WalkedMembers([x, y], [y], false);
    WalkedMembers([x, y], [], false);
    WalkedMembers([y], [], false);
    NothingLeft(false);
  }

  lemma NothingLeft(gen: bool)
    ensures DifferentMembers([], [], gen) == []
  {
  }

  lemma MergeUnfolds(ms: seq<Member>, p: Member, ps: seq<Member>, cs: bool)
    ensures MergeMembers(ms, [p] + ps, cs) == MergeMembers(MergeMember(ms, p, cs), ps, cs)
    ensures MergeMembers(ms, [], cs) == ms
  {
    assert ([p] + ps)[0] == p && ([p] + ps)[1..] == ps;
    hide MergeMember;
  }

  lemma MergeOfThree(x: Member, y: Member)
    requires x == Member("a", False) && y == Member("B", True)
    ensures MergeMembers([x, y], [y, Member("a", Null), Member("B", Null)], false) == []
  {
    hide *;
    var p, q := Member("a", Null), Member("B", Null);
    DropsOfThree(x, y);
    assert [y, p, q] == [y] + ([p] + ([q] + []));
    MergeUnfolds([x, y], y, [p] + ([q] + []), false);
    MergeUnfolds([x, y], p, [q] + [], false);
    MergeUnfolds([y], q, [], false);
    MergeUnfolds([], q, [], false);
  }

  lemma DropsOfThree(x: Member, y: Member)
    requires x == Member("a", False) && y == Member("B", True)
    ensures MergeMember([x, y], y, false) == [x, y]
    ensures MergeMember([x, y], Member("a", Null), false) == [y]
    ensures MergeMember([y], Member("B", Null), false) == []
  {
    assert Lower("a") == "a" && Lower("B") == "b" by { UpperCaseOrder(); assert "a"[1..] == "" && "B"[1..] == ""; }
    hide Lower;
    assert [x, y][1..] == [y] && [x, y][0] == x && [y][0] == y;
    assert Find([x, y], "B", false) == 1 && Find([x, y], "a", false) == 0 && Find([y], "B", false) == 0;
    assert RemoveAt([x, y], 1) == [x] && RemoveAt([x, y], 0) == [y] && RemoveAt([y], 0) == [];
  }
}
