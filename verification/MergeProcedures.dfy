/** The loops of the merge-patch functions, over member lists that are edited in place. */
module MergeProcedures {
  import opened Text
  import opened Sequences
  import opened Json
  import opened Compare
  import opened Patch
  import opened Linked
  import opened LinkedMerge
  import Merging = MergePatch
  import PatchProcedures

  /** An object item; its children are detached and appended one at a time. */
  class ObjectItem {
    var members: seq<Named>
    /** The first member has a `prev`. */
    var stale: bool
    /** A node has been unlinked through a stale link.  The object is not followed any further. */
    var misled: bool

    constructor (t: ObjectTree)
      ensures members == t.members && stale == t.stale && !misled
    {
      members, stale, misled := t.members, t.stale, false;
    }

    function Now(): Option<ObjectTree>
      reads this
    {
      if misled then None else Some(LinkedObject(members, stale))
    }

    /** `cJSON_DetachItemFromObject` and its case-sensitive form. */
    method DetachItem(key: string, cs: bool) returns (item: Option<Tree>)
      requires !misled
      modifies this
      ensures Now() == DropNamed(LinkedObject(old(members), old(stale)), key, cs)
      ensures item == TakeNamed(LinkedObject(old(members), old(stale)), key, cs)
    {
      var i := 0;
      while i < |members| && Fold(members[i].key, cs) != Fold(key, cs)
        invariant i <= Find(EraseMembers(members), key, cs)
        invariant members == old(members) && stale == old(stale) && !misled
      {
        ErasedKey(members, i);
        i := i + 1;
      }
      if i == |members| {
        return None;
      }
      ErasedKey(members, i);
      item := Some(members[i].value);
      if i == 0 && stale {
        misled := true;
      } else {
        members := RemoveAt(members, i);
      }
    }

    /** `cJSON_AddItemToObject` */
    method AddItem(key: string, value: Tree)
      modifies this
      ensures members == old(members) + [Named(key, value)] && stale == old(stale) && misled == old(misled)
    {
      members := members + [Named(key, value)];
    }

    /** The loop of `merge_patch`. */
    method Merge(patch: seq<Member>, cs: bool)
      requires !misled
      modifies this
      ensures Now() == MergeAllLinked(LinkedObject(old(members), old(stale)), patch, cs)
      decreases patch, 1
    {
      hide MergeOneLinked, Find;
      ghost var start: ObjectTree := LinkedObject(members, stale);
      var i := 0;
      assert patch[0..] == patch;
      while i < |patch|
        invariant 0 <= i <= |patch| && !misled
        invariant MergeAllLinked(LinkedObject(members, stale), patch[i..], cs) == MergeAllLinked(start, patch, cs)
      {
        assert patch[i..][1..] == patch[i + 1..];
        MergeOne(patch[i], cs);
        if misled {
          return;
        }
        i := i + 1;
      }
    }

    /** One round of the loop. */
    method MergeOne(p: Member, cs: bool)
      requires !misled
      modifies this
      ensures Now() == MergeOneLinked(LinkedObject(old(members), old(stale)), p, cs)
      decreases p.value, 1
    {
      hide MergeLinked, DropNamed, TakeNamed;
      var replaced := DetachItem(p.key, cs);
      if misled || p.value.Null? {
        return;
      }
      var replacement := MergePatchInto(replaced, p.value, cs);
      if replacement.None? {
        misled := true;
      } else {
        AddItem(p.key, replacement.value);
      }
    }
  }

  lemma ErasedKey(ms: seq<Named>, i: nat)
    requires i < |ms|
    ensures EraseMembers(ms)[i].key == ms[i].key
  {
  }

  /** `merge_patch` */
  method MergePatchInto(target: Option<Tree>, patch: Json, cs: bool) returns (r: Option<Tree>)
    ensures r == MergeLinked(target, patch, cs)
    decreases patch, 0
  {
    if !patch.Object? {
      return Some(Fresh(patch));
    }
    var item := new ObjectItem(if target.Some? && target.value.LinkedObject? then target.value else LinkedObject([], false));
    item.Merge(patch.members, cs);
    r := item.Now();
  }

  /** The object that a generated patch is collected in. */
  class PatchObject {
    var members: seq<Member>

    constructor ()
      ensures members == []
    {
      members := [];
    }

    method AddItem(key: string, value: Json)
      modifies this
      ensures members == old(members) + [Member(key, value)]
    {
      members := members + [Member(key, value)];
    }

    /** The loop over both sorted member lists; `after` is what it leaves of the first. */
    method AppendDifferences(fs: seq<Named>, ts: seq<Member>, cs: bool) returns (after: seq<Named>)
      modifies this
      ensures members == old(members) + Merging.DifferentMembers(EraseMembers(fs), ts, cs)
      ensures after == MembersWalked(fs, ts, cs)
      decreases MembersDepth(EraseMembers(fs)) + 1, 0, 1
    {
      hide *;
      ghost var whole, walked := members + Merging.DifferentMembers(EraseMembers(fs), ts, cs), MembersWalked(fs, ts, cs);
      var f, t := fs, ts;
      after := [];
      while f != [] || t != []
        invariant members + Merging.DifferentMembers(EraseMembers(f), t, cs) == whole
        invariant after + MembersWalked(f, t, cs) == walked
        invariant MembersDepth(EraseMembers(f)) <= MembersDepth(EraseMembers(fs))
        decreases |f| + |t|
      {
        FirstDifference(f, t, cs);
        FirstWalked(f, t, cs);
        var diff := if f == [] then 1 else if t == [] then -1 else CompareStrings(f[0].key, t[0].key, true);
        ghost var before, done := members, after;
        if diff < 0 {
          AddItem(f[0].key, Null);
          Regroup(before, [Member(f[0].key, Null)], Merging.DifferentMembers(EraseMembers(f[1..]), t, cs));
          Regroup(done, [f[0]], MembersWalked(f[1..], t, cs));
          after := after + [f[0]];
          f := f[1..];
        } else if diff > 0 {
          AddItem(t[0].key, t[0].value);
          Regroup(before, [t[0]], Merging.DifferentMembers(EraseMembers(f), t[1..], cs));
          t := t[1..];
        } else {
          var value := AppendChange(f[0], t[0], cs);
          Regroup(before, Change(f[0], t[0], cs), Merging.DifferentMembers(EraseMembers(f[1..]), t[1..], cs));
          Regroup(done, [Named(f[0].key, value)], MembersWalked(f[1..], t[1..], cs));
          after := after + [Named(f[0].key, value)];
          f, t := f[1..], t[1..];
        }
      }
      NothingDifferent(cs);
      assert after + [] == after && members + [] == members;
    }

    /** A key that both objects have: the values are compared, and so sorted, before the nested patch is made. */
    method AppendChange(f: Named, t: Member, cs: bool) returns (after: Tree)
      modifies this
      ensures members == old(members) + Change(f, t, cs) && after == PairWalked(f.value, t.value, cs)
      decreases Depth(Erase(f.value)) + 1, 0, 0
    {
      hide Compared, AfterCompare, CompareJson, Walked, Erase, Depth, Merging.GenerateMergePatch;
      ErasedCompared(f.value, t.value, cs);
      CompareKeepsDepth(Erase(f.value), t.value, cs);
      var same;
      same, after := PatchProcedures.CompareJsonLoop(f.value, t.value, cs);
      if !same {
        var nested;
        var sorted;
        nested, sorted := GeneratePatch(Some(after), Some(AfterCompare(t.value, Erase(f.value), cs)), false);
        after := sorted.value;
        if nested.Some? {
          AddItem(t.key, nested.value);
        }
      }
    }
  }

  /** `generate_merge_patch`; `after` is what it leaves of its first argument. */
  method GeneratePatch(from: Option<Tree>, goal: Option<Json>, cs: bool) returns (patch: Option<Json>, after: Option<Tree>)
    ensures patch == Merging.GenerateMergePatch(Erased(from), goal, cs)
    ensures after == if from.Some? && goal.Some? then Some(Walked(from.value, goal.value, cs)) else from
    decreases if from.Some? then Depth(Erase(from.value)) else 0, 1, 0
  {
    hide Merging.DifferentMembers, MembersWalked, SortNamed, SortMembers, StaleAfterSort, EraseMembers;
    if goal.None? {
      return Some(Null), from;
    }
    if from.None? || !from.value.LinkedObject? || !goal.value.Object? {
      return goal, from;
    }
    var ms := from.value.members;
    ErasedSort(ms, cs);
    SortedDepth(EraseMembers(ms), cs);
    var fs, ts := SortNamed(ms, cs), SortMembers(goal.value.members, cs);
    var item := new PatchObject();
    var members := item.AppendDifferences(fs, ts, cs);
    after := Some(LinkedObject(members, StaleAfterSort(ms, from.value.stale, cs)));
    assert [] + item.members == item.members && [] + Merging.DifferentMembers(EraseMembers(fs), ts, cs) == item.members;
    patch := if item.members == [] then None else Some(Object(item.members));
    CollectedIsPatch(from.value, goal.value, item.members, cs);
  }

  lemma CollectedIsPatch(from: ObjectTree, goal: Json, collected: seq<Member>, cs: bool)
    requires goal.Object?
    requires collected
          == Merging.DifferentMembers(EraseMembers(SortNamed(from.members, cs)), SortMembers(goal.members, cs), cs)
    ensures Merging.GenerateMergePatch(Some(Erase(from)), Some(goal), cs)
         == if collected == [] then None else Some(Object(collected))
  {
    assert Erase(from) == Object(EraseMembers(from.members));
    hide *;
    ErasedSort(from.members, cs);
    Merging.GeneratedObject(Erase(from), goal, cs);
  }

  lemma NothingDifferent(cs: bool)
    ensures Merging.DifferentMembers(EraseMembers([]), [], cs) == [] && MembersWalked([], [], cs) == []
  {
  }

  /** What the generator adds for a key that both objects have. */
  ghost function Change(f: Named, t: Member, cs: bool): seq<Member> {
    var a, b := AfterCompare(Erase(f.value), t.value, cs), AfterCompare(t.value, Erase(f.value), cs);
    var nested := Merging.GenerateMergePatch(Some(a), Some(b), false);
    if CompareJson(Erase(f.value), t.value, cs) || nested.None? then [] else [Member(t.key, nested.value)]
  }

  /** One step of the walk along both lists. */
  lemma FirstDifference(f: seq<Named>, t: seq<Member>, cs: bool)
    requires f != [] || t != []
    ensures var diff := if f == [] then 1 else if t == [] then -1 else CompareStrings(f[0].key, t[0].key, true);
      Merging.DifferentMembers(EraseMembers(f), t, cs) ==
        if diff < 0 then [Member(f[0].key, Null)] + Merging.DifferentMembers(EraseMembers(f[1..]), t, cs)
        else if diff > 0 then [t[0]] + Merging.DifferentMembers(EraseMembers(f), t[1..], cs)
        else Change(f[0], t[0], cs) + Merging.DifferentMembers(EraseMembers(f[1..]), t[1..], cs)
    ensures f != [] ==> Depth(Erase(f[0].value)) <= MembersDepth(EraseMembers(f))
                        && MembersDepth(EraseMembers(f[1..])) <= MembersDepth(EraseMembers(f))
  {
    hide CompareJson, CompareStrings, Erase, AfterCompare, Merging.GenerateMergePatch;
    if f != [] {
      MembersParts(f);
      assert EraseMembers(f)[0] == Member(f[0].key, Erase(f[0].value)) && EraseMembers(f)[1..] == EraseMembers(f[1..]);
    }
    var rest := if f != [] && t != [] then Merging.DifferentMembers(EraseMembers(f[1..]), t[1..], cs) else [];
    assert [] + rest == rest;
  }

  lemma FirstWalked(f: seq<Named>, t: seq<Member>, cs: bool)
    requires f != [] || t != []
    ensures var diff := if f == [] then 1 else if t == [] then -1 else CompareStrings(f[0].key, t[0].key, true);
      MembersWalked(f, t, cs) ==
        if diff < 0 then [f[0]] + MembersWalked(f[1..], t, cs)
        else if diff > 0 then MembersWalked(f, t[1..], cs)
        else [Named(f[0].key, PairWalked(f[0].value, t[0].value, cs))] + MembersWalked(f[1..], t[1..], cs)
  {
    hide CompareStrings, PairWalked, Erase;
    if f != [] { assert f == [f[0]] + f[1..]; }
  }
}
