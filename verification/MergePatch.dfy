/** Merge patches (RFC 7396): `merge_patch` and `generate_merge_patch`. */
module MergePatch {
  import opened Text
  import opened Json
  import opened Sorting
  import opened Compare

  // ----- RFC 7396 on values

  /** The MergePatch function of section 2 of RFC 7396; an absent target is `None`. */
  function RfcMerge(target: Option<Value>, patch: Value): Value
    decreases patch
  {
    if !patch.VObject? then patch
    else
      var p, base := patch.members, if target.Some? && target.value.VObject? then target.value.members else map[];
      VObject(map k | k in base.Keys + p.Keys && !(k in p && p[k] == VNull) ::
                if k in p then RfcMerge(if k in base then Some(base[k]) else None, p[k]) else base[k])
  }

  /** No object member is null, at any depth that is reached through objects only. */
  ghost predicate NullFree(v: Value)
    decreases v
  {
    v.VObject? ==> forall k <- v.members :: v.members[k] != VNull && NullFree(v.members[k])
  }

  /** The nulls of `to` that a merge patch cannot express are those at places that must change. */
  ghost predicate NullsKept(from: Value, goal: Value)
    decreases goal
  {
    if !goal.VObject? then true
    else if !from.VObject? then NullFree(goal)
    else forall k <- goal.members ::
           if k !in from.members then goal.members[k] != VNull && NullFree(goal.members[k])
           else from.members[k] == goal.members[k]
                || (goal.members[k] != VNull && NullsKept(from.members[k], goal.members[k]))
  }

  /** What a merge patch from one value to another has to say. */
  function Difference(from: Value, goal: Value): Value
    decreases goal
  {
    if !from.VObject? || !goal.VObject? then goal
    else
      var f, t := from.members, goal.members;
      VObject(map k | k in f.Keys + t.Keys && !(k in f && k in t && f[k] == t[k]) ::
                if k !in t then VNull else if k !in f then t[k] else Difference(f[k], t[k]))
  }

  lemma {:induction false} MergeIntoNothing(target: Option<Value>, v: Value)
    requires target.None? || !target.value.VObject?
    ensures RfcMerge(target, v) == v <==> NullFree(v)
    decreases v
  {
    if v.VObject? {
      var m, r := v.members, RfcMerge(target, v).members;
      forall k | k in m ensures RfcMerge(None, m[k]) == m[k] <==> NullFree(m[k]) {
        MergeIntoNothing(None, m[k]);
      }
      if r == m {
        forall k | k in m ensures m[k] != VNull && NullFree(m[k]) {
          assert k in r && r[k] == RfcMerge(None, m[k]);
        }
      }
      if NullFree(v) {
        assert forall k :: k in r <==> k in m;
      }
    }
  }

  /** Applying the difference restores the target value exactly when no null stands at a place
      that must change. */
  lemma {:induction false} MergeUndoesDifference(from: Value, goal: Value)
    ensures RfcMerge(Some(from), Difference(from, goal)) == goal <==> NullsKept(from, goal)
    decreases goal
  {
    if goal.VObject? {
      if !from.VObject? {
        MergeIntoNothing(Some(from), goal);
      } else {
        var f, t := from.members, goal.members;
        forall k | k in t
          ensures k !in f ==> (RfcMerge(None, t[k]) == t[k] <==> NullFree(t[k]))
          ensures k in f ==> (RfcMerge(Some(f[k]), Difference(f[k], t[k])) == t[k] <==> NullsKept(f[k], t[k]))
        {
          if k in f { MergeUndoesDifference(f[k], t[k]); } else { MergeIntoNothing(None, t[k]); }
        }
        MergedMembers(f, t);
      }
    }
  }

  lemma MergedMembers(f: map<string, Value>, t: map<string, Value>)
    requires forall k :: k in t && k !in f ==> (RfcMerge(None, t[k]) == t[k] <==> NullFree(t[k]))
    requires forall k :: k in t && k in f ==>
               (RfcMerge(Some(f[k]), Difference(f[k], t[k])) == t[k] <==> NullsKept(f[k], t[k]))
    ensures RfcMerge(Some(VObject(f)), Difference(VObject(f), VObject(t))) == VObject(t)
        <==> NullsKept(VObject(f), VObject(t))
  {
    var d := Difference(VObject(f), VObject(t)).members;
    var r := RfcMerge(Some(VObject(f)), VObject(d)).members;
    forall k ensures k in r <==> k in t && !(k in d && d[k] == VNull) {
    }
    forall k | k in r ensures r[k] == if k in d then RfcMerge(if k in f then Some(f[k]) else None, d[k]) else f[k] {
    }
    forall k | k in t && k in f && f[k] != t[k] ensures d[k] == VNull <==> t[k] == VNull {
    }
    if r == t {
      forall k | k in t
        ensures if k !in f then t[k] != VNull && NullFree(t[k])
                else f[k] == t[k] || (t[k] != VNull && NullsKept(f[k], t[k]))
      {
        assert k in r;
      }
    }
    if NullsKept(VObject(f), VObject(t)) {
      forall k ensures k in r <==> k in t
        ensures k in t ==> k in r && r[k] == t[k]
      {
      }
    }
  }

  lemma NullFreeSuffices(from: Value, goal: Value)
    requires NullFree(goal)
    ensures NullsKept(from, goal)
    decreases goal
  {
    if from.VObject? && goal.VObject? {
      forall k | k in goal.members && k in from.members
        ensures NullsKept(from.members[k], goal.members[k])
      {
        NullFreeSuffices(from.members[k], goal.members[k]);
      }
    }
  }

  // ----- the library's functions

  function TakeMember(ms: seq<Member>, key: string, cs: bool): Option<Json> {
    var i := Find(ms, key, cs);
    if i < |ms| then Some(ms[i].value) else None
  }

  /** `merge_patch`. */
  function MergePatch(target: Option<Json>, patch: Json, cs: bool): Json
    decreases patch, 0
  {
    if !patch.Object? then patch
    else Object(MergeMembers(if target.Some? && target.value.Object? then target.value.members else [],
                             patch.members, cs))
  }

  /** The loop over the members of the patch: a null removes, anything else is detached, merged and
      appended at the end. */
  function MergeMembers(ms: seq<Member>, ps: seq<Member>, cs: bool): seq<Member>
    decreases ps, 1
  {
    if ps == [] then ms
    else MergeMembers(MergeMember(ms, ps[0], cs), ps[1..], cs)
  }

  function MergeMember(ms: seq<Member>, p: Member, cs: bool): seq<Member>
    decreases p.value, 1
  {
    if p.value.Null? then DropMember(ms, p.key, cs)
    else DropMember(ms, p.key, cs) + [Member(p.key, MergePatch(TakeMember(ms, p.key, cs), p.value, cs))]
  }

  /** `generate_merge_patch`; no patch at all when two objects are equal. */
  function GenerateMergePatch(from: Option<Json>, goal: Option<Json>, cs: bool): Option<Json>
    decreases if from.Some? then Depth(from.value) else 0, 1, 0
  {
    if goal.None? then Some(Null)
    else if from.None? || !from.value.Object? || !goal.value.Object? then goal
    else
      var members := DifferentMembers(SortMembers(from.value.members, cs), SortMembers(goal.value.members, cs), cs);
      if members == [] then None else Some(Object(members))
  }

  /** Walking the two sorted lists side by side.  Keys are compared byte by byte whatever the flag says.  Values
      that are found different have been sorted on the way; nested patches are generated with the flag off. */
  function DifferentMembers(fs: seq<Member>, ts: seq<Member>, cs: bool): seq<Member>
    decreases MembersDepth(fs) + 1, 0, |fs| + |ts|
  {
    if fs == [] && ts == [] then []
    else if ts == [] || (fs != [] && CompareStrings(fs[0].key, ts[0].key, true) < 0) then
      [Member(fs[0].key, Null)] + DifferentMembers(fs[1..], ts, cs)
    else if fs == [] || CompareStrings(fs[0].key, ts[0].key, true) > 0 then
      [ts[0]] + DifferentMembers(fs, ts[1..], cs)
    else if CompareJson(fs[0].value, ts[0].value, cs) then
      DifferentMembers(fs[1..], ts[1..], cs)
    else
      var nested := NestedPatch(fs[0].value, ts[0].value, cs);
      (if nested.None? then [] else [Member(ts[0].key, nested.value)]) + DifferentMembers(fs[1..], ts[1..], cs)
  }

  /** The patch for two values after they have been compared. */
  function NestedPatch(f: Json, t: Json, cs: bool): Option<Json>
    decreases Depth(f), 2, 0
  {
    CompareKeepsDepth(f, t, cs);
    GenerateMergePatch(Some(AfterCompare(f, t, cs)), Some(AfterCompare(t, f, cs)), false)
  }

  // ----- merging

  /** `merge_patch` computes the function of section 2 of RFC 7396, for either flag. */
  lemma {:induction false} MergePatchIsRfc(target: Option<Json>, patch: Json, cs: bool)
    requires Keyed(patch, cs) && (target.Some? ==> Keyed(target.value, cs))
    ensures Keyed(MergePatch(target, patch, cs), cs)
    ensures Meaning(MergePatch(target, patch, cs), cs)
         == RfcMerge(if target.None? then None else Some(Meaning(target.value, cs)), Meaning(patch, cs))
    decreases patch, 0
  {
    if patch.Object? {
      var ms := if target.Some? && target.value.Object? then target.value.members else [];
      assert KeyedMembers(ms, cs) && KeyedMembers(patch.members, cs);
      MergeMembersIsRfc(ms, patch.members, cs);
    }
  }

  /** Section 2 of RFC 7396 on maps. */
  function RfcMergeMembers(base: map<string, Value>, p: map<string, Value>): map<string, Value> {
    RfcMerge(Some(VObject(base)), VObject(p)).members
  }

  lemma {:induction false} MergeMembersIsRfc(ms: seq<Member>, ps: seq<Member>, cs: bool)
    requires KeyedMembers(ms, cs) && KeyedMembers(ps, cs)
    ensures KeyedMembers(MergeMembers(ms, ps, cs), cs)
    ensures MembersMeaning(MergeMembers(ms, ps, cs), cs)
         == RfcMergeMembers(MembersMeaning(ms, cs), MembersMeaning(ps, cs))
    decreases ps, 1
  {
    var base := MembersMeaning(ms, cs);
    if ps == [] {
      assert RfcMergeMembers(base, map[]) == base;
    } else {
      var p, k := ps[0], Fold(ps[0].key, cs);
      MergeMemberIsRfc(ms, p, cs);
      KeyedTail(ps, cs);
      MergeMembersIsRfc(MergeMember(ms, p, cs), ps[1..], cs);
      MergeOneThenRest(base, MembersMeaning(ps[1..], cs), k, Meaning(p.value, cs));
    }
  }

  lemma KeyedTail(ps: seq<Member>, cs: bool)
    requires KeyedMembers(ps, cs) && ps != []
    ensures KeyedMembers(ps[1..], cs) && Keyed(ps[0].value, cs)
    ensures Fold(ps[0].key, cs) !in MembersMeaning(ps[1..], cs)
  {
    forall i | 0 <= i < |ps[1..]| ensures Fold(ps[1..][i].key, cs) != Fold(ps[0].key, cs) {
      assert ps[1..][i] == ps[i + 1];
    }
    if Fold(ps[0].key, cs) in MembersMeaning(ps[1..], cs) {
      MeaningHasOnlyMembers(ps[1..], cs, Fold(ps[0].key, cs));
    }
  }

  ghost function MergedEntry(base: map<string, Value>, k: string, w: Value): map<string, Value> {
    if w == VNull then base - {k} else base[k := RfcMerge(if k in base then Some(base[k]) else None, w)]
  }

  lemma MergeOneThenRest(base: map<string, Value>, rest: map<string, Value>, k: string, w: Value)
    requires k !in rest
    ensures RfcMergeMembers(MergedEntry(base, k, w), rest) == RfcMergeMembers(base, rest[k := w])
  {
    var a, b := RfcMergeMembers(MergedEntry(base, k, w), rest), RfcMergeMembers(base, rest[k := w]);
    forall key ensures key in a <==> key in b
      ensures key in a ==> a[key] == b[key]
    {
    }
  }

  lemma {:induction false} MergeMemberIsRfc(ms: seq<Member>, p: Member, cs: bool)
    requires KeyedMembers(ms, cs) && Keyed(p.value, cs)
    ensures KeyedMembers(MergeMember(ms, p, cs), cs)
    ensures MembersMeaning(MergeMember(ms, p, cs), cs)
         == MergedEntry(MembersMeaning(ms, cs), Fold(p.key, cs), Meaning(p.value, cs))
    decreases p.value, 1
  {
    DroppedMember(ms, p.key, cs);
    if !p.value.Null? {
      TakenMember(ms, p.key, cs);
      var target := TakeMember(ms, p.key, cs);
      MergePatchIsRfc(target, p.value, cs);
      ReplacedMember(ms, p.key, MergePatch(target, p.value, cs), cs);
    }
  }

  lemma TakenMember(ms: seq<Member>, key: string, cs: bool)
    requires KeyedMembers(ms, cs)
    ensures TakeMember(ms, key, cs).Some? <==> Fold(key, cs) in MembersMeaning(ms, cs)
    ensures TakeMember(ms, key, cs).Some? ==>
              && Keyed(TakeMember(ms, key, cs).value, cs)
              && Meaning(TakeMember(ms, key, cs).value, cs) == MembersMeaning(ms, cs)[Fold(key, cs)]
  {
    hide Meaning, MembersMeaning, Keyed, Fold;
    MeaningAtKey(ms, key, cs);
  }

  // ----- generating

  /** Data on which the orders and comparisons of the generator agree: wherever two objects meet, the byte
      order of their keys is also the order without regard to case. */
  ghost predicate Alike(v: Value, w: Value)
    decreases v
  {
    match (v, w)
    case (VArray(xs), VArray(ys)) => |xs| == |ys| ==> forall i :: 0 <= i < |xs| ==> Alike(xs[i], ys[i])
    case (VObject(m), VObject(n)) => OneOrder(m.Keys + n.Keys) && forall k <- m :: k in n ==> Alike(m[k], n[k])
    case _ => true
  }

  ghost predicate OneOrder(keys: set<string>) {
    forall x <- keys, y <- keys :: Less(x, y) ==> Less(Lower(x), Lower(y))
  }

  /** Two trees with such data, where every key is taken for itself. */
  ghost predicate AlikeTrees(from: Json, goal: Json) {
    Alike(Meaning(from, true), Meaning(goal, true))
  }

  /** The same for two member lists in byte order. */
  ghost predicate InStep(fs: seq<Member>, ts: seq<Member>) {
    && StrictlySorted(fs, KeyOf, true) && StrictlySorted(ts, KeyOf, true) && SameOrder(fs + ts, KeyOf)
    && forall i, j :: 0 <= i < |fs| && 0 <= j < |ts| && fs[i].key == ts[j].key ==> AlikeTrees(fs[i].value, ts[j].value)
  }

  /** Keys that differ in more than letter case differ. */
  lemma {:induction false} KeyedByBytes(j: Json, cs: bool)
    requires Keyed(j, cs)
    ensures Keyed(j, true)
    decreases j
  {
    match j
    case Array(items) =>
      forall i | 0 <= i < |items| ensures Keyed(items[i], true) { KeyedByBytes(items[i], cs); }
    case Object(ms) =>
      forall i | 0 <= i < |ms| ensures Keyed(ms[i].value, true) { KeyedByBytes(ms[i].value, cs); }
      forall i, j | 0 <= i < j < |ms| ensures ms[i].key != ms[j].key {
        assert Fold(ms[i].key, cs) != Fold(ms[j].key, cs);
      }
    case _ =>
  }

  lemma OrdersOfKeys(x: string, y: string, cs: bool)
    requires Less(x, y) ==> Less(Lower(x), Lower(y))
    requires Less(y, x) ==> Less(Lower(y), Lower(x))
    ensures Less(x, y) <==> Less(Fold(x, cs), Fold(y, cs))
    ensures x == y <==> Fold(x, cs) == Fold(y, cs)
  {
    hide Less, Lower;
    LessTotal(x, y);
    LessIrreflexive(Lower(x));
    if Less(x, y) { LessAsymmetric(Lower(x), Lower(y)); }
    if Less(y, x) { LessAsymmetric(Lower(y), Lower(x)); LessAsymmetric(y, x); }
  }

  /** On keys with one order the flags agree on what is sorted. */
  lemma SortedEitherWay(s: seq<Member>, a: bool, b: bool)
    requires SameOrder(s, KeyOf) && StrictlySorted(s, KeyOf, a)
    ensures StrictlySorted(s, KeyOf, b)
  {
    hide Less, Fold;
    forall i, j | 0 <= i < j < |s| ensures Less(Fold(KeyOf(s[i]), b), Fold(KeyOf(s[j]), b)) {
      assert s[i] in s && s[j] in s;
      OrdersOfKeys(KeyOf(s[i]), KeyOf(s[j]), a);
      OrdersOfKeys(KeyOf(s[i]), KeyOf(s[j]), b);
    }
  }

  lemma SortedForEitherFlag(ms: seq<Member>, gen: bool, cs: bool)
    requires KeyedMembers(ms, cs) && SameOrder(ms, KeyOf)
    ensures var fs := SortMembers(ms, gen);
            && StrictlySorted(fs, KeyOf, true) && KeyedMembers(fs, cs)
            && MembersMeaning(fs, cs) == MembersMeaning(ms, cs)
  {
    var fs := SortMembers(ms, gen);
    forall i, j | 0 <= i < j < |ms| ensures Fold(KeyOf(ms[i]), gen) != Fold(KeyOf(ms[j]), gen) {
      assert ms[i] in ms && ms[j] in ms && Fold(ms[i].key, cs) != Fold(ms[j].key, cs);
      OrdersOfKeys(KeyOf(ms[i]), KeyOf(ms[j]), gen);
    }
    SortSorts(ms, KeyOf, gen);
    assert SameOrder(fs, KeyOf);
    SortedEitherWay(fs, gen, true);
    SortKeepsMeaning(ms, gen, cs);
  }

  /** What is asked of two objects holds of their sorted lists. */
  lemma SortedInStep(ms: seq<Member>, ns: seq<Member>, gen: bool, cs: bool)
    requires KeyedMembers(ms, cs) && KeyedMembers(ns, cs) && AlikeTrees(Object(ms), Object(ns))
    ensures var fs, ts := SortMembers(ms, gen), SortMembers(ns, gen);
            && InStep(fs, ts) && KeyedMembers(fs, cs) && KeyedMembers(ts, cs)
            && MembersMeaning(fs, cs) == MembersMeaning(ms, cs) && MembersMeaning(ts, cs) == MembersMeaning(ns, cs)
  {
    var fs, ts := SortMembers(ms, gen), SortMembers(ns, gen);
    MembersByBytes(ms, cs);
    MembersByBytes(ns, cs);
    forall m | m in fs + ts ensures m in ms + ns {}
    hide *;
    KeysInOneOrder(ms, ns);
    SameOrderOfPart(ms, ms + ns);
    SameOrderOfPart(ns, ms + ns);
    SameOrderOfPart(fs + ts, ms + ns);
    SortedForEitherFlag(ms, gen, cs);
    SortedForEitherFlag(ns, gen, cs);
    SortedPairsAlike(ms, ns, fs, ts);
  }

  lemma MembersByBytes(ms: seq<Member>, cs: bool)
    requires KeyedMembers(ms, cs)
    ensures DistinctKeys(ms, true)
  {
    KeyedByBytes(Object(ms), cs);
    assert Keyed(Object(ms), true);
  }

  lemma SortedPairsAlike(ms: seq<Member>, ns: seq<Member>, fs: seq<Member>, ts: seq<Member>)
    requires DistinctKeys(ms, true) && DistinctKeys(ns, true) && AlikeTrees(Object(ms), Object(ns))
    requires (forall m <- fs :: m in ms) && forall n <- ts :: n in ns
    requires StrictlySorted(fs, KeyOf, true) && StrictlySorted(ts, KeyOf, true) && SameOrder(fs + ts, KeyOf)
    ensures InStep(fs, ts)
  {
    hide Keyed, Meaning, MembersMeaning, SameOrder, AlikeTrees, StrictlySorted;
    forall i, j | 0 <= i < |fs| && 0 <= j < |ts| && fs[i].key == ts[j].key ensures AlikeTrees(fs[i].value, ts[j].value) {
      assert fs[i] in ms && ts[j] in ns;
      AlikeAtKey(ms, ns, fs[i], ts[j]);
    }
  }

  lemma SameOrderOfPart(s: seq<Member>, t: seq<Member>)
    requires SameOrder(t, KeyOf) && forall m <- s :: m in t
    ensures SameOrder(s, KeyOf)
  {
  }

  lemma KeysInOneOrder(ms: seq<Member>, ns: seq<Member>)
    requires DistinctKeys(ms, true) && DistinctKeys(ns, true) && AlikeTrees(Object(ms), Object(ns))
    ensures SameOrder(ms + ns, KeyOf) && (forall m <- ms :: m in ms + ns) && forall n <- ns :: n in ms + ns
  {
    var keys := MembersMeaning(ms, true).Keys + MembersMeaning(ns, true).Keys;
    assert OneOrder(keys);
    forall m <- ms + ns ensures KeyOf(m) in keys {
      if m in ms {
        var i :| 0 <= i < |ms| && ms[i] == m;
        MeaningAtMember(ms, i, true);
      } else {
        var i :| 0 <= i < |ns| && ns[i] == m;
        MeaningAtMember(ns, i, true);
      }
    }
  }

  lemma AlikeAtKey(ms: seq<Member>, ns: seq<Member>, m: Member, n: Member)
    requires DistinctKeys(ms, true) && DistinctKeys(ns, true) && AlikeTrees(Object(ms), Object(ns))
    requires m in ms && n in ns && m.key == n.key
    ensures AlikeTrees(m.value, n.value)
  {
    var i :| 0 <= i < |ms| && ms[i] == m;
    var j :| 0 <= j < |ns| && ns[j] == n;
    MeaningAtMember(ms, i, true);
    MeaningAtMember(ns, j, true);
  }

  lemma InStepRests(fs: seq<Member>, ts: seq<Member>, fs': seq<Member>, ts': seq<Member>)
    requires InStep(fs, ts)
    requires fs' == fs || (fs != [] && fs' == fs[1..])
    requires ts' == ts || (ts != [] && ts' == ts[1..])
    ensures InStep(fs', ts')
  {
    hide Less, Fold, AlikeTrees, StrictlySorted;
    SortedRest(fs, fs');
    SortedRest(ts, ts');
    forall m | m in fs' + ts' ensures m in fs + ts {}
  }

  lemma SortedRest(ms: seq<Member>, ms': seq<Member>)
    requires StrictlySorted(ms, KeyOf, true) && (ms' == ms || (ms != [] && ms' == ms[1..]))
    ensures StrictlySorted(ms', KeyOf, true)
    ensures forall m <- ms' :: m in ms
    ensures forall i :: 0 <= i < |ms'| ==> ms'[i] == ms[i + |ms| - |ms'|]
  {
    hide Less, Fold;
    assert forall i :: 0 <= i < |ms'| ==> ms'[i] == ms[i + |ms| - |ms'|];
  }

  /** For the key of the head of each list, in either order. */
  lemma HeadsInStep(fs: seq<Member>, ts: seq<Member>, cs: bool)
    requires InStep(fs, ts)
    ensures StrictlySorted(fs, KeyOf, cs) && StrictlySorted(ts, KeyOf, cs)
    ensures fs != [] && ts != [] ==>
      var x, y := fs[0].key, ts[0].key;
      && (CompareStrings(x, y, true) < 0 ==> Less(Fold(x, cs), Fold(y, cs)))
      && (CompareStrings(x, y, true) > 0 ==> Less(Fold(y, cs), Fold(x, cs)))
      && (CompareStrings(x, y, true) == 0 ==> x == y)
  {
    forall m | m in fs ensures m in fs + ts {}
    forall m | m in ts ensures m in fs + ts {}
    SortedEitherWay(fs, true, cs);
    SortedEitherWay(ts, true, cs);
    if fs != [] && ts != [] {
      assert fs[0] in fs + ts && ts[0] in fs + ts;
      var x, y := KeyOf(fs[0]), KeyOf(ts[0]);
      hide Less, Lower, StrictlySorted;
      OrdersOfKeys(x, y, cs);
      LessTotal(x, y);
      OrdersOfKeys(y, x, cs);
    }
  }

  /** On trees that are alike the comparison decides equality of meanings, with either flag for both. */
  lemma {:induction false} CompareJsonOfAlike(a: Json, b: Json, gen: bool, cs: bool)
    requires Keyed(a, cs) && Keyed(b, cs) && AlikeTrees(a, b)
    ensures CompareJson(a, b, gen) <==> Meaning(a, cs) == Meaning(b, cs)
    decreases Depth(a), 1
  {
    if a.Array? && b.Array? {
      var xs, ys := a.items, b.items;
      if |xs| == |ys| {
        forall i | 0 <= i < |xs| ensures CompareJson(xs[i], ys[i], gen) <==> Meaning(xs[i], cs) == Meaning(ys[i], cs) {
          assert Meaning(a, true).items[i] == Meaning(xs[i], true) && Meaning(b, true).items[i] == Meaning(ys[i], true);
          CompareJsonOfAlike(xs[i], ys[i], gen, cs);
        }
      }
      ArraysAgree(xs, ys, cs);
    } else if a.Object? && b.Object? {
      CompareAlikeObjects(a, b, gen, cs);
    }
  }

  lemma {:induction false} CompareAlikeObjects(a: Json, b: Json, gen: bool, cs: bool)
    requires Keyed(a, cs) && Keyed(b, cs) && AlikeTrees(a, b) && a.Object? && b.Object?
    ensures CompareJson(a, b, gen) <==> Meaning(a, cs) == Meaning(b, cs)
    decreases Depth(a), 0
  {
    var xs, ys := SortMembers(a.members, gen), SortMembers(b.members, gen);
    KeyedObject(a, cs);
    KeyedObject(b, cs);
    SortedInStep(a.members, b.members, gen, cs);
    forall i | 0 <= i < |xs| && i < |ys|
      ensures CompareStrings(xs[i].key, ys[i].key, gen) == 0 <==> Fold(xs[i].key, cs) == Fold(ys[i].key, cs)
      ensures Fold(xs[i].key, cs) == Fold(ys[i].key, cs) ==>
        (CompareJson(xs[i].value, ys[i].value, gen) <==> Meaning(xs[i].value, cs) == Meaning(ys[i].value, cs))
    {
      assert xs[i] in xs + ys && ys[i] in xs + ys;
      OrdersOfKeys(KeyOf(xs[i]), KeyOf(ys[i]), gen);
      OrdersOfKeys(KeyOf(xs[i]), KeyOf(ys[i]), cs);
      if xs[i].key == ys[i].key { CompareJsonOfAlike(xs[i].value, ys[i].value, gen, cs); }
    }
    ComparedAlike(a.members, b.members, gen, cs);
    HeadsInStep(xs, ys, cs);
    ZipIsMapEquality(xs, ys, cs);
  }

  lemma ComparedAlike(ms: seq<Member>, ns: seq<Member>, gen: bool, cs: bool)
    requires var xs, ys := SortMembers(ms, gen), SortMembers(ns, gen);
      forall i :: 0 <= i < |xs| && i < |ys| ==>
        && (CompareStrings(xs[i].key, ys[i].key, gen) == 0 <==> Fold(xs[i].key, cs) == Fold(ys[i].key, cs))
        && (Fold(xs[i].key, cs) == Fold(ys[i].key, cs) ==>
              (CompareJson(xs[i].value, ys[i].value, gen) <==> Meaning(xs[i].value, cs) == Meaning(ys[i].value, cs)))
    ensures CompareJson(Object(ms), Object(ns), gen) <==> Zips(SortMembers(ms, gen), SortMembers(ns, gen), cs)
  {
    SortedComparison(ms, ns, gen);
    hide SortMembers, CompareJson, CompareStrings, Fold, Meaning;
  }

  function DifferenceOfMembers(f: map<string, Value>, t: map<string, Value>): map<string, Value> {
    Difference(VObject(f), VObject(t)).members
  }

  lemma NoDifference(f: map<string, Value>, t: map<string, Value>)
    ensures DifferenceOfMembers(f, t) == map[] <==> f == t
  {
    var d := DifferenceOfMembers(f, t);
    if d == map[] {
      forall k ensures k in f <==> k in t
        ensures k in f && k in t ==> f[k] == t[k]
      {
        assert k !in d;
      }
    }
  }

  lemma OnlyInFrom(f: map<string, Value>, t: map<string, Value>, k: string, w: Value)
    requires k !in f && k !in t
    ensures DifferenceOfMembers(f[k := w], t) == DifferenceOfMembers(f, t)[k := VNull]
  {
  }

  lemma OnlyInGoal(f: map<string, Value>, t: map<string, Value>, k: string, w: Value)
    requires k !in f && k !in t
    ensures DifferenceOfMembers(f, t[k := w]) == DifferenceOfMembers(f, t)[k := w]
  {
  }

  lemma InBoth(f: map<string, Value>, t: map<string, Value>, k: string, w: Value, x: Value)
    requires k !in f && k !in t
    ensures DifferenceOfMembers(f[k := w], t[k := x])
         == if w == x then DifferenceOfMembers(f, t) else DifferenceOfMembers(f, t)[k := Difference(w, x)]
  {
  }

  lemma ConsMember(m: Member, rest: seq<Member>, cs: bool)
    requires KeyedMembers(rest, cs) && Fold(m.key, cs) !in MembersMeaning(rest, cs) && Keyed(m.value, cs)
    ensures KeyedMembers([m] + rest, cs)
    ensures MembersMeaning([m] + rest, cs) == MembersMeaning(rest, cs)[Fold(m.key, cs) := Meaning(m.value, cs)]
  {
    var all := [m] + rest;
    assert all[1..] == rest;
    forall i | 0 <= i < |rest| ensures Fold(rest[i].key, cs) != Fold(m.key, cs) {
      MeaningAtMember(rest, i, cs);
    }
  }

  /** What the generator writes down is the difference of the two values, and it writes down nothing
      exactly for equal objects.  `gen` is the flag it runs with, `cs` says which keys are the same. */
  lemma {:induction false} GenerateIsDifference(from: Json, goal: Json, gen: bool, cs: bool)
    requires Keyed(from, cs) && Keyed(goal, cs) && AlikeTrees(from, goal)
    ensures var g := GenerateMergePatch(Some(from), Some(goal), gen);
            && (g.None? <==> from.Object? && goal.Object? && Meaning(from, cs) == Meaning(goal, cs))
            && (g.Some? ==> && Keyed(g.value, cs)
                            && Meaning(g.value, cs) == Difference(Meaning(from, cs), Meaning(goal, cs)))
    decreases Depth(from), 1, 0
  {
    hide GenerateMergePatch, DifferentMembers, SortMembers, Keyed, Meaning, MembersMeaning, Difference, Alike, InStep;
    if from.Object? && goal.Object? {
      KeyedObject(from, cs);
      KeyedObject(goal, cs);
      SortedInStep(from.members, goal.members, gen, cs);
      var fs, ts := SortMembers(from.members, gen), SortMembers(goal.members, gen);
      var d := DifferentMembers(fs, ts, gen);
      GeneratedObject(from, goal, gen);
      DifferentMembersIsDifference(fs, ts, gen, cs);
      NoDifference(MembersMeaning(fs, cs), MembersMeaning(ts, cs));
      EmptyMeaning(d, cs);
      KeyedObject(Object(d), cs);
      DifferenceOfObjects(MembersMeaning(fs, cs), MembersMeaning(ts, cs));
    } else {
      GeneratedWhole(from, goal, gen, cs);
    }
  }

  lemma DifferenceOfObjects(f: map<string, Value>, t: map<string, Value>)
    ensures Difference(VObject(f), VObject(t)) == VObject(DifferenceOfMembers(f, t))
  {
  }

  lemma GeneratedObject(from: Json, goal: Json, gen: bool)
    requires from.Object? && goal.Object?
    ensures var d := DifferentMembers(SortMembers(from.members, gen), SortMembers(goal.members, gen), gen);
            GenerateMergePatch(Some(from), Some(goal), gen) == if d == [] then None else Some(Object(d))
  {
    hide DifferentMembers, SortMembers;
  }

  lemma GeneratedWhole(from: Json, goal: Json, gen: bool, cs: bool)
    requires !from.Object? || !goal.Object?
    ensures GenerateMergePatch(Some(from), Some(goal), gen) == Some(goal)
    ensures Difference(Meaning(from, cs), Meaning(goal, cs)) == Meaning(goal, cs)
  {
  }

  lemma EmptyMeaning(ms: seq<Member>, cs: bool)
    ensures MembersMeaning(ms, cs) == map[] <==> ms == []
  {
    if ms != [] {
      assert Fold(ms[0].key, cs) in MembersMeaning(ms, cs);
    }
  }

  lemma {:induction false} DifferentMembersIsDifference(fs: seq<Member>, ts: seq<Member>, gen: bool, cs: bool)
    requires KeyedMembers(fs, cs) && KeyedMembers(ts, cs) && InStep(fs, ts)
    ensures KeyedMembers(DifferentMembers(fs, ts, gen), cs)
    ensures MembersMeaning(DifferentMembers(fs, ts, gen), cs)
         == DifferenceOfMembers(MembersMeaning(fs, cs), MembersMeaning(ts, cs))
    decreases MembersDepth(fs) + 1, 0, |fs| + |ts|
  {
    hide InStep, CompareStrings, KeyedMembers;
    if fs != [] || ts != [] {
      if ts == [] || (fs != [] && CompareStrings(fs[0].key, ts[0].key, true) < 0) {
        FirstOnlyInFrom(fs, ts, gen, cs);
      } else if fs == [] || CompareStrings(fs[0].key, ts[0].key, true) > 0 {
        FirstOnlyInGoal(fs, ts, gen, cs);
      } else {
        FirstInBoth(fs, ts, gen, cs);
      }
    }
  }

  lemma {:induction false} FirstOnlyInFrom(fs: seq<Member>, ts: seq<Member>, gen: bool, cs: bool)
    requires KeyedMembers(fs, cs) && KeyedMembers(ts, cs) && InStep(fs, ts)
    requires fs != [] && (ts == [] || CompareStrings(fs[0].key, ts[0].key, true) < 0)
    ensures KeyedMembers(DifferentMembers(fs, ts, gen), cs)
    ensures MembersMeaning(DifferentMembers(fs, ts, gen), cs)
         == DifferenceOfMembers(MembersMeaning(fs, cs), MembersMeaning(ts, cs))
    decreases MembersDepth(fs) + 1, 0, |fs| + |ts|, 0
  {
    hide InStep, CompareStrings, KeyedMembers, StrictlySorted, DifferenceOfMembers, MembersMeaning, Less, Fold;
    var k := Fold(fs[0].key, cs);
    HeadsInStep(fs, ts, cs);
    SortedTail(fs, cs);
    KeyedTail(fs, cs);
    NotBelowHead(k, ts, cs);
    InStepRests(fs, ts, fs[1..], ts);
    DifferentMembersIsDifference(fs[1..], ts, gen, cs);
    OnlyInFrom(MembersMeaning(fs[1..], cs), MembersMeaning(ts, cs), k, Meaning(fs[0].value, cs));
    NotInDifference(MembersMeaning(fs[1..], cs), MembersMeaning(ts, cs), k);
    ConsMember(Member(fs[0].key, Null), DifferentMembers(fs[1..], ts, gen), cs);
  }

  lemma NotInDifference(f: map<string, Value>, t: map<string, Value>, k: string)
    requires k !in f && k !in t
    ensures k !in DifferenceOfMembers(f, t)
  {
  }

  lemma {:induction false} FirstOnlyInGoal(fs: seq<Member>, ts: seq<Member>, gen: bool, cs: bool)
    requires KeyedMembers(fs, cs) && KeyedMembers(ts, cs) && InStep(fs, ts)
    requires ts != [] && (fs == [] || CompareStrings(fs[0].key, ts[0].key, true) > 0)
    ensures KeyedMembers(DifferentMembers(fs, ts, gen), cs)
    ensures MembersMeaning(DifferentMembers(fs, ts, gen), cs)
         == DifferenceOfMembers(MembersMeaning(fs, cs), MembersMeaning(ts, cs))
    decreases MembersDepth(fs) + 1, 0, |fs| + |ts|, 0
  {
    hide InStep, CompareStrings, KeyedMembers, StrictlySorted, DifferenceOfMembers, MembersMeaning, Less, Fold;
    var k := Fold(ts[0].key, cs);
    HeadsInStep(fs, ts, cs);
    SortedTail(ts, cs);
    KeyedTail(ts, cs);
    NotBelowHead(k, fs, cs);
    InStepRests(fs, ts, fs, ts[1..]);
    DifferentMembersIsDifference(fs, ts[1..], gen, cs);
    OnlyInGoal(MembersMeaning(fs, cs), MembersMeaning(ts[1..], cs), k, Meaning(ts[0].value, cs));
    NotInDifference(MembersMeaning(fs, cs), MembersMeaning(ts[1..], cs), k);
    ConsMember(ts[0], DifferentMembers(fs, ts[1..], gen), cs);
  }

  lemma {:induction false} FirstInBoth(fs: seq<Member>, ts: seq<Member>, gen: bool, cs: bool)
    requires KeyedMembers(fs, cs) && KeyedMembers(ts, cs) && InStep(fs, ts)
    requires fs != [] && ts != [] && CompareStrings(fs[0].key, ts[0].key, true) == 0
    ensures KeyedMembers(DifferentMembers(fs, ts, gen), cs)
    ensures MembersMeaning(DifferentMembers(fs, ts, gen), cs)
         == DifferenceOfMembers(MembersMeaning(fs, cs), MembersMeaning(ts, cs))
    decreases MembersDepth(fs) + 1, 0, |fs| + |ts|, 0
  {
    var k, f, t := Fold(ts[0].key, cs), fs[0].value, ts[0].value;
    HeadsInStep(fs, ts, cs);
    assert AlikeTrees(f, t);
    hide InStep, CompareStrings, KeyedMembers, StrictlySorted, CompareJson, Keyed, Meaning, MembersMeaning, AlikeTrees, Fold,
      NestedPatch, Difference, DifferenceOfMembers;
    SortedTail(fs, cs);
    SortedTail(ts, cs);
    KeyedTail(fs, cs);
    KeyedTail(ts, cs);
    CompareJsonOfAlike(f, t, gen, cs);
    InStepRests(fs, ts, fs[1..], ts[1..]);
    DifferentMembersIsDifference(fs[1..], ts[1..], gen, cs);
    NestedIsDifference(f, t, gen, cs);
    InBoth(MembersMeaning(fs[1..], cs), MembersMeaning(ts[1..], cs), k, Meaning(f, cs), Meaning(t, cs));
    if !CompareJson(f, t, gen) {
      NotInDifference(MembersMeaning(fs[1..], cs), MembersMeaning(ts[1..], cs), k);
      ConsMember(Member(ts[0].key, NestedPatch(f, t, gen).value),
                 DifferentMembers(fs[1..], ts[1..], gen), cs);
    }
  }

  lemma {:induction false} NestedIsDifference(f: Json, t: Json, gen: bool, cs: bool)
    requires Keyed(f, cs) && Keyed(t, cs) && AlikeTrees(f, t)
    ensures var g := NestedPatch(f, t, gen);
            && (g.None? <==> f.Object? && t.Object? && Meaning(f, cs) == Meaning(t, cs))
            && (g.Some? ==> Keyed(g.value, cs) && Meaning(g.value, cs) == Difference(Meaning(f, cs), Meaning(t, cs)))
    decreases Depth(f), 2, 0
  {
    KeyedByBytes(f, cs);
    KeyedByBytes(t, cs);
    CompareKeepsDepth(f, t, gen);
    CompareKeepsMeaning(f, t, gen, cs);
    CompareKeepsMeaning(t, f, gen, cs);
    CompareKeepsMeaning(f, t, gen, true);
    CompareKeepsMeaning(t, f, gen, true);
    GenerateIsDifference(AfterCompare(f, t, gen), AfterCompare(t, f, gen), false, cs);
    hide Keyed, Meaning, GenerateMergePatch, Difference, CompareJson, Alike;
  }

  /** The round trip of merge patches, exactly: merging the generated patch into the document gives the
      goal if and only if no null of the goal stands where something must change; and no patch is
      generated if and only if both documents are equal objects. */
  lemma MergePatchTakesFromToGoal(from: Json, goal: Json, gen: bool, cs: bool)
    requires Keyed(from, cs) && Keyed(goal, cs) && AlikeTrees(from, goal)
    ensures var g := GenerateMergePatch(Some(from), Some(goal), gen);
            && (g.None? <==> from.Object? && goal.Object? && Meaning(from, cs) == Meaning(goal, cs))
            && (g.Some? ==>
                  (Meaning(MergePatch(Some(from), g.value, cs), cs) == Meaning(goal, cs)
                   <==> NullsKept(Meaning(from, cs), Meaning(goal, cs))))
  {
    GenerateIsDifference(from, goal, gen, cs);
    hide GenerateMergePatch, MergePatch, Keyed, Meaning, NullsKept, RfcMerge, Difference, Alike;
    var g := GenerateMergePatch(Some(from), Some(goal), gen);
    if g.Some? {
      MergePatchIsRfc(Some(from), g.value, cs);
      MergeUndoesDifference(Meaning(from, cs), Meaning(goal, cs));
    }
  }

  /** The documents for which the difference can always be expressed. */
  lemma NullFreeGoalIsReached(from: Json, goal: Json, gen: bool, cs: bool)
    requires Keyed(from, cs) && Keyed(goal, cs) && AlikeTrees(from, goal) && NullFree(Meaning(goal, cs))
    requires GenerateMergePatch(Some(from), Some(goal), gen).Some?
    ensures Meaning(MergePatch(Some(from), GenerateMergePatch(Some(from), Some(goal), gen).value, cs), cs)
         == Meaning(goal, cs)
  {
    NullFreeSuffices(Meaning(from, cs), Meaning(goal, cs));
    MergePatchTakesFromToGoal(from, goal, gen, cs);
  }
}
