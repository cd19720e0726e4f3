/** The two structural equalities of the library, and the equality of meanings that both decide. */
module Compare {
  import opened Text
  import opened Json
  import opened Sorting

  function KeyOf(m: Member): string { m.key }

  /** `sort_object` on a member list. */
  function SortMembers(ms: seq<Member>, cs: bool): (sorted: seq<Member>)
    ensures |sorted| == |ms| && forall m :: m in sorted <==> m in ms
    ensures forall i :: 0 <= i < |sorted| ==> Depth(sorted[i].value) <= MembersDepth(ms)
    ensures MembersDepth(sorted) <= MembersDepth(ms)
  {
    SortKeepsMembers(ms, KeyOf, cs);
    var sorted := SortList(ms, KeyOf, cs);
    assert forall i :: 0 <= i < |sorted| ==> sorted[i] in ms;
    MembersDepthIsLeast(sorted, MembersDepth(ms));
    sorted
  }

  lemma SortedDepth(ms: seq<Member>, cs: bool)
    ensures MembersDepth(SortMembers(ms, cs)) <= MembersDepth(ms)
  {
  }

  lemma {:induction false} MembersDepthIsLeast(ms: seq<Member>, d: nat)
    requires forall i :: 0 <= i < |ms| ==> Depth(ms[i].value) <= d
    ensures MembersDepth(ms) <= d
  {
    if ms != [] {
      assert forall i :: 0 <= i < |ms[1..]| ==> ms[1..][i] == ms[i + 1];
      MembersDepthIsLeast(ms[1..], d);
    }
  }

  /** Byte order is asked for only where it comes out right: at every object, the byte order of the keys
      is also their order when letter case is ignored. */
  ghost predicate Sortable(j: Json, cs: bool)
    decreases j
  {
    match j
    case Array(items) => forall i :: 0 <= i < |items| ==> Sortable(items[i], cs)
    case Object(ms) => (cs ==> SameOrder(ms, KeyOf)) && forall i :: 0 <= i < |ms| ==> Sortable(ms[i].value, cs)
    case _ => true
  }

  /** The same for values, whose keys are those of the members when letter case counts. */
  ghost predicate OrdersAgree(v: Value)
    decreases v
  {
    match v
    case VArray(items) => forall i :: 0 <= i < |items| ==> OrdersAgree(items[i])
    case VObject(ms) =>
      && (forall x <- ms, y <- ms :: Less(x, y) ==> Less(Lower(x), Lower(y)))
      && forall k <- ms :: OrdersAgree(ms[k])
    case _ => true
  }

  lemma {:induction false} OrdersAgreeIsSortable(j: Json, cs: bool)
    requires Keyed(j, cs) && (cs ==> OrdersAgree(Meaning(j, cs)))
    ensures Sortable(j, cs)
    decreases j
  {
    match j
    case Array(items) =>
      forall i | 0 <= i < |items| ensures Sortable(items[i], cs) {
        assert Meaning(j, cs).items[i] == Meaning(items[i], cs);
        OrdersAgreeIsSortable(items[i], cs);
      }
    case Object(ms) =>
      forall i | 0 <= i < |ms| ensures Sortable(ms[i].value, cs) && Fold(ms[i].key, cs) in MembersMeaning(ms, cs) {
        MeaningAtMember(ms, i, cs);
        OrdersAgreeIsSortable(ms[i].value, cs);
      }
    case _ =>
  }

  /** Sorting changes the order of members and nothing else, whatever order it is by and however it comes out. */
  lemma SortKeepsMeaning(ms: seq<Member>, flag: bool, cs: bool)
    requires KeyedMembers(ms, cs)
    ensures KeyedMembers(SortMembers(ms, flag), cs)
    ensures MembersMeaning(SortMembers(ms, flag), cs) == MembersMeaning(ms, cs)
  {
    var sorted := SortMembers(ms, flag);
    SortPermutes(ms, KeyOf, flag);
    assert Distinct(ms, KeyOf, cs);
    DistinctIsOrderFree(ms, sorted, KeyOf, cs);
    assert DistinctKeys(sorted, cs) by {
      forall i, j | 0 <= i < j < |sorted| ensures Fold(sorted[i].key, cs) != Fold(sorted[j].key, cs) {
        assert Fold(KeyOf(sorted[i]), cs) != Fold(KeyOf(sorted[j]), cs);
      }
    }
    forall i | 0 <= i < |sorted| ensures Keyed(sorted[i].value, cs) {
      assert sorted[i] in ms;
    }
    MeaningOfPermutation(sorted, ms, cs);
  }

  lemma MembersSorted(ms: seq<Member>, cs: bool)
    requires KeyedMembers(ms, cs) && (cs ==> SameOrder(ms, KeyOf))
    ensures StrictlySorted(SortMembers(ms, cs), KeyOf, cs)
  {
    assert Distinct(ms, KeyOf, cs);
    SortSorts(ms, KeyOf, cs);
  }

  lemma SortedTail(ms: seq<Member>, cs: bool)
    requires ms != [] && StrictlySorted(ms, KeyOf, cs)
    ensures StrictlySorted(ms[1..], KeyOf, cs)
    ensures forall i :: 0 <= i < |ms[1..]| ==> Less(Fold(ms[0].key, cs), Fold(ms[1..][i].key, cs))
    ensures Fold(ms[0].key, cs) !in MembersMeaning(ms[1..], cs)
    ensures MembersMeaning(ms, cs) == MembersMeaning(ms[1..], cs)[Fold(ms[0].key, cs) := Meaning(ms[0].value, cs)]
  {
    forall i | 0 <= i < |ms[1..]| ensures Less(Fold(ms[0].key, cs), Fold(ms[1..][i].key, cs)) {
      assert Less(Fold(KeyOf(ms[0]), cs), Fold(KeyOf(ms[i + 1]), cs));
    }
    if Fold(ms[0].key, cs) in MembersMeaning(ms[1..], cs) {
      MeaningHasOnlyMembers(ms[1..], cs, Fold(ms[0].key, cs));
      LessIrreflexive(Fold(ms[0].key, cs));
    }
  }

  lemma NotBelowHead(k: string, ms: seq<Member>, cs: bool)
    requires StrictlySorted(ms, KeyOf, cs) && (ms != [] ==> Less(k, Fold(ms[0].key, cs)))
    ensures forall i :: 0 <= i < |ms| ==> Fold(ms[i].key, cs) != k
    ensures k !in MembersMeaning(ms, cs)
  {
    forall i | 0 <= i < |ms| ensures Fold(ms[i].key, cs) != k {
      LessIrreflexive(k);
      if i > 0 {
        assert Less(Fold(KeyOf(ms[0]), cs), Fold(KeyOf(ms[i]), cs));
        LessTransitive(k, Fold(ms[0].key, cs), Fold(ms[i].key, cs));
      }
    }
    if k in MembersMeaning(ms, cs) {
      MeaningHasOnlyMembers(ms, cs, k);
    }
  }

  /** `compare_json`: objects are sorted, then zipped. */
  predicate CompareJson(a: Json, b: Json, cs: bool)
    decreases Depth(a)
  {
    match (a, b)
    case (Number(m), Number(n)) => m == n
    case (String(s), String(t)) => s == t
    case (Array(xs), Array(ys)) =>
      |xs| == |ys| && forall i :: 0 <= i < |xs| ==> CompareJson(xs[i], ys[i], cs)
    case (Object(ms), Object(ns)) =>
      var xs, ys := SortMembers(ms, cs), SortMembers(ns, cs);
      && |xs| == |ys|
      && forall i :: 0 <= i < |xs| ==>
           CompareStrings(xs[i].key, ys[i].key, cs) == 0 && CompareJson(xs[i].value, ys[i].value, cs)
    case _ => SameKind(a, b)
  }

  /** What `compare_json` leaves of its first operand: it sorts objects where they stand, until it finds a
      difference. */
  function AfterCompare(a: Json, b: Json, cs: bool): Json
    decreases Depth(a), 1
  {
    match (a, b)
    case (Array(xs), Array(ys)) => Array(ItemsAfterCompare(xs, ys, cs))
    case (Object(ms), Object(ns)) => Object(MembersAfterCompare(SortMembers(ms, cs), SortMembers(ns, cs), cs))
    case _ => a
  }

  function ItemsAfterCompare(xs: seq<Json>, ys: seq<Json>, cs: bool): seq<Json>
    decreases ItemsDepth(xs) + 1, 0, |xs|
  {
    if xs == [] || ys == [] then xs
    else
      [AfterCompare(xs[0], ys[0], cs)]
      + (if CompareJson(xs[0], ys[0], cs) then ItemsAfterCompare(xs[1..], ys[1..], cs) else xs[1..])
  }

  function MembersAfterCompare(xs: seq<Member>, ys: seq<Member>, cs: bool): seq<Member>
    decreases MembersDepth(xs) + 1, 0, |xs|
  {
    if xs == [] || ys == [] || CompareStrings(xs[0].key, ys[0].key, cs) != 0 then xs
    else
      [Member(xs[0].key, AfterCompare(xs[0].value, ys[0].value, cs))]
      + (if CompareJson(xs[0].value, ys[0].value, cs) then MembersAfterCompare(xs[1..], ys[1..], cs) else xs[1..])
  }

  lemma {:induction false} CompareKeepsDepth(a: Json, b: Json, cs: bool)
    ensures Depth(AfterCompare(a, b, cs)) <= Depth(a)
    decreases Depth(a), 1
  {
    match (a, b)
    case (Array(xs), Array(ys)) => ItemsKeepDepth(xs, ys, cs);
    case (Object(ms), Object(ns)) => MembersKeepDepth(SortMembers(ms, cs), SortMembers(ns, cs), cs);
    case _ =>
  }

  lemma {:induction false} ItemsKeepDepth(xs: seq<Json>, ys: seq<Json>, cs: bool)
    ensures ItemsDepth(ItemsAfterCompare(xs, ys, cs)) <= ItemsDepth(xs)
    decreases ItemsDepth(xs) + 1, 0, |xs|
  {
    if xs != [] && ys != [] {
      CompareKeepsDepth(xs[0], ys[0], cs);
      ItemsKeepDepth(xs[1..], ys[1..], cs);
      hide AfterCompare, CompareJson;
      var zs := ItemsAfterCompare(xs, ys, cs);
      assert zs[1..] == if CompareJson(xs[0], ys[0], cs) then ItemsAfterCompare(xs[1..], ys[1..], cs) else xs[1..];
    }
  }

  lemma {:induction false} MembersKeepDepth(xs: seq<Member>, ys: seq<Member>, cs: bool)
    ensures MembersDepth(MembersAfterCompare(xs, ys, cs)) <= MembersDepth(xs)
    decreases MembersDepth(xs) + 1, 0, |xs|
  {
    if !(xs == [] || ys == [] || CompareStrings(xs[0].key, ys[0].key, cs) != 0) {
      CompareKeepsDepth(xs[0].value, ys[0].value, cs);
      MembersKeepDepth(xs[1..], ys[1..], cs);
      hide AfterCompare, CompareJson, CompareStrings;
      var zs := MembersAfterCompare(xs, ys, cs);
      assert zs[1..]
          == if CompareJson(xs[0].value, ys[0].value, cs) then MembersAfterCompare(xs[1..], ys[1..], cs) else xs[1..];
    }
  }

  /** Comparing changes the order of members and nothing else. */
  lemma {:induction false} CompareKeepsMeaning(a: Json, b: Json, flag: bool, cs: bool)
    requires Keyed(a, cs)
    ensures Keyed(AfterCompare(a, b, flag), cs) && Meaning(AfterCompare(a, b, flag), cs) == Meaning(a, cs)
    decreases Depth(a), 1
  {
    if a.Array? && b.Array? {
      ItemsKeepMeaning(a.items, b.items, flag, cs);
      ArraysAgree(ItemsAfterCompare(a.items, b.items, flag), a.items, cs);
    } else if a.Object? && b.Object? {
      KeyedObject(a, cs);
      KeyedObject(AfterCompare(a, b, flag), cs);
      var xs, ys := SortMembers(a.members, flag), SortMembers(b.members, flag);
      SortKeepsMeaning(a.members, flag, cs);
      hide Keyed, Meaning, MembersMeaning, Fold, SortMembers;
      MembersKeepMeaning(xs, ys, flag, cs);
      SameButForOrder(MembersAfterCompare(xs, ys, flag), xs, cs);
    }
  }

  lemma {:induction false} ItemsKeepMeaning(xs: seq<Json>, ys: seq<Json>, flag: bool, cs: bool)
    requires forall i :: 0 <= i < |xs| ==> Keyed(xs[i], cs)
    ensures var zs := ItemsAfterCompare(xs, ys, flag);
      |zs| == |xs| && forall i :: 0 <= i < |xs| ==> Keyed(zs[i], cs) && Meaning(zs[i], cs) == Meaning(xs[i], cs)
    decreases ItemsDepth(xs) + 1, 0, |xs|
  {
    hide Keyed, Meaning, AfterCompare, CompareJson;
    if xs != [] && ys != [] {
      CompareKeepsMeaning(xs[0], ys[0], flag, cs);
      assert forall i :: 0 <= i < |xs[1..]| ==> xs[1..][i] == xs[i + 1];
      ItemsKeepMeaning(xs[1..], ys[1..], flag, cs);
    }
  }

  /** The same keys in the same places, over values that mean the same. */
  ghost predicate MembersAgree(zs: seq<Member>, xs: seq<Member>, cs: bool) {
    && |zs| == |xs|
    && forall i :: 0 <= i < |xs| ==>
         zs[i].key == xs[i].key && Keyed(zs[i].value, cs) && Meaning(zs[i].value, cs) == Meaning(xs[i].value, cs)
  }

  lemma {:induction false} MembersKeepMeaning(xs: seq<Member>, ys: seq<Member>, flag: bool, cs: bool)
    requires forall i :: 0 <= i < |xs| ==> Keyed(xs[i].value, cs)
    ensures MembersAgree(MembersAfterCompare(xs, ys, flag), xs, cs)
    decreases MembersDepth(xs) + 1, 0, |xs|
  {
    hide Keyed, Meaning, AfterCompare, CompareJson, CompareStrings;
    if !(xs == [] || ys == [] || CompareStrings(xs[0].key, ys[0].key, flag) != 0) {
      CompareKeepsMeaning(xs[0].value, ys[0].value, flag, cs);
      assert forall i :: 0 <= i < |xs[1..]| ==> xs[1..][i] == xs[i + 1];
      MembersKeepMeaning(xs[1..], ys[1..], flag, cs);
    }
  }

  lemma SameButForOrder(zs: seq<Member>, xs: seq<Member>, cs: bool)
    requires KeyedMembers(xs, cs) && MembersAgree(zs, xs, cs)
    ensures KeyedMembers(zs, cs) && MembersMeaning(zs, cs) == MembersMeaning(xs, cs)
  {
    hide Keyed, Meaning, MembersMeaning, Fold;
    ZippedMeanTheSame(zs, xs, cs);
  }

  predicate SameKind(a: Json, b: Json) {
    match a
    case Invalid => b.Invalid?
    case Null => b.Null?
    case False => b.False?
    case True => b.True?
    case Number(_) => b.Number?
    case String(_) => b.String?
    case Array(_) => b.Array?
    case Object(_) => b.Object?
  }

  /** `cJSON_Compare`: every member of one object is looked up in the other, both ways round. */
  predicate Equal(a: Json, b: Json, cs: bool)
    decreases Depth(a) + Depth(b)
  {
    match (a, b)
    case (Invalid, _) => false
    case (Number(m), Number(n)) => m == n
    case (String(s), String(t)) => s == t
    case (Array(xs), Array(ys)) =>
      |xs| == |ys| && forall i :: 0 <= i < |xs| ==> Equal(xs[i], ys[i], cs)
    case (Object(ms), Object(ns)) => Includes(ms, ns, cs) && Includes(ns, ms, cs)
    case _ => SameKind(a, b)
  }

  predicate Includes(ms: seq<Member>, ns: seq<Member>, cs: bool)
    decreases MembersDepth(ms) + MembersDepth(ns) + 1
  {
    forall i :: 0 <= i < |ms| ==>
      var j := Find(ns, ms[i].key, cs);
      j < |ns| && Equal(ms[i].value, ns[j].value, cs)
  }

  /** A strictly sorted sequence is determined by its elements. */
  lemma {:induction false} SortedIsUnique(a: seq<string>, b: seq<string>)
    requires forall i, j :: 0 <= i < j < |a| ==> Less(a[i], a[j])
    requires forall i, j :: 0 <= i < j < |b| ==> Less(b[i], b[j])
    requires forall k :: k in a <==> k in b
    ensures a == b
  {
    if a == [] {
      SomeElement(b);
    } else {
      assert a[0] in a && a[0] in b;
      assert b[0] in b && b[0] in a;
      LeastIsHead(a, b[0]);
      LeastIsHead(b, a[0]);
      if a[0] != b[0] { LessAsymmetric(a[0], b[0]); }
      forall k ensures k in a[1..] <==> k in b[1..] {
        TailElements(a, k);
        TailElements(b, k);
      }
      SortedIsUnique(a[1..], b[1..]);
      assert a == [a[0]] + a[1..] && b == [b[0]] + b[1..];
    }
  }

  lemma SomeElement(b: seq<string>)
    ensures b == [] || exists k :: k in b
  {
    if b != [] { assert b[0] in b; }
  }

  lemma LeastIsHead(a: seq<string>, k: string)
    requires forall i, j :: 0 <= i < j < |a| ==> Less(a[i], a[j])
    requires k in a
    ensures k == a[0] || Less(a[0], k)
  {
  }

  lemma TailElements(a: seq<string>, k: string)
    requires forall i, j :: 0 <= i < j < |a| ==> Less(a[i], a[j])
    requires a != []
    ensures k in a[1..] <==> k in a && k != a[0]
  {
    LessIrreflexive(a[0]);
    if k in a && k != a[0] {
      var i :| 0 <= i < |a| && a[i] == k;
      assert a[1..][i - 1] == k;
    }
    if k in a[1..] {
      var i :| 0 <= i < |a[1..]| && a[1..][i] == k;
      assert a[i + 1] == k && Less(a[0], a[i + 1]);
    }
  }

  function KeysOf(ms: seq<Member>, cs: bool): seq<string> {
    seq(|ms|, i requires 0 <= i < |ms| => Fold(ms[i].key, cs))
  }

  lemma SameKeysInOrder(xs: seq<Member>, ys: seq<Member>, cs: bool)
    requires StrictlySorted(xs, KeyOf, cs) && StrictlySorted(ys, KeyOf, cs)
    requires MembersMeaning(xs, cs).Keys == MembersMeaning(ys, cs).Keys
    requires DistinctKeys(xs, cs) && DistinctKeys(ys, cs)
    ensures KeysOf(xs, cs) == KeysOf(ys, cs)
  {
    forall k ensures k in KeysOf(xs, cs) <==> k in KeysOf(ys, cs) {
      KeysAreMapKeys(xs, cs, k);
      KeysAreMapKeys(ys, cs, k);
      assert k in MembersMeaning(xs, cs).Keys <==> k in MembersMeaning(ys, cs).Keys;
    }
    forall i, j | 0 <= i < j < |xs| ensures Less(KeysOf(xs, cs)[i], KeysOf(xs, cs)[j]) {
      assert Less(Fold(KeyOf(xs[i]), cs), Fold(KeyOf(xs[j]), cs));
    }
    forall i, j | 0 <= i < j < |ys| ensures Less(KeysOf(ys, cs)[i], KeysOf(ys, cs)[j]) {
      assert Less(Fold(KeyOf(ys[i]), cs), Fold(KeyOf(ys[j]), cs));
    }
    SortedIsUnique(KeysOf(xs, cs), KeysOf(ys, cs));
  }

  lemma KeysAreMapKeys(xs: seq<Member>, cs: bool, k: string)
    requires DistinctKeys(xs, cs)
    ensures k in KeysOf(xs, cs) <==> k in MembersMeaning(xs, cs)
  {
    if k in KeysOf(xs, cs) {
      var i :| 0 <= i < |xs| && KeysOf(xs, cs)[i] == k;
      MeaningAtMember(xs, i, cs);
    }
    if k in MembersMeaning(xs, cs) {
      MeaningHasOnlyMembers(xs, cs, k);
      var i :| 0 <= i < |xs| && Fold(xs[i].key, cs) == k;
      assert KeysOf(xs, cs)[i] == k;
    }
  }

  /** Trees that sort-and-zip finds equal mean the same, whatever their keys are. */
  lemma {:induction false} EqualFoundIsEqual(a: Json, b: Json, cs: bool)
    requires Keyed(a, cs) && Keyed(b, cs) && CompareJson(a, b, cs)
    ensures Meaning(a, cs) == Meaning(b, cs)
    decreases Depth(a)
  {
    if a.Array? && b.Array? {
      forall i | 0 <= i < |a.items| ensures Meaning(a.items[i], cs) == Meaning(b.items[i], cs) {
        EqualFoundIsEqual(a.items[i], b.items[i], cs);
      }
      ArraysAgree(a.items, b.items, cs);
    } else if a.Object? && b.Object? {
      var xs, ys := SortMembers(a.members, cs), SortMembers(b.members, cs);
      SortedComparison(a.members, b.members, cs);
      KeyedObject(a, cs);
      KeyedObject(b, cs);
      SortKeepsMeaning(a.members, cs, cs);
      SortKeepsMeaning(b.members, cs, cs);
      hide MembersMeaning, Meaning, Less, Fold;
      forall i | 0 <= i < |xs|
        ensures Fold(xs[i].key, cs) == Fold(ys[i].key, cs) && Meaning(xs[i].value, cs) == Meaning(ys[i].value, cs)
      {
        EqualFoundIsEqual(xs[i].value, ys[i].value, cs);
      }
      ZippedMeanTheSame(xs, ys, cs);
    }
  }

  /** And every tree is found equal to itself. */
  lemma {:induction false} CompareJsonReflexive(a: Json, cs: bool)
    ensures CompareJson(a, a, cs)
    decreases Depth(a)
  {
    if a.Array? {
      forall i | 0 <= i < |a.items| ensures CompareJson(a.items[i], a.items[i], cs) {
        CompareJsonReflexive(a.items[i], cs);
      }
    } else if a.Object? {
      var xs := SortMembers(a.members, cs);
      forall i | 0 <= i < |xs| ensures CompareJson(xs[i].value, xs[i].value, cs) {
        CompareJsonReflexive(xs[i].value, cs);
      }
      SortedComparison(a.members, a.members, cs);
    }
  }

  lemma {:induction false} CompareJsonSymmetric(a: Json, b: Json, cs: bool)
    ensures CompareJson(a, b, cs) == CompareJson(b, a, cs)
    decreases Depth(a)
  {
    if a.Array? && b.Array? {
      forall i | 0 <= i < |a.items| && i < |b.items|
        ensures CompareJson(a.items[i], b.items[i], cs) == CompareJson(b.items[i], a.items[i], cs)
      {
        CompareJsonSymmetric(a.items[i], b.items[i], cs);
      }
    } else if a.Object? && b.Object? {
      var xs, ys := SortMembers(a.members, cs), SortMembers(b.members, cs);
      forall i | 0 <= i < |xs| && i < |ys|
        ensures CompareJson(xs[i].value, ys[i].value, cs) == CompareJson(ys[i].value, xs[i].value, cs)
        ensures CompareStrings(xs[i].key, ys[i].key, cs) == 0 <==> CompareStrings(ys[i].key, xs[i].key, cs) == 0
      {
        CompareJsonSymmetric(xs[i].value, ys[i].value, cs);
      }
      hide SortMembers, CompareStrings;
      SortedComparison(a.members, b.members, cs);
      SortedComparison(b.members, a.members, cs);
    }
  }

  /** Where keys are sorted right, sort-and-zip decides equality of meanings. */
  lemma {:induction false} CompareJsonIsEqualMeaning(a: Json, b: Json, cs: bool)
    requires Sortable(a, cs) && Sortable(b, cs)
    requires Keyed(a, cs) && Keyed(b, cs)
    ensures CompareJson(a, b, cs) <==> Meaning(a, cs) == Meaning(b, cs)
    decreases Depth(a), 1
  {
    if a.Array? && b.Array? {
      CompareJsonOnArrays(a, b, cs);
    } else if a.Object? && b.Object? {
      CompareJsonOnObjects(a, b, cs);
    }
  }

  lemma {:induction false} CompareJsonOnArrays(a: Json, b: Json, cs: bool)
    requires Sortable(a, cs) && Sortable(b, cs)
    requires Keyed(a, cs) && Keyed(b, cs) && a.Array? && b.Array?
    ensures CompareJson(a, b, cs) <==> Meaning(a, cs) == Meaning(b, cs)
    decreases Depth(a), 0
  {
    var xs, ys := a.items, b.items;
    forall i | 0 <= i < |xs| && i < |ys|
      ensures CompareJson(xs[i], ys[i], cs) <==> Meaning(xs[i], cs) == Meaning(ys[i], cs)
    {
      CompareJsonIsEqualMeaning(xs[i], ys[i], cs);
    }
    ArraysAgree(xs, ys, cs);
  }

  lemma {:induction false} CompareJsonOnObjects(a: Json, b: Json, cs: bool)
    requires Sortable(a, cs) && Sortable(b, cs)
    requires Keyed(a, cs) && Keyed(b, cs) && a.Object? && b.Object?
    ensures CompareJson(a, b, cs) <==> Meaning(a, cs) == Meaning(b, cs)
    decreases Depth(a), 0
  {
    var ms, ns := a.members, b.members;
    var xs, ys := SortMembers(ms, cs), SortMembers(ns, cs);
    assert KeyedMembers(ms, cs) && KeyedMembers(ns, cs);
    SortKeepsMeaning(ms, cs, cs);
    SortKeepsMeaning(ns, cs, cs);
    MembersSorted(ms, cs);
    MembersSorted(ns, cs);
    forall i | 0 <= i < |xs| && i < |ys|
      ensures CompareJson(xs[i].value, ys[i].value, cs) <==> Meaning(xs[i].value, cs) == Meaning(ys[i].value, cs)
    {
      SortableMember(ms, xs[i], cs);
      SortableMember(ns, ys[i], cs);
      CompareJsonIsEqualMeaning(xs[i].value, ys[i].value, cs);
    }
    ZippedObjects(ms, ns, cs);
    ZipIsMapEquality(xs, ys, cs);
  }

  lemma SortableMember(ms: seq<Member>, m: Member, cs: bool)
    requires Sortable(Object(ms), cs) && m in ms
    ensures Sortable(m.value, cs)
  {
  }

  lemma SortedComparison(ms: seq<Member>, ns: seq<Member>, cs: bool)
    ensures CompareJson(Object(ms), Object(ns), cs) <==> EqualInOrder(SortMembers(ms, cs), SortMembers(ns, cs), cs)
  {
    hide SortMembers, CompareStrings;
  }

  /** The loop of `compare_json` over two sorted lists. */
  ghost predicate EqualInOrder(xs: seq<Member>, ys: seq<Member>, cs: bool) {
    && |xs| == |ys|
    && forall i :: 0 <= i < |xs| ==>
         CompareStrings(xs[i].key, ys[i].key, cs) == 0 && CompareJson(xs[i].value, ys[i].value, cs)
  }

  lemma ZippedObjects(ms: seq<Member>, ns: seq<Member>, cs: bool)
    requires var xs, ys := SortMembers(ms, cs), SortMembers(ns, cs);
             forall i :: 0 <= i < |xs| && i < |ys| ==>
               (CompareJson(xs[i].value, ys[i].value, cs) <==> Meaning(xs[i].value, cs) == Meaning(ys[i].value, cs))
    ensures CompareJson(Object(ms), Object(ns), cs) <==> Zips(SortMembers(ms, cs), SortMembers(ns, cs), cs)
  {
    SortedComparison(ms, ns, cs);
    hide SortMembers, CompareJson, Meaning;
  }

  lemma ArraysAgree(xs: seq<Json>, ys: seq<Json>, cs: bool)
    ensures Meaning(Array(xs), cs) == Meaning(Array(ys), cs)
        <==> |xs| == |ys| && forall i :: 0 <= i < |xs| ==> Meaning(xs[i], cs) == Meaning(ys[i], cs)
  {
    var a, b := Meaning(Array(xs), cs).items, Meaning(Array(ys), cs).items;
    assert |a| == |xs| && |b| == |ys|;
    assert forall i :: 0 <= i < |xs| ==> a[i] == Meaning(xs[i], cs);
    assert forall i :: 0 <= i < |ys| ==> b[i] == Meaning(ys[i], cs);
  }

  ghost predicate Zips(xs: seq<Member>, ys: seq<Member>, cs: bool) {
    && |xs| == |ys|
    && forall i :: 0 <= i < |xs| ==>
         Fold(xs[i].key, cs) == Fold(ys[i].key, cs) && Meaning(xs[i].value, cs) == Meaning(ys[i].value, cs)
  }

  lemma ZippedMeanTheSame(xs: seq<Member>, ys: seq<Member>, cs: bool)
    requires DistinctKeys(xs, cs) && DistinctKeys(ys, cs) && Zips(xs, ys, cs)
    ensures MembersMeaning(xs, cs) == MembersMeaning(ys, cs)
  {
    forall i | 0 <= i < |xs|
      ensures Fold(xs[i].key, cs) in MembersMeaning(ys, cs)
           && MembersMeaning(ys, cs)[Fold(xs[i].key, cs)] == Meaning(xs[i].value, cs)
    {
      MeaningAtMember(ys, i, cs);
    }
    forall k <- MembersMeaning(ys, cs) ensures exists i :: 0 <= i < |xs| && Fold(xs[i].key, cs) == k {
      MeaningHasOnlyMembers(ys, cs, k);
      var i :| 0 <= i < |ys| && Fold(ys[i].key, cs) == k;
      assert Fold(xs[i].key, cs) == k;
    }
    MeaningIs(xs, MembersMeaning(ys, cs), cs);
  }

  lemma ZipIsMapEquality(xs: seq<Member>, ys: seq<Member>, cs: bool)
    requires StrictlySorted(xs, KeyOf, cs) && StrictlySorted(ys, KeyOf, cs)
    requires DistinctKeys(xs, cs) && DistinctKeys(ys, cs)
    ensures Zips(xs, ys, cs) <==> MembersMeaning(xs, cs) == MembersMeaning(ys, cs)
  {
    if Zips(xs, ys, cs) { ZippedMeanTheSame(xs, ys, cs); }
    if MembersMeaning(xs, cs) == MembersMeaning(ys, cs) {
      SameKeysInOrder(xs, ys, cs);
      assert |KeysOf(xs, cs)| == |KeysOf(ys, cs)|;
      forall i | 0 <= i < |xs|
        ensures Fold(xs[i].key, cs) == Fold(ys[i].key, cs) && Meaning(xs[i].value, cs) == Meaning(ys[i].value, cs)
      {
        assert KeysOf(xs, cs)[i] == KeysOf(ys, cs)[i];
        MeaningAtMember(xs, i, cs);
        MeaningAtMember(ys, i, cs);
      }
    }
  }

  /** Quadratic lookup decides equality of meanings. */
  lemma {:induction false} EqualIsEqualMeaning(a: Json, b: Json, cs: bool)
    requires Keyed(a, cs) && Keyed(b, cs)
    ensures Equal(a, b, cs) <==> Meaning(a, cs) == Meaning(b, cs)
    decreases Depth(a) + Depth(b), 1
  {
    if a.Array? && b.Array? {
      EqualOnArrays(a, b, cs);
    } else if a.Object? && b.Object? {
      EqualOnObjects(a, b, cs);
    }
  }

  lemma {:induction false} EqualOnArrays(a: Json, b: Json, cs: bool)
    requires Keyed(a, cs) && Keyed(b, cs) && a.Array? && b.Array?
    ensures Equal(a, b, cs) <==> Meaning(a, cs) == Meaning(b, cs)
    decreases Depth(a) + Depth(b), 0
  {
    var xs, ys := a.items, b.items;
    forall i | 0 <= i < |xs| && i < |ys|
      ensures Equal(xs[i], ys[i], cs) <==> Meaning(xs[i], cs) == Meaning(ys[i], cs)
    {
      EqualIsEqualMeaning(xs[i], ys[i], cs);
    }
    ArraysAgree(xs, ys, cs);
  }

  lemma {:induction false} EqualOnObjects(a: Json, b: Json, cs: bool)
    requires Keyed(a, cs) && Keyed(b, cs) && a.Object? && b.Object?
    ensures Equal(a, b, cs) <==> Meaning(a, cs) == Meaning(b, cs)
    decreases Depth(a) + Depth(b), 0
  {
    var ms, ns := a.members, b.members;
    forall i, j | 0 <= i < |ms| && 0 <= j < |ns|
      ensures Equal(ms[i].value, ns[j].value, cs) <==> Meaning(ms[i].value, cs) == Meaning(ns[j].value, cs)
      ensures Equal(ns[j].value, ms[i].value, cs) <==> Meaning(ms[i].value, cs) == Meaning(ns[j].value, cs)
    {
      EqualIsEqualMeaning(ms[i].value, ns[j].value, cs);
      EqualIsEqualMeaning(ns[j].value, ms[i].value, cs);
    }
    IncludesIsCovers(ms, ns, cs);
    IncludesIsCovers(ns, ms, cs);
    LookupsAreMapEquality(ms, ns, cs);
  }

  lemma IncludesIsCovers(ms: seq<Member>, ns: seq<Member>, cs: bool)
    requires forall i, j :: 0 <= i < |ms| && 0 <= j < |ns| ==>
               (Equal(ms[i].value, ns[j].value, cs) <==> Meaning(ms[i].value, cs) == Meaning(ns[j].value, cs))
    ensures Includes(ms, ns, cs) <==> Covers(ms, ns, cs)
  {
  }

  ghost predicate Covers(ms: seq<Member>, ns: seq<Member>, cs: bool) {
    forall i :: 0 <= i < |ms| ==>
      var j := Find(ns, ms[i].key, cs);
      j < |ns| && Meaning(ms[i].value, cs) == Meaning(ns[j].value, cs)
  }

  lemma LookupsAreMapEquality(ms: seq<Member>, ns: seq<Member>, cs: bool)
    requires DistinctKeys(ms, cs) && DistinctKeys(ns, cs)
    ensures Covers(ms, ns, cs) && Covers(ns, ms, cs) <==> MembersMeaning(ms, cs) == MembersMeaning(ns, cs)
  {
    if Covers(ms, ns, cs) && Covers(ns, ms, cs) {
      forall i | 0 <= i < |ms|
        ensures Fold(ms[i].key, cs) in MembersMeaning(ns, cs)
             && MembersMeaning(ns, cs)[Fold(ms[i].key, cs)] == Meaning(ms[i].value, cs)
      {
        MeaningAtKey(ns, ms[i].key, cs);
      }
      forall k <- MembersMeaning(ns, cs) ensures exists i :: 0 <= i < |ms| && Fold(ms[i].key, cs) == k {
        MeaningHasOnlyMembers(ns, cs, k);
        var j :| 0 <= j < |ns| && Fold(ns[j].key, cs) == k;
        assert Fold(ms[Find(ms, ns[j].key, cs)].key, cs) == k;
      }
      MeaningIs(ms, MembersMeaning(ns, cs), cs);
    }
    if MembersMeaning(ms, cs) == MembersMeaning(ns, cs) {
      forall i | 0 <= i < |ms|
        ensures var j := Find(ns, ms[i].key, cs);
                j < |ns| && Meaning(ms[i].value, cs) == Meaning(ns[j].value, cs)
      {
        MeaningAtMember(ms, i, cs);
        MeaningAtKey(ns, ms[i].key, cs);
      }
      forall j | 0 <= j < |ns|
        ensures var i := Find(ms, ns[j].key, cs);
                i < |ms| && Meaning(ns[j].value, cs) == Meaning(ms[i].value, cs)
      {
        MeaningAtMember(ns, j, cs);
        MeaningAtKey(ms, ns[j].key, cs);
      }
    }
  }

  /** The two equalities agree where keys are sorted right; elsewhere sort-and-zip finds less.  Comparison
      by lookups is an equivalence. */
  lemma {:induction false} EqualitiesAgree(a: Json, b: Json, cs: bool)
    requires Keyed(a, cs) && Keyed(b, cs)
    ensures CompareJson(a, b, cs) ==> Equal(a, b, cs)
    ensures Sortable(a, cs) && Sortable(b, cs) ==> (CompareJson(a, b, cs) <==> Equal(a, b, cs))
    ensures Equal(a, a, cs) && (Equal(a, b, cs) <==> Equal(b, a, cs))
    ensures forall c :: Keyed(c, cs) && Equal(a, b, cs) && Equal(b, c, cs) ==> Equal(a, c, cs)
  {
    hide *;
    if CompareJson(a, b, cs) { EqualFoundIsEqual(a, b, cs); }
    if Sortable(a, cs) && Sortable(b, cs) { CompareJsonIsEqualMeaning(a, b, cs); }
    EqualIsEqualMeaning(a, b, cs);
    EqualIsEqualMeaning(b, a, cs);
    EqualIsEqualMeaning(a, a, cs);
    forall c | Keyed(c, cs) && Equal(a, b, cs) && Equal(b, c, cs) ensures Equal(a, c, cs) {
      EqualIsEqualMeaning(b, c, cs);
      EqualIsEqualMeaning(a, c, cs);
    }
  }

  /** A rearrangement of a member list. */
  ghost predicate SameMembers(p: seq<Member>, ms: seq<Member>) {
    multiset(p) == multiset(ms)
  }

  /** For different keys: in byte order the order of members is ignored, whatever the two arrangements are,
      exactly when sorting by bytes comes out right. */
  lemma CompareJsonIgnoresOrder(ms: seq<Member>)
    requires DistinctKeys(ms, true)
    ensures (forall p, q :: SameMembers(p, ms) && SameMembers(q, ms) ==> CompareJson(Object(p), Object(q), true))
        <==> SameOrder(ms, KeyOf) || TwinsAlone(ms, KeyOf)
  {
    assert Distinct(ms, KeyOf, true);
    hide SameOrder, TwinsAlone, Distinct, DistinctKeys, SortMembers, CompareJson;
    if SameOrder(ms, KeyOf) || TwinsAlone(ms, KeyOf) {
      forall p, q | SameMembers(p, ms) && SameMembers(q, ms) ensures CompareJson(Object(p), Object(q), true) {
        OrderedComesOutRight(p, ms, KeyOf);
        OrderedComesOutRight(q, ms, KeyOf);
        SortedAlike(p, q);
        CompareJsonReflexive(Object(p), true);
        SortedComparison(p, p, true);
        SortedComparison(p, q, true);
      }
    } else {
      var p := WrongArrangement(ms, KeyOf);
      var u := Ascending(ms);
      assert SameMembers(p, ms) && SameMembers(u, ms);
      if CompareJson(Object(p), Object(u), true) {
        SortedComparison(p, u, true);
        SameKeysSorted(SortMembers(p, true), u);
        SortIsSortList(p);
      }
    }
  }

  lemma SortIsSortList(p: seq<Member>)
    ensures SortMembers(p, true) == SortList(p, KeyOf, true)
  {
  }

  /** Two arrangements that are both sorted right are sorted to the same list. */
  lemma SortedAlike(p: seq<Member>, q: seq<Member>)
    requires multiset(p) == multiset(q)
    requires StrictlySorted(SortList(p, KeyOf, true), KeyOf, true) && StrictlySorted(SortList(q, KeyOf, true), KeyOf, true)
    ensures SortMembers(p, true) == SortMembers(q, true)
  {
    var t, u := SortList(p, KeyOf, true), SortList(q, KeyOf, true);
    SortPermutes(p, KeyOf, true);
    SortPermutes(q, KeyOf, true);
    SameElements(t, u);
    hide SortList, SortMembers, Less, Fold;
    SortIsSortList(p);
    SortIsSortList(q);
    StrictIsUnique(t, u);
  }

  lemma {:induction false} StrictIsUnique(t: seq<Member>, u: seq<Member>)
    requires StrictlySorted(t, KeyOf, true) && StrictlySorted(u, KeyOf, true) && forall m :: m in t <==> m in u
    ensures t == u
  {
    if t == [] {
      HasMember(u);
    } else {
      assert t[0] in u && (u == [] || u[0] in t);
      HeadIsLeast(t, u[0]);
      HeadIsLeast(u, t[0]);
      if t[0] != u[0] { LessAsymmetric(Fold(KeyOf(t[0]), true), Fold(KeyOf(u[0]), true)); }
      forall m ensures m in t[1..] <==> m in u[1..] {
        InTail(t, m);
        InTail(u, m);
      }
      SortedTail(t, true);
      SortedTail(u, true);
      StrictIsUnique(t[1..], u[1..]);
      assert t == [t[0]] + t[1..] && u == [u[0]] + u[1..];
    }
  }

  lemma HasMember(u: seq<Member>)
    ensures u == [] || exists m :: m in u
  {
    if u != [] { assert u[0] in u; }
  }

  lemma HeadIsLeast(t: seq<Member>, m: Member)
    requires StrictlySorted(t, KeyOf, true) && m in t
    ensures m == t[0] || Less(Fold(KeyOf(t[0]), true), Fold(KeyOf(m), true))
  {
    var i :| 0 <= i < |t| && t[i] == m;
  }

  lemma InTail(t: seq<Member>, m: Member)
    requires StrictlySorted(t, KeyOf, true) && t != []
    ensures m in t[1..] <==> m in t && m != t[0]
  {
    LessIrreflexive(Fold(KeyOf(t[0]), true));
    if m in t && m != t[0] {
      var i :| 0 <= i < |t| && t[i] == m;
      assert t[1..][i - 1] == m;
    }
    if m in t[1..] {
      var i :| 0 <= i < |t[1..]| && t[1..][i] == m;
      assert t[i + 1] == m && Less(Fold(KeyOf(t[0]), true), Fold(KeyOf(t[i + 1]), true));
    }
  }

  /** The arrangement in byte order, which sorting leaves alone. */
  lemma Ascending(ms: seq<Member>) returns (u: seq<Member>)
    requires Distinct(ms, KeyOf, true)
    ensures SameMembers(u, ms) && StrictlySorted(u, KeyOf, true) && SortMembers(u, true) == u
  {
    var d := Descending(ms, KeyOf);
    DescendingPermutes(ms, KeyOf);
    DistinctIsOrderFree(ms, d, KeyOf, true);
    u := Reversed(d);
    ReversedPermutes(d);
    AscendingStays(d, u);
  }

  function Reversed<T>(s: seq<T>): seq<T> {
    if s == [] then [] else Reversed(s[1..]) + [s[0]]
  }

  lemma {:induction false} ReversedPermutes<T>(s: seq<T>)
    ensures multiset(Reversed(s)) == multiset(s) && |Reversed(s)| == |s|
    ensures forall i :: 0 <= i < |s| ==> Reversed(s)[i] == s[|s| - 1 - i]
  {
    if s != [] {
      assert s == [s[0]] + s[1..];
      ReversedPermutes(s[1..]);
    }
  }

  lemma SameKeysSorted(t: seq<Member>, u: seq<Member>)
    requires StrictlySorted(u, KeyOf, true) && |t| == |u|
    requires forall i :: 0 <= i < |t| ==> CompareStrings(t[i].key, u[i].key, true) == 0
    ensures StrictlySorted(t, KeyOf, true)
  {
    hide Less;
    forall i, j | 0 <= i < j < |t| ensures Less(KeyOf(t[i]), KeyOf(t[j])) {
      assert t[i].key == u[i].key && t[j].key == u[j].key;
      assert Less(Fold(KeyOf(u[i]), true), Fold(KeyOf(u[j]), true));
    }
  }

  lemma AscendingStays(d: seq<Member>, u: seq<Member>)
    requires IsDescending(d, KeyOf) && Distinct(d, KeyOf, true)
    requires |u| == |d| && forall i :: 0 <= i < |d| ==> u[i] == d[|d| - 1 - i]
    ensures StrictlySorted(u, KeyOf, true) && SortMembers(u, true) == u
  {
    forall i, j | 0 <= i < j < |u| ensures Less(KeyOf(u[i]), KeyOf(u[j])) {
      assert Fold(KeyOf(d[|d| - 1 - j]), true) != Fold(KeyOf(d[|d| - 1 - i]), true);
      LessTotal(KeyOf(u[i]), KeyOf(u[j]));
    }
    NeighboursSuffice(u, KeyOf, true);
  }

  lemma UpperCaseOrder()
    ensures CompareStrings("B", "a", true) == -1 && CompareStrings("a", "B", true) == 1
    ensures CompareStrings("a", "B", false) == -1
  {
    assert Less("B", "a") && !Less("a", "B");
    assert Lower("a") == "a" && Lower("B") == "b" by {
      assert "a"[1..] == "" && "B"[1..] == "";
    }
  }

  /** In byte order "B" comes first, but the merge puts it last. */
  lemma MixedCaseSorts(x: Member, y: Member)
    requires x.key == "a" && y.key == "B"
    ensures SortMembers([y, x], true) == [y, x] && SortMembers([x, y], true) == [x, y]
  {
    UpperCaseOrder();
    hide CompareStrings;
    assert [y, x][0] == y && [y, x][1] == x && [x, y][0] == x && [x, y][1] == y;
    assert NeighboursSorted([y, x], KeyOf, true);
    assert !NeighboursSorted([x, y], KeyOf, true) by {
      assert CompareStrings(KeyOf([x, y][0]), KeyOf([x, y][0 + 1]), true) == 1;
    }
    assert [x, y][..1] == [x] && [x, y][1..] == [y];
    assert Merge([x], [y], KeyOf) == [x, y] by {
      assert [x][1..] == [] && Merge([], [y], KeyOf) == [y];
    }
    assert SortMembers([x, y], true) == Merge(SortList([x, y][..1], KeyOf, true), SortList([x, y][1..], KeyOf, true), KeyOf);
  }

  /** Byte-order comparison of keys with upper case fails: the merge loop orders them differently
      from the test for an already sorted list. */
  lemma CompareJsonMissesEqualObjects()
    ensures var a, b := Object([Member("a", Null), Member("B", Null)]), Object([Member("B", Null), Member("a", Null)]);
            MembersMeaning(a.members, true) == MembersMeaning(b.members, true) && !CompareJson(a, b, true)
  {
    var x, y := Member("a", Null), Member("B", Null);
    var a, b := Object([x, y]), Object([y, x]);
    MixedCaseSorts(x, y);
    UpperCaseOrder();
    hide SortMembers, CompareStrings;
    assert !CompareJson(a, b, true);
    MeaningOfPermutation(a.members, b.members, true);
  }
}
