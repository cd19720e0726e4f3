/** JSON items as values, and the data they denote. */
module Json {
  import opened Text
  import opened Sequences

  /** A cJSON item without its own key: the kind and the payload of that kind.  `Invalid` is what
      removing the root of a document leaves behind. */
  datatype Json =
    | Invalid
    | Null
    | False
    | True
    | Number(n: int)
    | String(text: string)
    | Array(items: seq<Json>)
    | Object(members: seq<Member>)

  /** A child of an object, in list order. */
  datatype Member = Member(key: string, value: Json)

  /** What a JSON text means: objects are finite maps, so member order is gone. */
  datatype Value =
    | VInvalid
    | VNull
    | VFalse
    | VTrue
    | VNumber(n: int)
    | VString(text: string)
    | VArray(items: seq<Value>)
    | VObject(members: map<string, Value>)

  function Meaning(j: Json, cs: bool): Value
    decreases j, 0
  {
    match j
    case Invalid => VInvalid
    case Null => VNull
    case False => VFalse
    case True => VTrue
    case Number(n) => VNumber(n)
    case String(s) => VString(s)
    case Array(items) => VArray(seq(|items|, i requires 0 <= i < |items| => Meaning(items[i], cs)))
    case Object(ms) => VObject(MembersMeaning(ms, cs))
  }

  /** The first member with a key wins, as in `get_object_item`. */
  function MembersMeaning(ms: seq<Member>, cs: bool): map<string, Value>
    decreases ms, 1
  {
    if ms == [] then map[]
    else MembersMeaning(ms[1..], cs)[Fold(ms[0].key, cs) := Meaning(ms[0].value, cs)]
  }

  /** Position of the first member whose key matches, or the number of members. */
  function Find(ms: seq<Member>, key: string, cs: bool): (i: nat)
    ensures i <= |ms|
    ensures i < |ms| ==> Fold(ms[i].key, cs) == Fold(key, cs)
    ensures forall k :: 0 <= k < i ==> Fold(ms[k].key, cs) != Fold(key, cs)
  {
    if ms == [] then 0
    else if Fold(ms[0].key, cs) == Fold(key, cs) then 0
    else 1 + Find(ms[1..], key, cs)
  }

  /** `get_object_item`: anything that is not an object has no named child. */
  function GetObjectItem(j: Json, key: string, cs: bool): Option<Json> {
    if j.Object? && Find(j.members, key, cs) < |j.members|
    then Some(j.members[Find(j.members, key, cs)].value)
    else None
  }

  /** The member at `i` is the first one whose key matches. */
  predicate FirstMatch(ms: seq<Member>, key: string, cs: bool, i: nat) {
    i < |ms| && Matches(ms[i].key, key, cs) && forall k :: 0 <= k < i ==> !Matches(ms[k].key, key, cs)
  }

  /** A lookup finds the first member whose key matches: the same characters, or without regard to case the same
      letters.  It finds nothing if there is none. */
  lemma FindIsFirst(ms: seq<Member>, key: string, cs: bool)
    ensures forall i: nat :: FirstMatch(ms, key, cs, i) ==>
              Find(ms, key, cs) == i && GetObjectItem(Object(ms), key, cs) == Some(ms[i].value)
    ensures (forall k :: 0 <= k < |ms| ==> !Matches(ms[k].key, key, cs)) ==>
              Find(ms, key, cs) == |ms| && GetObjectItem(Object(ms), key, cs) == None
  {
    hide Fold, Matches;
    forall k | 0 <= k < |ms| ensures Fold(ms[k].key, cs) == Fold(key, cs) <==> Matches(ms[k].key, key, cs) {
      FoldsAlike(ms[k].key, key, cs);
    }
  }

  /** Taking the member with a key out of a list, if there is one. */
  function DropMember(ms: seq<Member>, key: string, cs: bool): seq<Member> {
    var i := Find(ms, key, cs);
    if i < |ms| then RemoveAt(ms, i) else ms
  }

  ghost predicate DistinctKeys(ms: seq<Member>, cs: bool) {
    forall i, j :: 0 <= i < j < |ms| ==> Fold(ms[i].key, cs) != Fold(ms[j].key, cs)
  }

  /** No invalid items, and the keys of every object pairwise different. */
  ghost predicate Keyed(j: Json, cs: bool)
    decreases j
  {
    match j
    case Invalid => false
    case Array(items) => forall i :: 0 <= i < |items| ==> Keyed(items[i], cs)
    case Object(ms) => DistinctKeys(ms, cs) && forall i :: 0 <= i < |ms| ==> Keyed(ms[i].value, cs)
    case _ => true
  }

  ghost predicate KeyedMembers(ms: seq<Member>, cs: bool) {
    DistinctKeys(ms, cs) && forall i :: 0 <= i < |ms| ==> Keyed(ms[i].value, cs)
  }

  lemma KeyedObject(j: Json, cs: bool)
    requires j.Object?
    ensures Keyed(j, cs) <==> KeyedMembers(j.members, cs)
    ensures Meaning(j, cs) == VObject(MembersMeaning(j.members, cs))
  {
  }

  // ----- nesting depth, for recursion over reordered members

  function Depth(j: Json): nat
    decreases j, 0
  {
    match j
    case Array(items) => 1 + ItemsDepth(items)
    case Object(ms) => 1 + MembersDepth(ms)
    case _ => 0
  }

  function ItemsDepth(items: seq<Json>): (d: nat)
    ensures forall i :: 0 <= i < |items| ==> Depth(items[i]) <= d
    decreases items, 1
  {
    if items == [] then 0
    else
      var d, rest := Depth(items[0]), ItemsDepth(items[1..]);
      assert forall i :: 1 <= i < |items| ==> items[i] == items[1..][i - 1];
      if d < rest then rest else d
  }

  function MembersDepth(ms: seq<Member>): (d: nat)
    ensures forall i :: 0 <= i < |ms| ==> Depth(ms[i].value) <= d
    decreases ms, 1
  {
    if ms == [] then 0
    else
      var d, rest := Depth(ms[0].value), MembersDepth(ms[1..]);
      assert forall i :: 1 <= i < |ms| ==> ms[i] == ms[1..][i - 1];
      if d < rest then rest else d
  }

  // ----- what member lists mean

  lemma {:induction false} MeaningHasOnlyMembers(ms: seq<Member>, cs: bool, k: string)
    requires k in MembersMeaning(ms, cs)
    ensures exists i :: 0 <= i < |ms| && Fold(ms[i].key, cs) == k
  {
    if Fold(ms[0].key, cs) != k {
      MeaningHasOnlyMembers(ms[1..], cs, k);
      var i :| 0 <= i < |ms[1..]| && Fold(ms[1..][i].key, cs) == k;
      assert ms[i + 1] == ms[1..][i];
    }
  }

  /** Looking a key up in the map is looking it up in the list. */
  lemma {:induction false} MeaningAtKey(ms: seq<Member>, key: string, cs: bool)
    ensures Fold(key, cs) in MembersMeaning(ms, cs) <==> Find(ms, key, cs) < |ms|
    ensures Find(ms, key, cs) < |ms| ==>
              MembersMeaning(ms, cs)[Fold(key, cs)] == Meaning(ms[Find(ms, key, cs)].value, cs)
  {
    if ms != [] && Fold(ms[0].key, cs) != Fold(key, cs) {
      MeaningAtKey(ms[1..], key, cs);
    }
  }

  lemma FindDistinct(ms: seq<Member>, i: nat, cs: bool)
    requires DistinctKeys(ms, cs) && i < |ms|
    ensures Find(ms, ms[i].key, cs) == i
  {
  }

  lemma MeaningAtMember(ms: seq<Member>, i: nat, cs: bool)
    requires DistinctKeys(ms, cs) && i < |ms|
    ensures Fold(ms[i].key, cs) in MembersMeaning(ms, cs)
    ensures MembersMeaning(ms, cs)[Fold(ms[i].key, cs)] == Meaning(ms[i].value, cs)
  {
    FindDistinct(ms, i, cs);
    MeaningAtKey(ms, ms[i].key, cs);
  }

  /** A map is the meaning of a list with distinct keys when both have the same entries. */
  lemma MeaningIs(ms: seq<Member>, m: map<string, Value>, cs: bool)
    requires DistinctKeys(ms, cs)
    requires forall i :: 0 <= i < |ms| ==> Fold(ms[i].key, cs) in m && m[Fold(ms[i].key, cs)] == Meaning(ms[i].value, cs)
    requires forall k <- m :: exists i :: 0 <= i < |ms| && Fold(ms[i].key, cs) == k
    ensures MembersMeaning(ms, cs) == m
  {
    var mm := MembersMeaning(ms, cs);
    forall k ensures k in mm <==> k in m
      ensures k in mm ==> k in m && mm[k] == m[k]
    {
      if k in mm {
        MeaningHasOnlyMembers(ms, cs, k);
        var i :| 0 <= i < |ms| && Fold(ms[i].key, cs) == k;
        MeaningAtMember(ms, i, cs);
      }
      if k in m {
        var i :| 0 <= i < |ms| && Fold(ms[i].key, cs) == k;
        MeaningAtMember(ms, i, cs);
      }
    }
  }

  lemma MeaningOfPermutation(ms: seq<Member>, ns: seq<Member>, cs: bool)
    requires DistinctKeys(ms, cs) && DistinctKeys(ns, cs)
    requires forall m :: m in ms <==> m in ns
    ensures MembersMeaning(ms, cs) == MembersMeaning(ns, cs)
  {
    var mm := MembersMeaning(ns, cs);
    forall i | 0 <= i < |ms|
      ensures Fold(ms[i].key, cs) in mm && mm[Fold(ms[i].key, cs)] == Meaning(ms[i].value, cs)
    {
      assert ms[i] in ms;
      var j :| 0 <= j < |ns| && ns[j] == ms[i];
      MeaningAtMember(ns, j, cs);
    }
    forall k <- mm ensures exists i :: 0 <= i < |ms| && Fold(ms[i].key, cs) == k {
      MeaningHasOnlyMembers(ns, cs, k);
      var j :| 0 <= j < |ns| && Fold(ns[j].key, cs) == k;
      assert ns[j] in ns;
      var i :| 0 <= i < |ms| && ms[i] == ns[j];
    }
    MeaningIs(ms, mm, cs);
  }

  lemma MeaningOfRemoval(ms: seq<Member>, i: nat, cs: bool)
    requires DistinctKeys(ms, cs) && i < |ms|
    ensures DistinctKeys(RemoveAt(ms, i), cs)
    ensures MembersMeaning(RemoveAt(ms, i), cs) == MembersMeaning(ms, cs) - {Fold(ms[i].key, cs)}
  {
    hide Meaning, MembersMeaning, Fold;
    var rest, m := RemoveAt(ms, i), MembersMeaning(ms, cs) - {Fold(ms[i].key, cs)};
    assert forall k :: 0 <= k < |rest| ==> rest[k] == ms[if k < i then k else k + 1];
    forall k | 0 <= k < |rest|
      ensures Fold(rest[k].key, cs) in m && m[Fold(rest[k].key, cs)] == Meaning(rest[k].value, cs)
    {
      MeaningAtMember(ms, if k < i then k else k + 1, cs);
    }
    forall key <- m ensures exists k :: 0 <= k < |rest| && Fold(rest[k].key, cs) == key {
      MeaningHasOnlyMembers(ms, cs, key);
      var j :| 0 <= j < |ms| && Fold(ms[j].key, cs) == key;
      assert rest[if j < i then j else j - 1] == ms[j];
    }
    MeaningIs(rest, m, cs);
  }

  lemma MeaningOfAppend(ms: seq<Member>, m: Member, cs: bool)
    requires DistinctKeys(ms, cs) && Find(ms, m.key, cs) == |ms|
    ensures DistinctKeys(ms + [m], cs)
    ensures MembersMeaning(ms + [m], cs) == MembersMeaning(ms, cs)[Fold(m.key, cs) := Meaning(m.value, cs)]
  {
    var all, mm := ms + [m], MembersMeaning(ms, cs)[Fold(m.key, cs) := Meaning(m.value, cs)];
    MeaningAtKey(ms, m.key, cs);
    forall k | 0 <= k < |all|
      ensures Fold(all[k].key, cs) in mm && mm[Fold(all[k].key, cs)] == Meaning(all[k].value, cs)
    {
      if k < |ms| { MeaningAtMember(ms, k, cs); }
    }
    forall key <- mm ensures exists k :: 0 <= k < |all| && Fold(all[k].key, cs) == key {
      if key == Fold(m.key, cs) {
        assert all[|ms|] == m;
      } else {
        MeaningHasOnlyMembers(ms, cs, key);
        var j :| 0 <= j < |ms| && Fold(ms[j].key, cs) == key;
        assert all[j] == ms[j];
      }
    }
    MeaningIs(all, mm, cs);
  }

  lemma MeaningOfUpdate(ms: seq<Member>, i: nat, v: Json, cs: bool)
    requires DistinctKeys(ms, cs) && i < |ms|
    ensures DistinctKeys(ms[i := Member(ms[i].key, v)], cs)
    ensures MembersMeaning(ms[i := Member(ms[i].key, v)], cs)
         == MembersMeaning(ms, cs)[Fold(ms[i].key, cs) := Meaning(v, cs)]
  {
    var all, mm := ms[i := Member(ms[i].key, v)], MembersMeaning(ms, cs)[Fold(ms[i].key, cs) := Meaning(v, cs)];
    forall k | 0 <= k < |all|
      ensures Fold(all[k].key, cs) in mm && mm[Fold(all[k].key, cs)] == Meaning(all[k].value, cs)
    {
      MeaningAtMember(ms, k, cs);
    }
    forall key <- mm ensures exists k :: 0 <= k < |all| && Fold(all[k].key, cs) == key {
      if key == Fold(ms[i].key, cs) {
        assert all[i].key == ms[i].key;
      } else {
        MeaningHasOnlyMembers(ms, cs, key);
        var j :| 0 <= j < |ms| && Fold(ms[j].key, cs) == key;
        assert all[j].key == ms[j].key;
      }
    }
    MeaningIs(all, mm, cs);
  }

  lemma KeyedRemoval(ms: seq<Member>, i: nat, cs: bool)
    requires KeyedMembers(ms, cs) && i < |ms|
    ensures KeyedMembers(RemoveAt(ms, i), cs)
  {
    hide Keyed, Fold;
    var rest := RemoveAt(ms, i);
    assert forall k :: 0 <= k < |rest| ==> rest[k] == ms[if k < i then k else k + 1];
  }

  lemma DroppedMember(ms: seq<Member>, key: string, cs: bool)
    requires KeyedMembers(ms, cs)
    ensures KeyedMembers(DropMember(ms, key, cs), cs)
    ensures MembersMeaning(DropMember(ms, key, cs), cs) == MembersMeaning(ms, cs) - {Fold(key, cs)}
  {
    hide Meaning, MembersMeaning, Keyed, Fold, RemoveAt;
    var i := Find(ms, key, cs);
    MeaningAtKey(ms, key, cs);
    if i < |ms| {
      KeyedRemoval(ms, i, cs);
      MeaningOfRemoval(ms, i, cs);
    } else {
      assert MembersMeaning(ms, cs) - {Fold(key, cs)} == MembersMeaning(ms, cs);
    }
  }

  lemma AppendedMember(ms: seq<Member>, key: string, value: Json, cs: bool)
    requires KeyedMembers(ms, cs) && Keyed(value, cs)
    requires Fold(key, cs) !in MembersMeaning(ms, cs)
    ensures KeyedMembers(ms + [Member(key, value)], cs)
    ensures MembersMeaning(ms + [Member(key, value)], cs)
         == MembersMeaning(ms, cs)[Fold(key, cs) := Meaning(value, cs)]
  {
    hide Meaning, MembersMeaning, Keyed, Fold;
    MeaningAtKey(ms, key, cs);
    MeaningOfAppend(ms, Member(key, value), cs);
  }

  /** A member that goes to the end of the list, in the place of the one with its key. */
  lemma ReplacedMember(ms: seq<Member>, key: string, value: Json, cs: bool)
    requires KeyedMembers(ms, cs) && Keyed(value, cs)
    ensures KeyedMembers(DropMember(ms, key, cs) + [Member(key, value)], cs)
    ensures MembersMeaning(DropMember(ms, key, cs) + [Member(key, value)], cs)
         == MembersMeaning(ms, cs)[Fold(key, cs) := Meaning(value, cs)]
  {
    var k, base := Fold(key, cs), MembersMeaning(ms, cs);
    DroppedMember(ms, key, cs);
    AppendedMember(DropMember(ms, key, cs), key, value, cs);
    assert (base - {k})[k := Meaning(value, cs)] == base[k := Meaning(value, cs)];
  }
}
