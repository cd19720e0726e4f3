/** Trees that remember what sorting in place leaves behind: the first member of an object may point back at
    another node through its `prev`. */
module Linked {
  import opened Text
  import opened Sequences
  import opened Json
  import opened Sorting
  import opened Compare
  import opened Patch

  /** Items without a list of children. */
  type Scalar = j: Json | !j.Array? && !j.Object? witness Null

  /** `stale` says that the `prev` of the first member is not null.  Arrays are never sorted. */
  datatype Tree =
    | Leaf(value: Scalar)
    | LinkedArray(items: seq<Tree>)
    | LinkedObject(members: seq<Named>, stale: bool)

  datatype Named = Named(key: string, value: Tree)

  /** The tree without its links. */
  function Erase(t: Tree): Json {
    match t
    case Leaf(j) => j
    case LinkedArray(ts) => Array(EraseItems(ts))
    case LinkedObject(ms, _) => Object(EraseMembers(ms))
  }

  function EraseItems(ts: seq<Tree>): (r: seq<Json>)
    ensures |r| == |ts|
  {
    seq(|ts|, i requires 0 <= i < |ts| => Erase(ts[i]))
  }

  function EraseMembers(ms: seq<Named>): (r: seq<Member>)
    ensures |r| == |ms|
  {
    seq(|ms|, i requires 0 <= i < |ms| => Member(ms[i].key, Erase(ms[i].value)))
  }

  /** A copy: all lists are well linked. */
  function Fresh(j: Json): Tree {
    match j
    case Array(items) => LinkedArray(seq(|items|, i requires 0 <= i < |items| => Fresh(items[i])))
    case Object(ms) => LinkedObject(FreshMembers(ms), false)
    case _ => Leaf(j)
  }

  function FreshMembers(ms: seq<Member>): (r: seq<Named>)
    ensures |r| == |ms|
  {
    seq(|ms|, i requires 0 <= i < |ms| => Named(ms[i].key, Fresh(ms[i].value)))
  }

  predicate WellLinked(t: Tree) {
    match t
    case Leaf(_) => true
    case LinkedArray(ts) => forall i :: 0 <= i < |ts| ==> WellLinked(ts[i])
    case LinkedObject(ms, stale) => !stale && forall i :: 0 <= i < |ms| ==> WellLinked(ms[i].value)
  }

  lemma {:induction false} FreshIsWellLinked(j: Json)
    ensures Erase(Fresh(j)) == j && WellLinked(Fresh(j))
    decreases j
  {
    match j
    case Array(items) =>
      forall i | 0 <= i < |items| ensures Erase(Fresh(items[i])) == items[i] && WellLinked(Fresh(items[i])) {
        FreshIsWellLinked(items[i]);
      }
      assert Erase(Fresh(j)).items == items;
    case Object(ms) =>
      forall i | 0 <= i < |ms| ensures Erase(Fresh(ms[i].value)) == ms[i].value && WellLinked(Fresh(ms[i].value)) {
        FreshIsWellLinked(ms[i].value);
      }
      assert Erase(Fresh(j)).members == ms;
    case _ =>
  }

  // ----- nodes at positions

  function ChildOf(t: Tree, i: nat): Tree
    requires i < Size(Erase(t))
  {
    match t
    case LinkedArray(ts) => ts[i]
    case LinkedObject(ms, _) => ms[i].value
  }

  function WithChildOf(t: Tree, i: nat, x: Tree): Tree
    requires i < Size(Erase(t))
  {
    match t
    case LinkedArray(ts) => LinkedArray(ts[i := x])
    case LinkedObject(ms, stale) => LinkedObject(ms[i := Named(ms[i].key, x)], stale)
  }

  lemma ErasedChild(t: Tree, i: nat, x: Tree)
    requires i < Size(Erase(t))
    ensures Erase(ChildOf(t, i)) == Child(Erase(t), i)
    ensures Erase(WithChildOf(t, i, x)) == WithChild(Erase(t), i, Erase(x))
    ensures WellLinked(t) ==> WellLinked(ChildOf(t, i))
    ensures WellLinked(t) && WellLinked(x) ==> WellLinked(WithChildOf(t, i, x))
  {
    match t
    case LinkedArray(ts) =>
      assert EraseItems(ts[i := x]) == EraseItems(ts)[i := Erase(x)];
    case LinkedObject(ms, _) =>
      assert EraseMembers(ms[i := Named(ms[i].key, x)]) == EraseMembers(ms)[i := Member(ms[i].key, Erase(x))];
  }

  function NodeAt(t: Tree, pos: Position): Tree
    requires Has(Erase(t), pos)
    decreases |pos|
  {
    if pos == [] then t
    else
      ErasedChild(t, pos[0], t);
      NodeAt(ChildOf(t, pos[0]), pos[1..])
  }

  function PutNode(t: Tree, pos: Position, x: Tree): Tree
    requires Has(Erase(t), pos)
    decreases |pos|
  {
    if pos == [] then x
    else
      ErasedChild(t, pos[0], t);
      WithChildOf(t, pos[0], PutNode(ChildOf(t, pos[0]), pos[1..], x))
  }

  lemma {:induction false} ErasedNode(t: Tree, pos: Position, x: Tree)
    requires Has(Erase(t), pos)
    ensures Erase(NodeAt(t, pos)) == At(Erase(t), pos)
    ensures Erase(PutNode(t, pos, x)) == PutAt(Erase(t), pos, Erase(x))
    ensures WellLinked(t) ==> WellLinked(NodeAt(t, pos))
    ensures WellLinked(t) && WellLinked(x) ==> WellLinked(PutNode(t, pos, x))
    decreases |pos|
  {
    if pos != [] {
      hide Erase, WellLinked, Size, Child, WithChild;
      ErasedChild(t, pos[0], t);
      ErasedNode(ChildOf(t, pos[0]), pos[1..], x);
      ErasedChild(t, pos[0], PutNode(ChildOf(t, pos[0]), pos[1..], x));
    }
  }

  // ----- sorting in place

  /** A member and the place it had before. */
  datatype Slot = Slot(at: nat, named: Named)

  function SlotKey(s: Slot): string { s.named.key }

  function Bare(s: Slot): Member { Member(s.named.key, Erase(s.named.value)) }

  function NamedOf(s: Slot): Named { s.named }

  function Slots(ms: seq<Named>): (r: seq<Slot>)
    ensures |r| == |ms|
  {
    seq(|ms|, i requires 0 <= i < |ms| => Slot(i, ms[i]))
  }

  function SortSlots(ms: seq<Named>, cs: bool): seq<Slot> {
    SortList(Slots(ms), SlotKey, cs)
  }

  function SortNamed(ms: seq<Named>, cs: bool): seq<Named> {
    Mapped(SortSlots(ms, cs), NamedOf)
  }

  /** After `sort_object` the first member keeps the `prev` that it had: null if it was the first one of a well
      linked list, and its predecessor if it was another one. */
  predicate StaleAfterSort(ms: seq<Named>, stale: bool, cs: bool) {
    stale || (SortSlots(ms, cs) != [] && SortSlots(ms, cs)[0].at != 0)
  }

  lemma ErasedSort(ms: seq<Named>, cs: bool)
    ensures EraseMembers(SortNamed(ms, cs)) == SortMembers(EraseMembers(ms), cs)
    ensures |SortNamed(ms, cs)| == |ms| && forall n <- SortNamed(ms, cs) :: n in ms
  {
    SortedBare(ms, cs);
    SortedFromSlots(ms, cs);
  }

  lemma SortedBare(ms: seq<Named>, cs: bool)
    ensures EraseMembers(SortNamed(ms, cs)) == SortMembers(EraseMembers(ms), cs)
  {
    var ss := SortSlots(ms, cs);
    assert SameKeys(Slots(ms), Bare, SlotKey, KeyOf);
    SortMapped(Slots(ms), Bare, SlotKey, KeyOf, cs);
    hide SortList, SameKeys;
    BareSlots(ms);
    BareNamed(ss);
  }

  lemma BareSlots(ms: seq<Named>)
    ensures Mapped(Slots(ms), Bare) == EraseMembers(ms)
  {
  }

  lemma BareNamed(ss: seq<Slot>)
    ensures Mapped(ss, Bare) == EraseMembers(Mapped(ss, NamedOf))
  {
    assert forall i :: 0 <= i < |ss| ==> Mapped(ss, Bare)[i] == Bare(ss[i]) && Mapped(ss, NamedOf)[i] == ss[i].named;
  }

  lemma SortedFromSlots(ms: seq<Named>, cs: bool)
    ensures |SortNamed(ms, cs)| == |ms| && forall n <- SortNamed(ms, cs) :: n in ms
  {
    var ss, ns := SortSlots(ms, cs), SortNamed(ms, cs);
    SortKeepsMembers(Slots(ms), SlotKey, cs);
    hide SortList;
    forall i | 0 <= i < |ns| ensures ns[i] in ms {
      assert ns[i] == ss[i].named && ss[i] in Slots(ms);
      var k :| 0 <= k < |Slots(ms)| && Slots(ms)[k] == ss[i];
      assert Slots(ms)[k] == Slot(k, ms[k]);
    }
  }

  // ----- comparing in place

  function Compared(a: Tree, b: Json, cs: bool): Tree
    decreases Depth(Erase(a)), 1
  {
    match (a, b)
    case (LinkedArray(xs), Array(ys)) => LinkedArray(ItemsCompared(xs, ys, cs))
    case (LinkedObject(ms, stale), Object(ns)) =>
      ErasedSort(ms, cs);
      SortedDepth(EraseMembers(ms), cs);
      LinkedObject(MembersCompared(SortNamed(ms, cs), SortMembers(ns, cs), cs), StaleAfterSort(ms, stale, cs))
    case _ => a
  }

  function ItemsCompared(xs: seq<Tree>, ys: seq<Json>, cs: bool): seq<Tree>
    decreases ItemsDepth(EraseItems(xs)) + 1, 0, |xs|
  {
    if xs == [] || ys == [] then xs
    else
      ItemsParts(xs);
      [Compared(xs[0], ys[0], cs)]
      + (if CompareJson(Erase(xs[0]), ys[0], cs) then ItemsCompared(xs[1..], ys[1..], cs) else xs[1..])
  }

  function MembersCompared(xs: seq<Named>, ys: seq<Member>, cs: bool): seq<Named>
    decreases MembersDepth(EraseMembers(xs)) + 1, 0, |xs|
  {
    if xs == [] || ys == [] || CompareStrings(xs[0].key, ys[0].key, cs) != 0 then xs
    else
      MembersParts(xs);
      [Named(xs[0].key, Compared(xs[0].value, ys[0].value, cs))]
      + (if CompareJson(Erase(xs[0].value), ys[0].value, cs) then MembersCompared(xs[1..], ys[1..], cs) else xs[1..])
  }

  lemma ItemsParts(xs: seq<Tree>)
    requires xs != []
    ensures EraseItems(xs) == [Erase(xs[0])] + EraseItems(xs[1..])
    ensures ItemsDepth(EraseItems(xs[1..])) <= ItemsDepth(EraseItems(xs))
    ensures Depth(Erase(xs[0])) <= ItemsDepth(EraseItems(xs))
  {
    assert EraseItems(xs)[0] == Erase(xs[0]) && EraseItems(xs)[1..] == EraseItems(xs[1..]);
  }

  lemma MembersParts(xs: seq<Named>)
    requires xs != []
    ensures EraseMembers(xs) == [Member(xs[0].key, Erase(xs[0].value))] + EraseMembers(xs[1..])
    ensures MembersDepth(EraseMembers(xs[1..])) <= MembersDepth(EraseMembers(xs))
    ensures Depth(Erase(xs[0].value)) <= MembersDepth(EraseMembers(xs))
  {
    assert EraseMembers(xs)[0].value == Erase(xs[0].value) && EraseMembers(xs)[1..] == EraseMembers(xs[1..]);
  }

  /** Without its links, the tree is changed as the function on values says. */
  lemma {:induction false} ErasedCompared(a: Tree, b: Json, cs: bool)
    ensures Erase(Compared(a, b, cs)) == AfterCompare(Erase(a), b, cs)
    decreases Depth(Erase(a)), 1
  {
    match (a, b)
    case (LinkedArray(xs), Array(ys)) => ErasedItems(xs, ys, cs);
    case (LinkedObject(ms, stale), Object(ns)) =>
      ErasedSort(ms, cs);
      SortedDepth(EraseMembers(ms), cs);
      ErasedMembers(SortNamed(ms, cs), SortMembers(ns, cs), cs);
    case _ =>
  }

  lemma {:induction false} ErasedItems(xs: seq<Tree>, ys: seq<Json>, cs: bool)
    ensures EraseItems(ItemsCompared(xs, ys, cs)) == ItemsAfterCompare(EraseItems(xs), ys, cs)
    decreases ItemsDepth(EraseItems(xs)) + 1, 0, |xs|
  {
    if xs != [] && ys != [] {
      ItemsParts(xs);
      assert EraseItems(xs)[1..] == EraseItems(xs[1..]);
      ErasedCompared(xs[0], ys[0], cs);
      ErasedItems(xs[1..], ys[1..], cs);
      hide Erase, Compared, AfterCompare, CompareJson;
      ItemsParts(ItemsCompared(xs, ys, cs));
      assert ItemsCompared(xs, ys, cs)[1..]
          == if CompareJson(Erase(xs[0]), ys[0], cs) then ItemsCompared(xs[1..], ys[1..], cs) else xs[1..];
    }
  }

  lemma {:induction false} ErasedMembers(xs: seq<Named>, ys: seq<Member>, cs: bool)
    ensures EraseMembers(MembersCompared(xs, ys, cs)) == MembersAfterCompare(EraseMembers(xs), ys, cs)
    decreases MembersDepth(EraseMembers(xs)) + 1, 0, |xs|
  {
    if !(xs == [] || ys == [] || CompareStrings(xs[0].key, ys[0].key, cs) != 0) {
      MembersParts(xs);
      assert EraseMembers(xs)[1..] == EraseMembers(xs[1..]);
      ErasedCompared(xs[0].value, ys[0].value, cs);
      ErasedMembers(xs[1..], ys[1..], cs);
      hide Erase, Compared, AfterCompare, CompareJson, CompareStrings;
      MembersParts(MembersCompared(xs, ys, cs));
      assert MembersCompared(xs, ys, cs)[1..]
          == if CompareJson(Erase(xs[0].value), ys[0].value, cs) then MembersCompared(xs[1..], ys[1..], cs) else xs[1..];
    }
  }

  // ----- editing lists

  /** Taking a child out; `None` where the library would write through a stale link. */
  function DropChild(t: Tree, i: nat): Option<Tree>
    requires i < Size(Erase(t))
  {
    match t
    case LinkedArray(ts) => Some(LinkedArray(RemoveAt(ts, i)))
    case LinkedObject(ms, stale) => if i == 0 && stale then None else Some(LinkedObject(RemoveAt(ms, i), stale))
  }

  lemma ErasedDrop(t: Tree, i: nat)
    requires i < Size(Erase(t))
    ensures DropChild(t, i).Some? ==> Erase(DropChild(t, i).value) == WithoutChild(Erase(t), i)
    ensures WellLinked(t) ==> DropChild(t, i).Some? && WellLinked(DropChild(t, i).value)
  {
    match t
    case LinkedArray(ts) =>
      assert EraseItems(RemoveAt(ts, i)) == RemoveAt(EraseItems(ts), i);
      assert forall k :: 0 <= k < |ts| - 1 ==> RemoveAt(ts, i)[k] == ts[if k < i then k else k + 1];
    case LinkedObject(ms, _) =>
      assert EraseMembers(RemoveAt(ms, i)) == RemoveAt(EraseMembers(ms), i);
      assert forall k :: 0 <= k < |ms| - 1 ==> RemoveAt(ms, i)[k] == ms[if k < i then k else k + 1];
  }

  /** Deleting the member with a key and appending. */
  function SetNamed(ms: seq<Named>, stale: bool, key: string, value: Tree, cs: bool): Option<Tree> {
    var i := Find(EraseMembers(ms), key, cs);
    if i == |ms| then Some(LinkedObject(ms + [Named(key, value)], stale))
    else if i == 0 && stale then None
    else Some(LinkedObject(RemoveAt(ms, i) + [Named(key, value)], stale))
  }

  lemma ErasedSet(ms: seq<Named>, stale: bool, key: string, value: Tree, cs: bool)
    ensures var r := SetNamed(ms, stale, key, value, cs);
      && (r.Some? ==> Erase(r.value) == Object(SetMember(EraseMembers(ms), key, Erase(value), cs)))
      && (WellLinked(LinkedObject(ms, stale)) && WellLinked(value) ==> r.Some? && WellLinked(r.value))
  {
    var i := Find(EraseMembers(ms), key, cs);
    hide Find;
    if i == |ms| {
      ErasedAppend(ms, stale, key, value);
    } else {
      ErasedDrop(LinkedObject(ms, stale), i);
      ErasedAppend(RemoveAt(ms, i), stale, key, value);
    }
  }

  lemma ErasedAppend(ms: seq<Named>, stale: bool, key: string, value: Tree)
    ensures EraseMembers(ms + [Named(key, value)]) == EraseMembers(ms) + [Member(key, Erase(value))]
    ensures WellLinked(LinkedObject(ms, stale)) && WellLinked(value) ==>
      WellLinked(LinkedObject(ms + [Named(key, value)], stale))
  {
  }
}
