/** The sibling lists on the heap are what `Linked` trees say of them. */
module LinkedItems {
  import opened Text
  import opened Sequences
  import opened Json
  import opened Sorting
  import opened Items
  import opened Linked

  /** The list of a container shows the members of an object, and whether its first node has a `prev`. */
  ghost predicate Shows(c: Container, s: seq<Item>, ms: seq<Named>, stale: bool)
    reads c, s
  {
    Lists(c, s, stale) && |s| == |ms| && forall i :: 0 <= i < |s| ==> s[i].key == ms[i].key
  }

  // ----- a node together with its member and its place

  datatype Joint = Joint(at: nat, item: Item, value: Tree)

  function JointKey(j: Joint): string { j.item.key }

  function SlotOf(j: Joint): Slot { Slot(j.at, Named(j.item.key, j.value)) }

  function ItemOf(j: Joint): Item { j.item }

  ghost function Joints(s: seq<Item>, ms: seq<Named>): (r: seq<Joint>)
    requires |s| == |ms|
    ensures |r| == |s|
  {
    seq(|s|, i requires 0 <= i < |s| => Joint(i, s[i], ms[i].value))
  }

  lemma JointsMapped(s: seq<Item>, ms: seq<Named>)
    requires |s| == |ms| && forall i :: 0 <= i < |s| ==> s[i].key == ms[i].key
    ensures Mapped(Joints(s, ms), SlotOf) == Slots(ms) && Mapped(Joints(s, ms), ItemOf) == s
  {
  }

  /** Sorting the nodes and sorting the members is one sort. */
  lemma SortedTogether(s: seq<Item>, ms: seq<Named>, cs: bool)
    requires |s| == |ms| && forall i :: 0 <= i < |s| ==> s[i].key == ms[i].key
    ensures var js := SortList(Joints(s, ms), JointKey, cs);
      && SortSlots(ms, cs) == Mapped(js, SlotOf) && SortList(s, ItemKey, cs) == Mapped(js, ItemOf)
      && |js| == |s| && forall j <- js :: j.at < |s| && j.item == s[j.at]
  {
    assert SameKeys(Joints(s, ms), SlotOf, JointKey, SlotKey) && SameKeys(Joints(s, ms), ItemOf, JointKey, ItemKey);
    SortMapped(Joints(s, ms), SlotOf, JointKey, SlotKey, cs);
    SortMapped(Joints(s, ms), ItemOf, JointKey, ItemKey, cs);
    JointsMapped(s, ms);
    SortKeepsMembers(Joints(s, ms), JointKey, cs);
    hide SortList, SameKeys;
    forall j | j in SortList(Joints(s, ms), JointKey, cs) ensures j.at < |s| && j.item == s[j.at] {
      assert j in Joints(s, ms);
    }
  }

  lemma SortAgrees(s: seq<Item>, ms: seq<Named>, stale: bool, cs: bool)
    requires NoDuplicates(s) && |s| == |ms| && forall i :: 0 <= i < |s| ==> s[i].key == ms[i].key
    ensures var t, ns := SortList(s, ItemKey, cs), SortNamed(ms, cs);
      |t| == |ns| && forall i :: 0 <= i < |t| ==> t[i].key == ns[i].key
    ensures StaleAfterSort(ms, stale, cs) <==> stale || HeadMoves(s, cs)
  {
    SortedTogether(s, ms, cs);
    hide SortList;
    var js := SortList(Joints(s, ms), JointKey, cs);
    if s != [] {
      assert js[0] in js;
      assert SortSlots(ms, cs)[0] == SlotOf(js[0]) && SortList(s, ItemKey, cs)[0] == ItemOf(js[0]);
    }
  }

  // ----- the operations on lists

  method SortShown(c: Container, ghost s: seq<Item>, ghost ms: seq<Named>, ghost stale: bool, cs: bool)
    requires Shows(c, s, ms, stale)
    modifies c, s
    ensures Shows(c, SortList(s, ItemKey, cs), SortNamed(ms, cs), StaleAfterSort(ms, stale, cs))
  {
    SortAgrees(s, ms, stale, cs);
    hide SortList, SortNamed, StaleAfterSort, HeadMoves;
    SortObject(c, s, stale, cs);
  }

  /** Taking a member out; where the tree says that a stale link is followed, the node is the first and has one. */
  method DetachShown(c: Container, item: Item, ghost s: seq<Item>, ghost ms: seq<Named>, ghost stale: bool, ghost k: nat)
    requires Shows(c, s, ms, stale) && k < |s| && s[k] == item
    requires DropChild(LinkedObject(ms, stale), k).Some?
    modifies c, s, if stale then {s[0].prev} else {}
    ensures Shows(c, RemoveAt(s, k), DropChild(LinkedObject(ms, stale), k).value.members,
                  DropChild(LinkedObject(ms, stale), k).value.stale)
  {
    DetachItemViaPointer(c, item, s, k, stale);
    var t, ns := RemoveAt(s, k), RemoveAt(ms, k);
    assert forall i :: 0 <= i < |t| ==> t[i] == s[if i < k then i else i + 1] && ns[i] == ms[if i < k then i else i + 1];
  }

  method AddShown(c: Container, item: Item, ghost s: seq<Item>, ghost ms: seq<Named>, ghost stale: bool, ghost value: Tree)
    requires Shows(c, s, ms, stale) && item !in s && item.next == null && item.prev == null
    modifies c, s, item
    ensures Shows(c, s + [item], ms + [Named(item.key, value)], stale)
  {
    AddItemToArray(c, item, s, stale);
  }

  /** Where the tree says that a stale link is followed, the list is spoilt if the link leads into it. */
  method DetachSpoils(c: Container, item: Item, ghost s: seq<Item>, ghost ms: seq<Named>, ghost k: nat)
    requires Shows(c, s, ms, true) && k < |s| && s[k] == item && s[0].prev in s[1..]
    requires DropChild(LinkedObject(ms, true), k).None?
    modifies c, s
    ensures !Chain(RemoveAt(s, k))
  {
    ghost var p :| 0 <= p < |s[1..]| && s[1..][p] == s[0].prev;
    assert s[p + 1] == s[0].prev;
    DetachItemViaPointer(c, item, s, k, true);
    LoopIsNoList(s, p + 1);
  }
}
