/** The sibling lists of cJSON items in memory: nodes linked through `next` and `prev`. */
module Items {
  import opened Text
  import opened Sequences
  import opened Json
  import opened Sorting

  class Item {
    const key: string
    var next: Item?
    var prev: Item?

    constructor (key: string)
      ensures this.key == key && next == null && prev == null
    {
      this.key := key;
      next, prev := null, null;
    }
  }

  /** The array or object that owns a list. */
  class Container {
    var child: Item?

    constructor ()
      ensures child == null
    {
      child := null;
    }
  }

  function ItemKey(x: Item): string { x.key }

  function First(s: seq<Item>): Item? {
    if s == [] then null else s[0]
  }

  /** Following `next` from the first node visits `s` and ends. */
  ghost predicate Forward(s: seq<Item>)
    reads s
  {
    forall i {:trigger s[i].next} :: 0 <= i < |s| ==> s[i].next == (if i + 1 < |s| then s[i + 1] else null)
  }

  /** `prev` is the inverse of `next` between neighbours; nothing is said about the first node. */
  ghost predicate Backward(s: seq<Item>)
    reads s
  {
    forall i {:trigger s[i].prev} :: 1 <= i < |s| ==> s[i].prev == s[i - 1]
  }

  ghost predicate Chain(s: seq<Item>)
    reads s
  {
    NoDuplicates(s) && Forward(s) && Backward(s)
  }

  /** A list that every operation of the library may be applied to. */
  ghost predicate WellLinked(s: seq<Item>)
    reads s
  {
    Chain(s) && (s != [] ==> s[0].prev == null)
  }

  // ----- merging two chains

  /** The test for an already sorted list. */
  method IsSorted(list: Item?, ghost s: seq<Item>, cs: bool) returns (sorted: bool)
    requires Chain(s) && list == First(s) && s != []
    ensures sorted == NeighboursSorted(s, ItemKey, cs)
  {
    var current := list;
    ghost var i := 0;
    while current != null && current.next != null
          && CompareStrings(current.key, current.next.key, cs) < 0
      invariant 0 <= i < |s| && current == s[i]
      invariant forall k :: 0 <= k < i ==> CompareStrings(ItemKey(s[k]), ItemKey(s[k + 1]), cs) < 0
      decreases |s| - i
    {
      current, i := current.next, i + 1;
    }
    sorted := current == null || current.next == null;
    if !sorted {
      assert CompareStrings(ItemKey(s[i]), ItemKey(s[i + 1]), cs) >= 0;
    }
  }

  /** One pointer walks two nodes for every node of the other. */
  method FindMiddle(list: Item?, ghost s: seq<Item>) returns (second: Item?)
    requires Chain(s) && list == First(s) && |s| >= 2
    ensures second == s[Middle(|s|)]
  {
    second := list;
    var current := list;
    ghost var i := 0;
    while current != null
      invariant 0 <= i <= Middle(|s|)
      invariant second == s[i]
      invariant current == if 2 * i < |s| then s[2 * i] else null
      decreases |s| - i
    {
      second := second.next;
      current := current.next;
      if current != null {
        current := current.next;
      }
      i := i + 1;
    }
  }

  /** Nodes already linked into the result: all but the last have their final `next`. */
  ghost predicate LinkedUp(out: seq<Item>)
    reads out
  {
    && (forall i {:trigger out[i].next} :: 0 <= i < |out| - 1 ==> out[i].next == out[i + 1])
    && Backward(out)
  }

  ghost predicate Separate(out: seq<Item>, a: seq<Item>, b: seq<Item>) {
    && NoDuplicates(out) && NoDuplicates(a) && NoDuplicates(b)
    && (forall i, j :: 0 <= i < |out| && 0 <= j < |a| ==> out[i] != a[j])
    && (forall i, j :: 0 <= i < |out| && 0 <= j < |b| ==> out[i] != b[j])
    && (forall i, j :: 0 <= i < |a| && 0 <= j < |b| ==> a[i] != b[j])
  }

  /** Hanging a node (with whatever follows it) behind the tail of the result. */
  method Link(tail: Item, node: Item)
    modifies tail`next, node`prev
    ensures tail.next == node && node.prev == tail
  {
    tail.next := node;
    node.prev := tail;
  }

  lemma TakeFromFirst(out: seq<Item>, x: seq<Item>, y: seq<Item>)
    requires Separate(out, x, y) && x != []
    ensures Separate(out + [x[0]], x[1..], y)
  {
    var out', x' := out + [x[0]], x[1..];
    forall i, j | 0 <= i < |out'| && 0 <= j < |x'| ensures out'[i] != x'[j] {
      assert x'[j] == x[j + 1];
    }
  }

  lemma TakeFromSecond(out: seq<Item>, x: seq<Item>, y: seq<Item>)
    requires Separate(out, x, y) && y != []
    ensures Separate(out + [y[0]], x, y[1..])
  {
    var out', y' := out + [y[0]], y[1..];
    forall i, j | 0 <= i < |out'| && 0 <= j < |y'| ensures out'[i] != y'[j] {
      assert y'[j] == y[j + 1];
    }
  }

  lemma MergeOne(out: seq<Item>, x: seq<Item>, y: seq<Item>)
    requires x != [] && y != []
    ensures out + Merge(x, y, ItemKey) ==
            if CompareStrings(ItemKey(x[0]), ItemKey(y[0]), false) < 0
            then (out + [x[0]]) + Merge(x[1..], y, ItemKey)
            else (out + [y[0]]) + Merge(x, y[1..], ItemKey)
  {
    hide CompareStrings;
    var less := CompareStrings(ItemKey(x[0]), ItemKey(y[0]), false) < 0;
    var head := if less then [x[0]] else [y[0]];
    var rest := if less then Merge(x[1..], y, ItemKey) else Merge(x, y[1..], ItemKey);
    assert Merge(x, y, ItemKey) == head + rest;
    assert out + (head + rest) == (out + head) + rest;
  }

  lemma TailIsChain(x: seq<Item>)
    requires Forward(x) && Backward(x) && x != []
    ensures Forward(x[1..]) && Backward(x[1..])
    ensures x[0].next == First(x[1..])
  {
    assert x[0].next == if 1 < |x| then x[1] else null;
    forall i {:trigger x[1..][i].next} | 0 <= i < |x[1..]|
      ensures x[1..][i].next == if i + 1 < |x[1..]| then x[1..][i + 1] else null
    {
      assert x[1..][i] == x[i + 1] && x[i + 1].next == if i + 2 < |x| then x[i + 2] else null;
    }
    forall i {:trigger x[1..][i].prev} | 1 <= i < |x[1..]| ensures x[1..][i].prev == x[1..][i - 1] {
      assert x[1..][i] == x[i + 1] && x[i + 1].prev == x[i];
    }
  }

  lemma OneMore(out: seq<Item>, node: Item)
    requires LinkedUp(out)
    requires out != [] ==> out[|out| - 1].next == node && node.prev == out[|out| - 1]
    ensures LinkedUp(out + [node])
  {
  }

  lemma Concatenated(out: seq<Item>, x: seq<Item>)
    requires LinkedUp(out) && Forward(x) && Backward(x) && Separate(out, x, [])
    requires out != [] && x != [] && out[|out| - 1].next == x[0] && x[0].prev == out[|out| - 1]
    ensures Chain(out + x)
  {
    var all := out + x;
    forall i {:trigger all[i].next} | 0 <= i < |all|
      ensures all[i].next == if i + 1 < |all| then all[i + 1] else null
    {
      if i >= |out| {
        assert all[i] == x[i - |out|];
        assert x[i - |out|].next == if i - |out| + 1 < |x| then x[i - |out| + 1] else null;
      } else if i < |out| - 1 {
        assert out[i].next == out[i + 1];
      }
    }
    forall i {:trigger all[i].prev} | 1 <= i < |all| ensures all[i].prev == all[i - 1] {
      if i > |out| {
        assert x[i - |out|].prev == x[i - |out| - 1];
      } else if i < |out| {
        assert out[i].prev == out[i - 1];
      }
    }
  }

  /** Hanging `node` behind the result leaves both remaining lists and the result linked. */
  method LinkNode(tail: Item?, node: Item, ghost out: seq<Item>, ghost x: seq<Item>, ghost y: seq<Item>)
    requires Separate(out, x, y) && LinkedUp(out)
    requires Forward(x) && Forward(y) && Backward(x) && Backward(y)
    requires (x != [] && node == x[0]) || (y != [] && node == y[0])
    requires tail == if out == [] then null else out[|out| - 1]
    modifies if tail == null then {} else {tail, node}
    ensures LinkedUp(out) && Forward(x) && Forward(y) && Backward(x) && Backward(y)
    ensures tail != null ==> tail.next == node && node.prev == tail
    ensures out != [] ==> out[0].prev == old(out[0].prev)
  {
    if tail != null {
      Link(tail, node);
    }
  }

  method MergeLists(first: Item?, second: Item?, ghost a: seq<Item>, ghost b: seq<Item>)
    returns (result: Item?)
    requires Chain(a) && Chain(b) && Separate([], a, b) && a != [] && b != []
    requires first == First(a) && second == First(b)
    modifies a, b
    ensures result == First(Merge(a, b, ItemKey))
    ensures Chain(Merge(a, b, ItemKey))
    ensures Merge(a, b, ItemKey)[0].prev == old(Merge(a, b, ItemKey)[0].prev)
  {
    StartMerging(a, b);
    hide CompareStrings, NoDuplicates, Merge, Forward, Backward, LinkedUp, Separate, Chain;
    ghost var all := Merge(a, b, ItemKey);
    assert all == [] + Merge(a, b, ItemKey);
    MergedHeadIsNode(a, b);
    result := null;
    var tail: Item? := null;
    var f, s := first, second;
    ghost var out: seq<Item>, x, y, nodes := [], a, b, NodesOf(a, b);
    while f != null && s != null
      invariant all == out + Merge(x, y, ItemKey)
      invariant Merging(out, x, y, result, tail, f, s, nodes)
      invariant out == [] ==> f != null && s != null
      invariant all[0] in nodes && all[0].prev == old(all[0].prev)
      decreases |x| + |y|
    {
      f, s, tail, result, out, x, y := MergeStep(f, s, tail, result, out, x, y, nodes);
    }
    AppendRest(f, s, tail, result, out, x, y, nodes);
  }

  /** Appending what is left of the one list that is not exhausted. */
  method AppendRest(f: Item?, s: Item?, tail: Item?, result: Item?,
                    ghost out: seq<Item>, ghost x: seq<Item>, ghost y: seq<Item>, ghost nodes: set<Item>)
    requires Merging(out, x, y, result, tail, f, s, nodes) && (f == null || s == null) && out != []
    modifies nodes
    ensures Chain(out + Merge(x, y, ItemKey)) && out[0].prev == old(out[0].prev)
  {
    assert Separate(out, x, []) && Separate(out, y, []);
    ghost var z := if f != null then x else y;
    var rest: Item := if f != null then f else s;
    LinkNode(tail, rest, out, x, y);
    assert out + Merge(x, y, ItemKey) == out + z;
    Concatenated(out, z);
  }

  lemma MergedHeadIsNode(a: seq<Item>, b: seq<Item>)
    requires a != [] && b != []
    ensures Merge(a, b, ItemKey) != [] && Merge(a, b, ItemKey)[0] in NodesOf(a, b)
  {
  }

  lemma StartMerging(a: seq<Item>, b: seq<Item>)
    requires Chain(a) && Chain(b) && Separate([], a, b) && a != [] && b != []
    ensures Merging([], a, b, null, null, First(a), First(b), NodesOf(a, b)) && Merge(a, b, ItemKey) != []
  {
    assert NoDuplicates<Item>([]) && LinkedUp([]);
  }

  ghost function NodesOf(a: seq<Item>, b: seq<Item>): set<Item> {
    (set n | n in a) + (set n | n in b)
  }

  /** The state of the merge loop: `out` is linked up to `tail`, `x` and `y` remain. */
  ghost predicate Merging(out: seq<Item>, x: seq<Item>, y: seq<Item>,
                          result: Item?, tail: Item?, f: Item?, s: Item?, nodes: set<Item>)
    reads out, x, y
  {
    && (forall n <- out + x + y :: n in nodes)
    && f == First(x) && s == First(y) && x + y != []
    && Separate(out, x, y) && LinkedUp(out)
    && Forward(x) && Backward(x) && Forward(y) && Backward(y)
    && result == First(out) && tail == (if out == [] then null else out[|out| - 1])
  }

  method MergeStep(f: Item, s: Item, tail: Item?, result: Item?,
                   ghost out: seq<Item>, ghost x: seq<Item>, ghost y: seq<Item>, ghost nodes: set<Item>)
    returns (f': Item?, s': Item?, tail': Item?, result': Item?,
             ghost out': seq<Item>, ghost x': seq<Item>, ghost y': seq<Item>)
    requires Merging(out, x, y, result, tail, f, s, nodes)
    modifies nodes
    ensures Merging(out', x', y', result', tail', f', s', nodes)
    ensures out' + Merge(x', y', ItemKey) == out + Merge(x, y, ItemKey)
    ensures out' != [] && out'[0] in nodes && |x'| + |y'| < |x| + |y|
    ensures out'[0].prev == old(out'[0].prev)
  {
    MergeOne(out, x, y);
    var takeFirst := CompareStrings(f.key, s.key, false) < 0;
    var smaller := if takeFirst then f else s;
    LinkNode(tail, smaller, out, x, y);
    OneMore(out, smaller);
    result' := if result == null then smaller else result;
    tail' := smaller;
    out' := out + [smaller];
    if f == smaller {
      TakeFromFirst(out, x, y);
      TailIsChain(x);
      f', s', x', y' := f.next, s, x[1..], y;
    } else {
      TakeFromSecond(out, x, y);
      TailIsChain(y);
      f', s', x', y' := f, s.next, x, y[1..];
    }
  }

  // ----- sorting

  lemma HalvesOfChain(s: seq<Item>, m: nat)
    requires NoDuplicates(s) && 0 < m < |s|
    ensures NoDuplicates(s[..m]) && NoDuplicates(s[m..]) && Separate([], s[..m], s[m..])
  {
    forall i, j | 0 <= i < m && 0 <= j < |s| - m ensures s[..m][i] != s[m..][j] {
      assert s[m..][j] == s[m + j];
    }
  }

  lemma CutChain(s: seq<Item>, m: nat)
    requires NoDuplicates(s) && 0 < m < |s| && Backward(s)
    requires forall i {:trigger s[i].next} :: 0 <= i < |s| && i != m - 1 ==>
               s[i].next == (if i + 1 < |s| then s[i + 1] else null)
    requires s[m - 1].next == null
    ensures Chain(s[..m]) && Chain(s[m..])
  {
    var a, b := s[..m], s[m..];
    HalvesOfChain(s, m);
    forall i {:trigger b[i].next} | 0 <= i < |b| ensures b[i].next == if i + 1 < |b| then b[i + 1] else null {
      assert b[i] == s[m + i] && s[m + i].next == if m + i + 1 < |s| then s[m + i + 1] else null;
    }
    forall i {:trigger b[i].prev} | 1 <= i < |b| ensures b[i].prev == b[i - 1] {
      assert b[i] == s[m + i] && s[m + i].prev == s[m + i - 1];
    }
  }

  /** Sorting keeps nodes apart from the nodes of another list. */
  lemma SortedStaysApart(a: seq<Item>, b: seq<Item>, cs: bool)
    requires Separate([], a, b)
    ensures |SortList(a, ItemKey, cs)| == |a|
    ensures forall i :: 0 <= i < |a| ==> SortList(a, ItemKey, cs)[i] in a
    ensures Separate([], SortList(a, ItemKey, cs), b)
  {
    hide CompareStrings, NeighboursSorted, Merge;
    var a' := SortList(a, ItemKey, cs);
    SortPermutes(a, ItemKey, cs);
    forall i | 0 <= i < |a'| ensures a'[i] in a {
      assert a'[i] in multiset(a');
    }
    SortKeepsNoDuplicates(a, cs);
    forall i, j | 0 <= i < |a'| && 0 <= j < |b| ensures a'[i] != b[j] {
      var k :| 0 <= k < |a| && a[k] == a'[i];
    }
  }

  lemma SortKeepsNoDuplicates(a: seq<Item>, cs: bool)
    requires NoDuplicates(a)
    ensures NoDuplicates(SortList(a, ItemKey, cs))
  {
    hide CompareStrings, NeighboursSorted, Merge;
    var t := SortList(a, ItemKey, cs);
    SortPermutes(a, ItemKey, cs);
    forall i, j | 0 <= i < j < |t| ensures t[i] != t[j] {
      if t[i] == t[j] {
        TwiceIsTwo(t, i, j);
        AtMostOnce(a, t[i]);
      }
    }
  }

  lemma {:induction false} AtMostOnce(a: seq<Item>, x: Item)
    requires NoDuplicates(a)
    ensures multiset(a)[x] <= 1
  {
    if a != [] {
      assert a == [a[0]] + a[1..];
      AtMostOnce(a[1..], x);
      forall i | 0 <= i < |a[1..]| ensures a[1..][i] != a[0] {
        assert a[1..][i] == a[i + 1];
      }
    }
  }

  lemma SeparateIsSymmetric(a: seq<Item>, b: seq<Item>)
    requires Separate([], a, b)
    ensures Separate([], b, a)
  {
  }

  /** The nodes of the sorted list, given those of its sorted halves. */
  lemma SortedIsMerged(s: seq<Item>, cs: bool)
    requires |s| >= 2 && !NeighboursSorted(s, ItemKey, cs)
    ensures SortList(s, ItemKey, cs)
         == Merge(SortList(s[..Middle(|s|)], ItemKey, cs), SortList(s[Middle(|s|)..], ItemKey, cs), ItemKey)
  {
  }

  /** `sort_list`.  The links among the sorted nodes come out right, but the first node keeps the `prev`
      it had before. */
  method SortItems(list: Item?, ghost s: seq<Item>, cs: bool) returns (result: Item?)
    requires Chain(s) && list == First(s)
    modifies s
    ensures result == First(SortList(s, ItemKey, cs))
    ensures Chain(SortList(s, ItemKey, cs))
    ensures s != [] ==> SortList(s, ItemKey, cs) != []
    ensures s != [] ==> SortList(s, ItemKey, cs)[0].prev == old(SortList(s, ItemKey, cs)[0].prev)
    decreases |s|, 1
  {
    if list == null || list.next == null {
      assert |s| <= 1;
      return list;
    }
    var sorted := IsSorted(list, s, cs);
    if sorted {
      assert SortList(s, ItemKey, cs) == s;
      return list;
    }
    SortedHeadIsNode(s, cs);
    result := SortHalves(list, s, cs);
  }

  lemma SortedHeadIsNode(s: seq<Item>, cs: bool)
    requires s != []
    ensures SortList(s, ItemKey, cs) != [] && SortList(s, ItemKey, cs)[0] in s
  {
    SortPermutes(s, ItemKey, cs);
    assert SortList(s, ItemKey, cs)[0] in multiset(SortList(s, ItemKey, cs));
  }

  method SortHalves(list: Item, ghost s: seq<Item>, cs: bool) returns (result: Item?)
    requires Chain(s) && list == First(s) && |s| >= 2 && !NeighboursSorted(s, ItemKey, cs)
    modifies s
    ensures result == First(SortList(s, ItemKey, cs))
    ensures Chain(SortList(s, ItemKey, cs)) && SortList(s, ItemKey, cs) != []
    ensures SortList(s, ItemKey, cs)[0].prev == old(SortList(s, ItemKey, cs)[0].prev)
    decreases |s|, 0
  {
    hide SortList, NeighboursSorted;
    ghost var m := Middle(|s|);
    ghost var a, b := s[..m], s[m..];
    ghost var a', b' := SortList(a, ItemKey, cs), SortList(b, ItemKey, cs);
    hide Chain, Forward, Backward, NoDuplicates, Merge;
    var second := CutInHalf(list, s);
    HalvesSorted(a, b, a', b', cs);
    SortedIsMerged(s, cs);
    var first := SortItems(list, a, cs);
    second := SortItems(second, b, cs);
    result := MergeLists(first, second, a', b');
    MergeKeepsLength(a', b');
  }

  /** The forward link at the middle is cut; no `prev` changes. */
  method CutInHalf(list: Item, ghost s: seq<Item>) returns (second: Item?)
    requires Chain(s) && list == First(s) && |s| >= 2
    modifies s`next
    ensures var m := Middle(|s|);
      && 0 < m < |s| && Chain(s[..m]) && Chain(s[m..]) && Separate([], s[..m], s[m..])
      && list == First(s[..m]) && second == First(s[m..])
  {
    ghost var m := Middle(|s|);
    second := FindMiddle(list, s);
    assert second.prev == s[m - 1];
    second.prev.next := null;
    CutChain(s, m);
    HalvesOfChain(s, m);
  }

  lemma HalvesSorted(a: seq<Item>, b: seq<Item>, a': seq<Item>, b': seq<Item>, cs: bool)
    requires Separate([], a, b) && a' == SortList(a, ItemKey, cs) && b' == SortList(b, ItemKey, cs)
    ensures |a'| == |a| && |b'| == |b| && Separate([], a', b) && Separate([], a', b')
    ensures forall i :: 0 <= i < |a'| ==> a'[i] in a
    ensures forall i :: 0 <= i < |b'| ==> b'[i] in b
  {
    hide SortList, Separate;
    SortedStaysApart(a, b, cs);
    SeparateIsSymmetric(a', b);
    SortedStaysApart(b, a', cs);
    SeparateIsSymmetric(b', a');
  }

  lemma MergeKeepsLength(a: seq<Item>, b: seq<Item>)
    ensures |Merge(a, b, ItemKey)| == |a| + |b|
  {
    MergePermutes(a, b, ItemKey);
    assert |multiset(Merge(a, b, ItemKey))| == |multiset(a)| + |multiset(b)|;
  }

  // ----- editing the list of a container

  /** The list of a container; `stale` says that its first node has a `prev`. */
  ghost predicate Lists(c: Container, s: seq<Item>, stale: bool)
    reads c, s
  {
    c.child == First(s) && Chain(s) && (stale <==> s != [] && s[0].prev != null)
  }

  ghost predicate Holds(c: Container, s: seq<Item>)
    reads c, s
  {
    c.child == First(s) && WellLinked(s)
  }

  ghost predicate HeadMoves(s: seq<Item>, cs: bool) {
    s != [] && First(SortList(s, ItemKey, cs)) != s[0]
  }

  /** `sort_object`.  A new first member points back into the list. */
  method SortObject(c: Container, ghost s: seq<Item>, ghost stale: bool, cs: bool)
    requires Lists(c, s, stale)
    modifies c, s
    ensures Lists(c, SortList(s, ItemKey, cs), stale || HeadMoves(s, cs))
    ensures s != [] ==> SortList(s, ItemKey, cs) != []
                        && SortList(s, ItemKey, cs)[0].prev == old(SortList(s, ItemKey, cs)[0].prev)
  {
    hide SortList;
    if c.child != null {
      SortedHeadIsNode(s, cs);
      ghost var i :| 0 <= i < |s| && s[i] == SortList(s, ItemKey, cs)[0];
      assert i > 0 ==> s[i].prev == s[i - 1];
    } else {
      NothingToSort(s, cs);
    }
    c.child := SortItems(c.child, s, cs);
  }

  lemma NothingToSort(s: seq<Item>, cs: bool)
    requires s == []
    ensures SortList(s, ItemKey, cs) == []
  {
  }

  /** `add_item_to_array`. */
  method AddItemToArray(c: Container, item: Item, ghost s: seq<Item>, ghost stale: bool)
    requires Lists(c, s, stale) && item !in s && item.next == null && item.prev == null
    modifies c, s, item
    ensures Lists(c, s + [item], stale)
  {
    if c.child == null {
      c.child := item;
      return;
    }
    var last := c.child;
    ghost var i := 0;
    while last.next != null
      invariant i < |s| && last == s[i]
      decreases |s| - i
    {
      last, i := last.next, i + 1;
    }
    assert i == |s| - 1;
    Link(last, item);
    assert LinkedUp(s) && Forward([item]) && Backward([item]);
    Concatenated(s, [item]);
  }

  /** `insert_item_in_array`; the position behind the last element is allowed, any later one is not. */
  method InsertItemInArray(c: Container, which: nat, item: Item, ghost s: seq<Item>) returns (ok: bool)
    requires Holds(c, s) && item !in s && item.next == null && item.prev == null
    modifies c, s, item
    ensures ok <==> which <= |s|
    ensures Holds(c, if ok then InsertAt(s, which, item) else s)
  {
    var child, w := c.child, which;
    ghost var i := 0;
    while child != null && w > 0
      invariant 0 <= i <= |s| && child == (if i < |s| then s[i] else null)
      invariant w >= 0 && w + i == which
      decreases |s| - i
    {
      child, w, i := child.next, w - 1, i + 1;
    }
    if w > 0 {
      return false;
    }
    if child == null {
      AddItemToArray(c, item, s, false);
      assert InsertAt(s, which, item) == s + [item];
      return true;
    }
    InsertBefore(c, child, item, s, which);
    ok := true;
  }

  method InsertBefore(c: Container, child: Item, item: Item, ghost s: seq<Item>, ghost k: nat)
    requires Holds(c, s) && item !in s && k < |s| && s[k] == child
    modifies c, s, item
    ensures Holds(c, InsertAt(s, k, item))
  {
    ghost var t := InsertAt(s, k, item);
    assert k > 0 ==> s[k].prev == s[k - 1];
    item.next := child;
    item.prev := child.prev;
    child.prev := item;
    if child == c.child {
      c.child := item;
    } else {
      item.prev.next := item;
    }
    assert t[k] == item && forall i :: 0 <= i < |t| && i != k ==> t[i] == s[if i < k then i else i - 1];
    forall i {:trigger t[i].next} | 0 <= i < |t| ensures t[i].next == if i + 1 < |t| then t[i + 1] else null {
      if i > k { assert s[i - 1].next == if i < |s| then s[i] else null; }
      if i < k - 1 { assert s[i].next == s[i + 1]; }
    }
    forall i {:trigger t[i].prev} | 1 <= i < |t| ensures t[i].prev == t[i - 1] {
      if i > k + 1 { assert s[i - 1].prev == s[i - 2]; }
      if i < k { assert s[i].prev == s[i - 1]; }
    }
  }

  /** Starting at `s[1]` and following `next` comes back to `s[1]` by way of `s[p]`. */
  ghost predicate Loops(s: seq<Item>, p: nat)
    requires 1 <= p < |s|
    reads s
  {
    (forall j :: 1 <= j < p ==> s[j].next == s[j + 1]) && s[p].next == s[1]
  }

  /** `cJSON_DetachItemViaPointer`.  Any item of a well linked list, and any but the first of another one, is
      taken out; detaching a first node that points back at `s[p]` makes a cycle of what should be the rest of
      the list. */
  method DetachItemViaPointer(c: Container, item: Item, ghost s: seq<Item>, ghost k: nat, ghost stale: bool)
    requires Lists(c, s, stale) && k < |s| && s[k] == item
    modifies c, s, if stale then {s[0].prev} else {}
    ensures item.next == null && item.prev == null
    ensures k > 0 || !stale ==> Lists(c, RemoveAt(s, k), stale)
    ensures forall p :: 1 <= p < |s| && k == 0 && old(s[0].prev) == s[p] ==> c.child == s[1] && Loops(s, p)
  {
    assert item.next == if k + 1 < |s| then s[k + 1] else null;
    assert k > 0 ==> item.prev == s[k - 1];
    if item.prev != null {
      item.prev.next := item.next;
    }
    if item.next != null {
      item.next.prev := item.prev;
    }
    if item == c.child {
      c.child := item.next;
    }
    item.prev := null;
    item.next := null;
    if k > 0 || !stale {
      DetachedChain(s, k);
    }
  }

  /** The list without its item at `k`, once the neighbours are linked to each other. */
  lemma DetachedChain(s: seq<Item>, k: nat)
    requires NoDuplicates(s) && k < |s|
    requires forall i {:trigger s[i].next} :: 0 <= i < |s| && i != k && i + 1 != k ==>
               s[i].next == (if i + 1 < |s| then s[i + 1] else null)
    requires k > 0 ==> s[k - 1].next == if k + 1 < |s| then s[k + 1] else null
    requires forall i {:trigger s[i].prev} :: 1 <= i < |s| && i != k && i != k + 1 ==> s[i].prev == s[i - 1]
    requires 0 < k < |s| - 1 ==> s[k + 1].prev == s[k - 1]
    ensures Chain(RemoveAt(s, k)) && First(RemoveAt(s, k)) == if k > 0 then s[0] else if |s| > 1 then s[1] else null
  {
    var rest := RemoveAt(s, k);
    assert forall i :: 0 <= i < |rest| ==> rest[i] == s[if i < k then i else i + 1];
    forall i {:trigger rest[i].next} | 0 <= i < |rest|
      ensures rest[i].next == if i + 1 < |rest| then rest[i + 1] else null
    {
      var j := if i < k then i else i + 1;
      assert j + 1 != k ==> s[j].next == if j + 1 < |s| then s[j + 1] else null;
    }
    forall i {:trigger rest[i].prev} | 1 <= i < |rest| ensures rest[i].prev == rest[i - 1] {
      var j := if i < k then i else i + 1;
      assert j != k + 1 ==> s[j].prev == s[j - 1];
    }
  }

  /** `detach_item_from_array`. */
  method DetachItemFromArray(c: Container, which: nat, ghost s: seq<Item>) returns (item: Item?)
    requires Holds(c, s)
    modifies c, s
    ensures which < |s| ==> item == s[which] && item.next == null && item.prev == null && Holds(c, RemoveAt(s, which))
    ensures which >= |s| ==> item == null && Holds(c, s)
  {
    item := c.child;
    var w := which;
    ghost var i := 0;
    while item != null && w > 0
      invariant 0 <= i <= |s| && item == (if i < |s| then s[i] else null)
      invariant w >= 0 && w + i == which
      decreases |s| - i
    {
      item, w, i := item.next, w - 1, i + 1;
    }
    if item != null {
      DetachItemViaPointer(c, item, s, i, false);
    }
  }

  /** Sorting a well linked list and then detaching the item that comes to stand at `k`: the list is the sorted
      one without that item if and only if another item is detached than the first, or the first member is
      the one it was before. */
  method SortThenDetach(c: Container, item: Item, ghost s: seq<Item>, ghost k: nat, cs: bool)
    requires Holds(c, s) && k < |SortList(s, ItemKey, cs)| && item == SortList(s, ItemKey, cs)[k]
    modifies c, s
    ensures Lists(c, RemoveAt(SortList(s, ItemKey, cs), k), HeadMoves(s, cs)) <==> k > 0 || !HeadMoves(s, cs)
  {
    SortKeepsMembers(s, ItemKey, cs);
    hide SortList;
    ghost var t := SortList(s, ItemKey, cs);
    ghost var i :| 0 <= i < |s| && s[i] == t[0];
    ghost var before := s[i].prev;
    assert HeadMoves(s, cs) ==> i > 0 && before == s[i - 1];
    SortObject(c, s, false, cs);
    assert HeadMoves(s, cs) ==> t[0].prev == before && before in s;
    DetachItemViaPointer(c, item, t, k, HeadMoves(s, cs));
    if k == 0 && HeadMoves(s, cs) {
      assert s[i - 1] in t;
      ghost var p :| 0 <= p < |t| && t[p] == s[i - 1];
      assert p > 0;
      LoopIsNoList(t, p);
    }
  }

  /** A list with a cycle does not end. */
  lemma LoopIsNoList(s: seq<Item>, p: nat)
    requires NoDuplicates(s) && 1 <= p < |s| && Loops(s, p)
    ensures !Chain(RemoveAt(s, 0))
  {
    var rest := RemoveAt(s, 0);
    assert rest[p - 1] == s[p] && rest[0] == s[1] && (p < |rest| ==> rest[p] == s[p + 1]);
    assert rest[p - 1].next != if p < |rest| then rest[p] else null;
  }

  /** The smallest document on which sorting and then removing the first member goes wrong. */
  method RemoveAfterSort() returns (c: Container)
    ensures c.child != null && c.child.next == c.child
  {
    var b, a;
    c, b, a := ListOfTwo();
    ghost var s := [b, a];
    TwoSorted(s, b, a);
    assert s[1].prev == s[0];
    SortObject(c, s, false, true);
    ghost var t := [a, b];
    assert t[0].prev == t[1];
    DetachItemViaPointer(c, a, t, 0, true);
  }

  method ListOfTwo() returns (c: Container, b: Item, a: Item)
    ensures fresh(c) && fresh(b) && fresh(a)
    ensures b.key == "b" && a.key == "a" && Holds(c, [b, a])
  {
    b := new Item("b");
    a := new Item("a");
    c := new Container();
    AddItemToArray(c, b, [], false);
    assert [] + [b] == [b];
    AddItemToArray(c, a, [b], false);
    assert [b] + [a] == [b, a];
  }

  lemma TwoSorted(s: seq<Item>, b: Item, a: Item)
    requires s == [b, a] && b.key == "b" && a.key == "a"
    ensures SortList(s, ItemKey, true) == [a, b]
  {
    assert Less("a", "b") && !Less("b", "a");
    assert CompareStrings(ItemKey(s[0]), ItemKey(s[0 + 1]), true) == 1;
    assert !NeighboursSorted(s, ItemKey, true);
    assert s[..1] == [b] && s[1..] == [a];
    FoldIsIdentity("a", false);
    FoldIsIdentity("b", false);
    assert CompareStrings("b", "a", false) == 1;
    assert [a][1..] == [] && Merge([b], [], ItemKey) == [b];
    assert Merge([b], [a], ItemKey) == [a] + [b];
    assert SortList([b], ItemKey, true) == [b] && SortList([a], ItemKey, true) == [a];
  }
}
