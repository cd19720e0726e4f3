/** The circular doubly linked lists of `list.h`. */
module Ring {
  import opened Sequences

  /** One link field inside a node.  `owner` is the node that `container_of` finds from the link;
      the head of a list has none. */
  class ListHead<T> {
    var next: ListHead?<T>
    var prev: ListHead?<T>
    var owner: T

    constructor (owner: T)
      ensures this.owner == owner && next == null && prev == null
    {
      this.owner := owner;
      next, prev := null, null;
    }
  }

  function Succ(i: nat, n: nat): nat {
    if i + 1 == n then 0 else i + 1
  }

  function Pred(i: nat, n: nat): nat
    requires i < n
  {
    if i == 0 then n - 1 else i - 1
  }

  /** `r` lists the links of one ring in order, the head first. */
  ghost predicate IsRing<T>(r: seq<ListHead<T>>)
    reads r
  {
    r != [] && NoDuplicates(r) && NextExcept(r, -1) && PrevExcept(r, -1)
  }

  /** Every link of the ring but the one at position `k` leads on to the next one. */
  ghost predicate NextExcept<T>(r: seq<ListHead<T>>, k: int)
    reads r
  {
    forall i {:trigger r[i].next} :: 0 <= i < |r| && i != k ==> r[i].next == r[Succ(i, |r|)]
  }

  ghost predicate PrevExcept<T>(r: seq<ListHead<T>>, k: int)
    reads r
  {
    forall i {:trigger r[i].prev} :: 0 <= i < |r| && i != k ==> r[i].prev == r[Pred(i, |r|)]
  }

  ghost function Links<T>(r: seq<ListHead<T>>): set<ListHead<T>> {
    set x | x in r
  }

  method InitListHead<T>(list: ListHead<T>)
    modifies list`next, list`prev
    ensures IsRing([list])
  {
    list.next := list;
    list.prev := list;
  }

  method ListEmpty<T>(head: ListHead<T>, ghost r: seq<ListHead<T>>) returns (empty: bool)
    requires IsRing(r) && head == r[0]
    ensures empty <==> r == [head]
  {
    assert r[0].next == r[Succ(0, |r|)];
    empty := head.next == head;
  }

  /** `_list_add`: between two neighbours. */
  method ListAddBetween<T>(entry: ListHead<T>, prev: ListHead<T>, next: ListHead<T>,
                           ghost r: seq<ListHead<T>>, ghost k: nat)
    requires IsRing(r) && entry !in r
    requires k < |r| && prev == r[k] && next == r[Succ(k, |r|)]
    modifies Links(r)`next, Links(r)`prev, entry`next, entry`prev
    ensures IsRing(r[..k + 1] + [entry] + r[k + 1..])
  {
    next.prev := entry;
    entry.next := next;
    entry.prev := prev;
    prev.next := entry;
    assert NextExcept(r, k) && PrevExcept(r, Succ(k, |r|));
    hide NextExcept, PrevExcept, NoDuplicates;
    AddedNext(r, k, entry);
    AddedPrev(r, k, entry);
    AddedApart(r, k, entry);
  }

  lemma AddedApart<T>(r: seq<ListHead<T>>, k: nat, entry: ListHead<T>)
    requires k < |r| && NoDuplicates(r) && entry !in r
    ensures NoDuplicates(r[..k + 1] + [entry] + r[k + 1..])
  {
  }

  lemma AddedNext<T>(r: seq<ListHead<T>>, k: nat, entry: ListHead<T>)
    requires k < |r| && NextExcept(r, k) && r[k].next == entry && entry.next == r[Succ(k, |r|)]
    ensures NextExcept(r[..k + 1] + [entry] + r[k + 1..], -1)
  {
    var t := r[..k + 1] + [entry] + r[k + 1..];
    assert forall i :: 0 <= i < |t| ==> t[i] == if i <= k then r[i] else if i == k + 1 then entry else r[i - 1];
    forall i {:trigger t[i].next} | 0 <= i < |t| ensures t[i].next == t[Succ(i, |t|)] {
      if i < k { assert r[i].next == r[Succ(i, |r|)]; }
      if i > k + 1 { assert r[i - 1].next == r[Succ(i - 1, |r|)]; }
    }
  }

  lemma AddedPrev<T>(r: seq<ListHead<T>>, k: nat, entry: ListHead<T>)
    requires k < |r| && PrevExcept(r, Succ(k, |r|)) && r[Succ(k, |r|)].prev == entry && entry.prev == r[k]
    ensures PrevExcept(r[..k + 1] + [entry] + r[k + 1..], -1)
  {
    var t := r[..k + 1] + [entry] + r[k + 1..];
    assert forall i :: 0 <= i < |t| ==> t[i] == if i <= k then r[i] else if i == k + 1 then entry else r[i - 1];
    forall i {:trigger t[i].prev} | 0 <= i < |t| ensures t[i].prev == t[Pred(i, |t|)] {
      if i <= k { assert r[i].prev == r[Pred(i, |r|)] || i == Succ(k, |r|); }
      if i > k + 2 { assert r[i - 1].prev == r[Pred(i - 1, |r|)]; }
    }
  }

  method ListAdd<T>(entry: ListHead<T>, head: ListHead<T>, ghost r: seq<ListHead<T>>)
    requires IsRing(r) && entry !in r && head == r[0]
    modifies Links(r)`next, Links(r)`prev, entry`next, entry`prev
    ensures IsRing([head, entry] + r[1..])
  {
    assert head.next == r[Succ(0, |r|)];
    ghost var t := [head, entry] + r[1..];
    EntryBehindHead(r, entry);
    hide NextExcept, PrevExcept, NoDuplicates;
    ListAddBetween(entry, head, head.next, r, 0);
  }

  lemma EntryBehindHead<T>(r: seq<ListHead<T>>, entry: ListHead<T>)
    requires r != []
    ensures r[..1] + [entry] + r[1..] == [r[0], entry] + r[1..]
  {
  }

  method ListAddTail<T>(entry: ListHead<T>, head: ListHead<T>, ghost r: seq<ListHead<T>>)
    requires IsRing(r) && entry !in r && head == r[0]
    modifies Links(r)`next, Links(r)`prev, entry`next, entry`prev
    ensures IsRing(r + [entry])
  {
    assert head.prev == r[Pred(0, |r|)];
    ListAddBetween(entry, head.prev, head, r, |r| - 1);
    assert r[..|r|] + [entry] + r[|r|..] == r + [entry];
  }

  /** `_list_del`: the neighbours close ranks; the entry keeps its own links. */
  method Unlink<T>(entry: ListHead<T>, ghost r: seq<ListHead<T>>, ghost k: nat)
    requires IsRing(r) && 1 <= k < |r| && entry == r[k]
    modifies Links(r)`next, Links(r)`prev
    ensures IsRing(RemoveAt(r, k))
  {
    assert entry.next == r[Succ(k, |r|)] && entry.prev == r[Pred(k, |r|)];
    entry.next.prev := entry.prev;
    entry.prev.next := entry.next;
    assert NextExcept(r, k - 1) && PrevExcept(r, Succ(k, |r|));
    hide NextExcept, PrevExcept, NoDuplicates;
    RemovedNext(r, k);
    RemovedPrev(r, k);
    RemovedApart(r, k);
  }

  lemma RemovedApart<T>(r: seq<ListHead<T>>, k: nat)
    requires 1 <= k < |r| && NoDuplicates(r)
    ensures NoDuplicates(RemoveAt(r, k)) && RemoveAt(r, k) != []
  {
    var t := RemoveAt(r, k);
    assert forall i :: 0 <= i < |t| ==> t[i] == r[if i < k then i else i + 1];
  }

  lemma RemovedNext<T>(r: seq<ListHead<T>>, k: nat)
    requires 1 <= k < |r| && NextExcept(r, k - 1) && r[k - 1].next == r[Succ(k, |r|)]
    ensures NextExcept(RemoveAt(r, k), -1)
  {
    var t := RemoveAt(r, k);
    assert forall i :: 0 <= i < |t| ==> t[i] == r[if i < k then i else i + 1];
    forall i {:trigger t[i].next} | 0 <= i < |t| ensures t[i].next == t[Succ(i, |t|)] {
      var j := if i < k then i else i + 1;
      if j != k - 1 { assert r[j].next == r[Succ(j, |r|)]; }
    }
  }

  lemma RemovedPrev<T>(r: seq<ListHead<T>>, k: nat)
    requires 1 <= k < |r| && PrevExcept(r, Succ(k, |r|)) && r[Succ(k, |r|)].prev == r[k - 1]
    ensures PrevExcept(RemoveAt(r, k), -1)
  {
    var t := RemoveAt(r, k);
    assert forall i :: 0 <= i < |t| ==> t[i] == r[if i < k then i else i + 1];
    forall i {:trigger t[i].prev} | 0 <= i < |t| ensures t[i].prev == t[Pred(i, |t|)] {
      var j := if i < k then i else i + 1;
      if j != Succ(k, |r|) { assert r[j].prev == r[Pred(j, |r|)]; }
    }
  }

  lemma NotLeft<T>(r: seq<ListHead<T>>, k: nat)
    requires NoDuplicates(r) && 1 <= k < |r|
    ensures var t := RemoveAt(r, k); t != [] && t[0] == r[0] && r[k] !in t && forall x <- t :: x in r
  {
    var t := RemoveAt(r, k);
    assert forall i :: 0 <= i < |t| ==> t[i] == r[if i < k then i else i + 1];
  }

  method ListDel<T>(entry: ListHead<T>, ghost r: seq<ListHead<T>>, ghost k: nat)
    requires IsRing(r) && 1 <= k < |r| && entry == r[k]
    modifies Links(r)`next, Links(r)`prev
    ensures IsRing(RemoveAt(r, k)) && entry.next == null && entry.prev == null
  {
    NotLeft(r, k);
    hide IsRing, RemoveAt;
    Unlink(entry, r, k);
    entry.next, entry.prev := null, null;
  }

  method ListMoveTail<T>(entry: ListHead<T>, head: ListHead<T>, ghost r: seq<ListHead<T>>, ghost k: nat)
    requires IsRing(r) && 1 <= k < |r| && entry == r[k] && head == r[0]
    modifies Links(r)`next, Links(r)`prev
    ensures IsRing(RemoveAt(r, k) + [entry])
  {
    NotLeft(r, k);
    hide IsRing, RemoveAt;
    Unlink(entry, r, k);
    ListAddTail(entry, head, RemoveAt(r, k));
  }

  /** `_list_splice`: all entries of one list go between two neighbours of another.  The emptied list's
      head keeps pointing into them until it is initialised again. */
  method ListSplice<T>(list: ListHead<T>, prev: ListHead<T>, next: ListHead<T>,
                       ghost s: seq<ListHead<T>>, ghost r: seq<ListHead<T>>, ghost k: nat)
    requires IsRing(s) && list == s[0] && IsRing(r)
    requires forall i, j :: 0 <= i < |s| && 0 <= j < |r| ==> s[i] != r[j]
    requires k < |r| && prev == r[k] && next == r[Succ(k, |r|)]
    modifies Links(s)`next, Links(s)`prev, Links(r)`next, Links(r)`prev
    ensures IsRing(r[..k + 1] + s[1..] + r[k + 1..])
    ensures |s| > 1 ==> list.next == s[1] && list.prev == s[|s| - 1]
  {
    ghost var t := r[..k + 1] + s[1..] + r[k + 1..];
    var empty := ListEmpty(list, s);
    if empty {
      assert t == r;
      return;
    }
    ghost var n := |s| - 1;
    assert s[0].next == s[1] && s[0].prev == s[n];
    var first, last := list.next, list.prev;
    first.prev := prev;
    prev.next := first;
    last.next := next;
    next.prev := last;
    assert NextExcept(r, k) && PrevExcept(r, Succ(k, |r|)) && NextExcept(s, n) && PrevExcept(s, 1);
    SpliceIsSpliced(r, s, k);
    SplicedNext(t, r, s, k);
    SplicedPrev(t, r, s, k);
    SplicedApart(t, r, s, k);
  }

  /** `t` is `r` with the entries of `s` behind position `k`. */
  ghost predicate Spliced<T>(t: seq<ListHead<T>>, r: seq<ListHead<T>>, s: seq<ListHead<T>>, k: nat) {
    && k < |r| && |s| > 1 && |t| == |r| + |s| - 1
    && var n := |s| - 1;
       forall i {:trigger t[i]} :: 0 <= i < |t| ==>
         t[i] == if i <= k then r[i] else if i <= k + n then s[i - k] else r[i - n]
  }

  lemma SpliceIsSpliced<T>(r: seq<ListHead<T>>, s: seq<ListHead<T>>, k: nat)
    requires k < |r| && |s| > 1
    ensures Spliced(r[..k + 1] + s[1..] + r[k + 1..], r, s, k)
  {
  }

  lemma SplicedApart<T>(t: seq<ListHead<T>>, r: seq<ListHead<T>>, s: seq<ListHead<T>>, k: nat)
    requires Spliced(t, r, s, k) && NoDuplicates(r) && NoDuplicates(s)
    requires forall i, j :: 0 <= i < |s| && 0 <= j < |r| ==> s[i] != r[j]
    ensures NoDuplicates(t)
  {
  }

  lemma SplicedNext<T>(t: seq<ListHead<T>>, r: seq<ListHead<T>>, s: seq<ListHead<T>>, k: nat)
    requires Spliced(t, r, s, k) && NextExcept(r, k) && NextExcept(s, |s| - 1)
    requires r[k].next == s[1] && s[|s| - 1].next == r[Succ(k, |r|)]
    ensures NextExcept(t, -1)
  {
    var n := |s| - 1;
    forall i {:trigger t[i].next} | 0 <= i < |t| ensures t[i].next == t[Succ(i, |t|)] {
      if i < k { assert r[i].next == r[Succ(i, |r|)]; }
      else if k < i < k + n { assert s[i - k].next == s[Succ(i - k, |s|)]; }
      else if k + n < i { assert r[i - n].next == r[Succ(i - n, |r|)]; }
    }
  }

  lemma SplicedPrev<T>(t: seq<ListHead<T>>, r: seq<ListHead<T>>, s: seq<ListHead<T>>, k: nat)
    requires Spliced(t, r, s, k) && PrevExcept(r, Succ(k, |r|)) && PrevExcept(s, 1)
    requires s[1].prev == r[k] && r[Succ(k, |r|)].prev == s[|s| - 1]
    ensures PrevExcept(t, -1)
  {
    var n := |s| - 1;
    forall i {:trigger t[i].prev} | 0 <= i < |t| ensures t[i].prev == t[Pred(i, |t|)] {
      if i <= k { assert r[i].prev == r[Pred(i, |r|)] || i == Succ(k, |r|); }
      else if k + 1 < i <= k + n { assert s[i - k].prev == s[Pred(i - k, |s|)]; }
      else if k + n + 1 < i { assert r[i - n].prev == r[Pred(i - n, |r|)]; }
    }
  }
}
