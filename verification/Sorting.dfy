/** `sort_list` on the sequence of list nodes: what the merge sort computes, for any kind of node
    that carries a key. */
module Sorting {
  import opened Text

  ghost predicate StrictlySorted<T>(s: seq<T>, key: T -> string, cs: bool) {
    forall i, j :: 0 <= i < j < |s| ==> Less(Fold(key(s[i]), cs), Fold(key(s[j]), cs))
  }

  ghost predicate Distinct<T>(s: seq<T>, key: T -> string, cs: bool) {
    forall i, j :: 0 <= i < j < |s| ==> Fold(key(s[i]), cs) != Fold(key(s[j]), cs)
  }

  /** The byte order of the keys is also their order when letter case is ignored. */
  ghost predicate SameOrder<T>(s: seq<T>, key: T -> string) {
    forall x <- s, y <- s :: Less(key(x), key(y)) ==> Less(Lower(key(x)), Lower(key(y)))
  }

  /** Keys in non-decreasing order when letter case is ignored. */
  ghost predicate Ordered<T>(s: seq<T>, key: T -> string) {
    forall i, j :: 0 <= i < j < |s| ==> !Less(Lower(key(s[j])), Lower(key(s[i])))
  }

  /** The test for an already sorted list compares neighbours only. */
  predicate NeighboursSorted<T>(s: seq<T>, key: T -> string, cs: bool) {
    forall i :: 0 <= i < |s| - 1 ==> CompareStrings(key(s[i]), key(s[i + 1]), cs) < 0
  }

  /** The merge loop ignores the flag: it always compares case-insensitively, and takes from the
      second list on ties. */
  function Merge<T>(a: seq<T>, b: seq<T>, key: T -> string): seq<T>
    decreases |a| + |b|
  {
    if a == [] then b
    else if b == [] then a
    else if CompareStrings(key(a[0]), key(b[0]), false) < 0 then [a[0]] + Merge(a[1..], b, key)
    else [b[0]] + Merge(a, b[1..], key)
  }

  /** The two-speed walk stops at the middle, rounded up. */
  function Middle(n: nat): nat {
    (n + 1) / 2
  }

  function SortList<T>(s: seq<T>, key: T -> string, cs: bool): seq<T>
    decreases |s|
  {
    if |s| <= 1 || NeighboursSorted(s, key, cs) then s
    else Merge(SortList(s[..Middle(|s|)], key, cs), SortList(s[Middle(|s|)..], key, cs), key)
  }

  lemma {:induction false} MergePermutes<T>(a: seq<T>, b: seq<T>, key: T -> string)
    ensures multiset(Merge(a, b, key)) == multiset(a) + multiset(b)
    decreases |a| + |b|
  {
    if a != [] && b != [] {
      assert a == [a[0]] + a[1..] && b == [b[0]] + b[1..];
      if CompareStrings(key(a[0]), key(b[0]), false) < 0 {
        MergePermutes(a[1..], b, key);
      } else {
        MergePermutes(a, b[1..], key);
      }
    }
  }

  lemma {:induction false} SortPermutes<T>(s: seq<T>, key: T -> string, cs: bool)
    ensures multiset(SortList(s, key, cs)) == multiset(s)
    ensures |SortList(s, key, cs)| == |s|
    decreases |s|
  {
    hide NeighboursSorted, Merge;
    if |s| > 1 && !NeighboursSorted(s, key, cs) {
      var m := Middle(|s|);
      var a, b := s[..m], s[m..];
      SortPermutes(a, key, cs);
      SortPermutes(b, key, cs);
      MergePermutes(SortList(a, key, cs), SortList(b, key, cs), key);
      assert SortList(s, key, cs) == Merge(SortList(a, key, cs), SortList(b, key, cs), key);
      hide SortList;
      assert s == a + b && multiset(s) == multiset(a) + multiset(b);
    }
    hide SortList;
    assert |multiset(SortList(s, key, cs))| == |multiset(s)|;
  }

  lemma SortKeepsMembers<T>(s: seq<T>, key: T -> string, cs: bool)
    ensures forall x :: x in SortList(s, key, cs) <==> x in s
    ensures forall i :: 0 <= i < |SortList(s, key, cs)| ==> SortList(s, key, cs)[i] in s
    ensures |SortList(s, key, cs)| == |s|
  {
    SortPermutes(s, key, cs);
    var t := SortList(s, key, cs);
    forall x ensures x in t <==> x in s {
      assert x in t <==> x in multiset(t);
      assert x in s <==> x in multiset(s);
    }
    forall i | 0 <= i < |t| ensures t[i] in s {
      assert t[i] in multiset(t) && t[i] in multiset(s);
    }
  }

  /** Neighbours in order is the whole list in order. */
  lemma NeighboursSuffice<T>(s: seq<T>, key: T -> string, cs: bool)
    ensures NeighboursSorted(s, key, cs) <==> StrictlySorted(s, key, cs)
  {
    if NeighboursSorted(s, key, cs) {
      forall i, j | 0 <= i < j < |s| ensures Less(Fold(key(s[i]), cs), Fold(key(s[j]), cs)) {
        NeighboursChain(s, key, cs, i, j);
      }
    }
    if StrictlySorted(s, key, cs) {
      forall i | 0 <= i < |s| - 1 ensures CompareStrings(key(s[i]), key(s[i + 1]), cs) < 0 {
        LessAsymmetric(Fold(key(s[i]), cs), Fold(key(s[i + 1]), cs));
      }
    }
  }

  lemma {:induction false} NeighboursChain<T>(s: seq<T>, key: T -> string, cs: bool, i: nat, j: nat)
    requires NeighboursSorted(s, key, cs) && i < j < |s|
    ensures Less(Fold(key(s[i]), cs), Fold(key(s[j]), cs))
    decreases j - i
  {
    assert CompareStrings(key(s[j - 1]), key(s[j - 1 + 1]), cs) < 0;
    if i < j - 1 {
      NeighboursChain(s, key, cs, i, j - 1);
      LessTransitive(Fold(key(s[i]), cs), Fold(key(s[j - 1]), cs), Fold(key(s[j]), cs));
    }
  }

  /** No two nodes of the merged list are out of order. */
  lemma {:induction false} MergeOrdered<T>(a: seq<T>, b: seq<T>, key: T -> string)
    requires Ordered(a, key) && Ordered(b, key)
    ensures Ordered(Merge(a, b, key), key)
    decreases |a| + |b|
  {
    if a != [] && b != [] {
      var first := CompareStrings(key(a[0]), key(b[0]), false) < 0;
      var x := if first then a[0] else b[0];
      var a', b' := if first then a[1..] else a, if first then b else b[1..];
      MergeOrdered(a', b', key);
      var rest := Merge(a', b', key);
      MergePermutes(a', b', key);
      LessTotal(Lower(key(a[0])), Lower(key(b[0])));
      forall k | 0 <= k < |rest| ensures !Less(Lower(key(rest[k])), Lower(key(x))) {
        assert rest[k] in multiset(rest);
        assert rest[k] in a' || rest[k] in b';
        AboveBothHeads(a, b, key, first, rest[k]);
      }
    }
  }

  lemma AboveBothHeads<T>(a: seq<T>, b: seq<T>, key: T -> string, first: bool, y: T)
    requires Ordered(a, key) && Ordered(b, key) && a != [] && b != []
    requires first == (CompareStrings(key(a[0]), key(b[0]), false) < 0)
    requires y in a || y in b
    ensures !Less(Lower(key(y)), Lower(key(if first then a[0] else b[0])))
  {
    var ka, kb, ky := Lower(key(a[0])), Lower(key(b[0])), Lower(key(y));
    LessIrreflexive(ky);
    LessTotal(ka, kb);
    if y in a {
      var i :| 0 <= i < |a| && a[i] == y;
      assert !Less(ky, ka);
      if !first && Less(ky, kb) {
        LessTotal(ka, ky);
        if ka != ky { LessTransitive(ka, ky, kb); }
      }
    } else {
      var i :| 0 <= i < |b| && b[i] == y;
      assert !Less(ky, kb);
      if first && Less(ky, ka) {
        LessTransitive(ky, ka, kb);
      }
    }
  }

  /** With the flag off, the result is in non-decreasing order whatever the keys are. */
  lemma {:induction false} SortOrders<T>(s: seq<T>, key: T -> string, cs: bool)
    requires cs ==> SameOrder(s, key)
    ensures Ordered(SortList(s, key, cs), key)
    decreases |s|
  {
    if |s| > 1 && !NeighboursSorted(s, key, cs) {
      var m := Middle(|s|);
      assert (forall x <- s[..m] :: x in s) && forall x <- s[m..] :: x in s;
      SortOrders(s[..m], key, cs);
      SortOrders(s[m..], key, cs);
      MergeOrdered(SortList(s[..m], key, cs), SortList(s[m..], key, cs), key);
    } else {
      NeighboursSuffice(s, key, cs);
      forall i, j | 0 <= i < j < |s| ensures !Less(Lower(key(s[j])), Lower(key(s[i]))) {
        assert Less(Fold(key(s[i]), cs), Fold(key(s[j]), cs));
        LessAsymmetric(Lower(key(s[i])), Lower(key(s[j])));
      }
    }
  }

  /** Pairwise different keys come out strictly increasing in the order the flag asks for. */
  lemma SortSorts<T>(s: seq<T>, key: T -> string, cs: bool)
    requires Distinct(s, key, cs) && (cs ==> SameOrder(s, key))
    ensures StrictlySorted(SortList(s, key, cs), key, cs)
  {
    hide SortList;
    var t := SortList(s, key, cs);
    SortOrders(s, key, cs);
    SortKeepsDistinct(s, key, cs);
    SortKeepsMembers(s, key, cs);
    forall i, j | 0 <= i < j < |t| ensures Less(Fold(key(t[i]), cs), Fold(key(t[j]), cs)) {
      assert t[i] in s && t[j] in s;
      assert Fold(key(t[i]), cs) != Fold(key(t[j]), cs) && !Less(Lower(key(t[j])), Lower(key(t[i])));
      InOrder(key(t[i]), key(t[j]), cs);
    }
  }

  lemma InOrder(x: string, y: string, cs: bool)
    requires Fold(x, cs) != Fold(y, cs) && !Less(Lower(y), Lower(x))
    requires cs ==> Less(y, x) ==> Less(Lower(y), Lower(x))
    ensures Less(Fold(x, cs), Fold(y, cs))
  {
    LessTotal(Fold(x, cs), Fold(y, cs));
  }

  // ----- when the byte order comes out right

  /** The arrangement `p` of a list is sorted by bytes as it should be. */
  ghost predicate ComesOutRight<T>(p: seq<T>, s: seq<T>, key: T -> string) {
    multiset(p) == multiset(s) ==> StrictlySorted(SortList(p, key, true), key, true)
  }

  /** Two keys that differ in letter case only, and nothing else. */
  predicate TwinsAlone<T>(s: seq<T>, key: T -> string) {
    |s| == 2 && Lower(key(s[0])) == Lower(key(s[1]))
  }

  /** Sorting different keys by bytes is right for every arrangement of the list exactly when both orders
      agree on its keys, or when it consists of two keys that differ in letter case only. */
  lemma ByteOrderComesOutRight<T>(s: seq<T>, key: T -> string)
    requires Distinct(s, key, true)
    ensures (forall p: seq<T> :: ComesOutRight(p, s, key))
        <==> SameOrder(s, key) || TwinsAlone(s, key)
  {
    hide SameOrder, TwinsAlone, Distinct, ComesOutRight;
    if SameOrder(s, key) || TwinsAlone(s, key) {
      forall p: seq<T> ensures ComesOutRight(p, s, key) {
        OrderedComesOutRight(p, s, key);
      }
    }
    if !SameOrder(s, key) && !TwinsAlone(s, key) {
      var p := WrongArrangement(s, key);
      assert !ComesOutRight(p, s, key);
    }
  }

  lemma WrongArrangement<T>(s: seq<T>, key: T -> string) returns (p: seq<T>)
    requires Distinct(s, key, true) && !SameOrder(s, key) && !TwinsAlone(s, key)
    ensures !ComesOutRight(p, s, key)
  {
    hide SameOrder, TwinsAlone, Distinct, ComesOutRight;
    if Distinct(s, key, false) {
      p := Descending(s, key);
      DescendingShows(s, key);
    } else {
      var x, y := Twins(s, key);
      TwinsOfTwo(s, key, x, y);
      p := TwinsApart(s, key, x, y);
    }
  }

  lemma OrderedComesOutRight<T>(p: seq<T>, s: seq<T>, key: T -> string)
    requires Distinct(s, key, true) && (SameOrder(s, key) || TwinsAlone(s, key))
    ensures ComesOutRight(p, s, key)
  {
    if multiset(p) == multiset(s) {
      SameElements(p, s);
      DistinctIsOrderFree(s, p, key, true);
      if SameOrder(s, key) {
        SortSorts(p, key, true);
      } else {
        assert |p| == |multiset(p)| == |s|;
        assert p == [p[0], p[1]] && p[0] in s && p[1] in s;
        TwoTwinsSort(p[0], p[1], key);
      }
    }
  }

  lemma TwoTwinsSort<T>(x: T, y: T, key: T -> string)
    requires key(x) != key(y) && Lower(key(x)) == Lower(key(y))
    ensures StrictlySorted(SortList([x, y], key, true), key, true)
  {
    LessTotal(key(x), key(y));
    var s := [x, y];
    if Less(key(x), key(y)) {
      assert NeighboursSorted(s, key, true);
    } else {
      assert CompareStrings(key(s[0]), key(s[0 + 1]), true) == 1;
      assert !NeighboursSorted(s, key, true) && s[..1] == [x] && s[1..] == [y];
      assert Merge([x], [y], key) == [y] + Merge([x], [y][1..], key) == [y] + [x];
    }
  }

  lemma DescendingShows<T>(s: seq<T>, key: T -> string)
    requires Distinct(s, key, false)
    ensures ComesOutRight(Descending(s, key), s, key) ==> SameOrder(s, key)
  {
    var d := Descending(s, key);
    DescendingPermutes(s, key);
    if StrictlySorted(SortList(d, key, true), key, true) {
      SortedDescending(d, key);
      SameElements(d, s);
      DistinctIsOrderFree(s, d, key, false);
      SortedBothWays(d, key);
    }
  }

  /** The smaller one of two twins, and the larger one. */
  lemma Twins<T>(s: seq<T>, key: T -> string) returns (x: T, y: T)
    requires Distinct(s, key, true) && !Distinct(s, key, false)
    ensures x in s && y in s && Less(key(x), key(y)) && Lower(key(x)) == Lower(key(y))
  {
    var i, j :| 0 <= i < j < |s| && Fold(key(s[i]), false) == Fold(key(s[j]), false);
    assert Fold(key(s[i]), true) != Fold(key(s[j]), true);
    LessTotal(key(s[i]), key(s[j]));
    if Less(key(s[i]), key(s[j])) { x, y := s[i], s[j]; } else { x, y := s[j], s[i]; }
  }

  lemma TwinsOfTwo<T>(s: seq<T>, key: T -> string, x: T, y: T)
    requires x in s && y in s && Less(key(x), key(y)) && Lower(key(x)) == Lower(key(y))
    ensures |s| <= 2 ==> TwinsAlone(s, key)
  {
    LessIrreflexive(key(x));
  }

  /** Taking one element out. */
  lemma LeaveOut<T>(s: seq<T>, x: T) returns (rest: seq<T>)
    requires x in s
    ensures multiset(rest) + multiset{x} == multiset(s) && |rest| == |s| - 1
  {
    var i :| 0 <= i < |s| && s[i] == x;
    rest := s[..i] + s[i + 1..];
    assert s == s[..i] + [x] + s[i + 1..];
  }

  /** With a third key, an arrangement that keeps the twins in different halves and is not sorted yet turns
      them round. */
  lemma TwinsApart<T>(s: seq<T>, key: T -> string, x: T, y: T) returns (p: seq<T>)
    requires |s| > 2 && x in s && y in s && Less(key(x), key(y)) && Lower(key(x)) == Lower(key(y))
    ensures !ComesOutRight(p, s, key)
  {
    LessIrreflexive(key(x));
    var a, b := TwoHalves(s, x, y);
    DescendingPermutes(a, key);
    DescendingPermutes(b, key);
    var d, e := Descending(a, key), Descending(b, key);
    hide Descending, Merge, SortList, NeighboursSorted, Less, Lower;
    Joined(a, b, d, e, s);
    p := d + e;
    StartsDescending(p, d, key);
    TwinsTurned(d, e, key, x, y);
    SortUnfolds(p, key);
  }

  lemma StartsDescending<T>(p: seq<T>, d: seq<T>, key: T -> string)
    requires IsDescending(d, key) && 2 <= |d| <= |p| && p[..|d|] == d
    ensures !NeighboursSorted(p, key, true)
  {
    assert p[0] == d[0] && p[1] == d[1] && CompareStrings(key(p[0]), key(p[0 + 1]), true) >= 0;
  }

  lemma Joined<T>(a: seq<T>, b: seq<T>, d: seq<T>, e: seq<T>, s: seq<T>)
    requires multiset(d) == multiset(a) && multiset(e) == multiset(b)
    requires |s| > 2 && |a| == Middle(|s|) && multiset(a + b) == multiset(s)
    ensures multiset(d + e) == multiset(s) && |d| == |a| && |d + e| == |s| && |d| == Middle(|d + e|) >= 2
    ensures (d + e)[..Middle(|d + e|)] == d && (d + e)[Middle(|d + e|)..] == e
  {
    assert |d| == |multiset(d)| == |multiset(a)| == |a|;
    assert multiset(d + e) == multiset(d) + multiset(e) == multiset(a + b);
    assert |d + e| == |multiset(d + e)| == |multiset(s)| == |s|;
  }

  /** Two lists as long as the halves of `s`, the one with `x` and the other with `y`. */
  lemma TwoHalves<T>(s: seq<T>, x: T, y: T) returns (a: seq<T>, b: seq<T>)
    requires |s| > 2 && x in s && y in s && x != y
    ensures |a| == Middle(|s|) && multiset(a + b) == multiset(s) && x in multiset(a) && y in multiset(b)
  {
    var rest := LeaveOut(s, y);
    SumHas(rest, y, s, x);
    var more := LeaveOut(rest, x);
    var q := [x] + more + [y];
    assert multiset(q) == multiset(s) && |q| == |s|;
    a, b := q[..Middle(|s|)], q[Middle(|s|)..];
    assert q == a + b && a[0] == x && b[|b| - 1] == y;
    assert x in a && y in b;
  }

  lemma SumHas<T>(rest: seq<T>, y: T, s: seq<T>, x: T)
    requires multiset(rest) + multiset{y} == multiset(s) && x in s && x != y
    ensures x in rest
  {
    assert x in multiset(s);
    assert x in multiset(rest);
  }

  lemma SortUnfolds<T>(p: seq<T>, key: T -> string)
    requires |p| > 1 && !NeighboursSorted(p, key, true)
    ensures SortList(p, key, true)
         == Merge(SortList(p[..Middle(|p|)], key, true), SortList(p[Middle(|p|)..], key, true), key)
  {
  }

  lemma TwinsTurned<T>(d: seq<T>, e: seq<T>, key: T -> string, x: T, y: T)
    requires IsDescending(d, key) && IsDescending(e, key)
    requires x in multiset(d) && y in multiset(e) && Less(key(x), key(y)) && Lower(key(x)) == Lower(key(y))
    ensures !StrictlySorted(Merge(SortList(d, key, true), SortList(e, key, true), key), key, true)
  {
    SortedDescending(d, key);
    SortedDescending(e, key);
    SortKeepsMembers(d, key, true);
    SortKeepsMembers(e, key, true);
    var d', e' := SortList(d, key, true), SortList(e, key, true);
    var t := Merge(d', e', key);
    assert x in d && y in e;
    var k :| 0 <= k < |d'| && d'[k] == x;
    var l :| 0 <= l < |e'| && e'[l] == y;
    var i, j := MergeTies(d', e', key, k, l, x, y);
    if StrictlySorted(t, key, true) {
      assert Less(Fold(key(t[i]), true), Fold(key(t[j]), true));
      LessAsymmetric(key(x), key(y));
    }
  }

  lemma OrderedTail<T>(a: seq<T>, key: T -> string)
    requires Ordered(a, key) && a != []
    ensures Ordered(a[1..], key)
  {
  }

  lemma NotBelowFirst<T>(b: seq<T>, key: T -> string, l: nat)
    requires Ordered(b, key) && l < |b|
    ensures !Less(Lower(key(b[l])), Lower(key(b[0])))
  {
    LessIrreflexive(Lower(key(b[0])));
  }

  lemma MergeUnfolds<T>(a: seq<T>, b: seq<T>, key: T -> string)
    requires a != [] && b != []
    ensures Merge(a, b, key) == if CompareStrings(key(a[0]), key(b[0]), false) < 0
                                then [a[0]] + Merge(a[1..], b, key) else [b[0]] + Merge(a, b[1..], key)
  {
  }

  lemma MergeHas<T>(a: seq<T>, b: seq<T>, key: T -> string, k: nat) returns (r: nat)
    requires k < |a|
    ensures r < |Merge(a, b, key)| && Merge(a, b, key)[r] == a[k]
  {
    MergePermutes(a, b, key);
    assert a[k] in multiset(a) && a[k] in multiset(Merge(a, b, key));
    r :| 0 <= r < |Merge(a, b, key)| && Merge(a, b, key)[r] == a[k];
  }

  ghost predicate StandsAt<T>(s: seq<T>, i: nat, x: T) {
    i < |s| && s[i] == x
  }

  lemma StandsInTail<T>(s: seq<T>, i: nat, x: T)
    requires StandsAt(s, i, x) && i > 0
    ensures s != [] && s[1..] != [] && StandsAt(s[1..], i - 1, x)
  {
  }

  lemma StandsBehind<T>(h: T, s: seq<T>, i: nat, x: T)
    requires StandsAt(s, i, x)
    ensures StandsAt([h] + s, i + 1, x)
  {
  }

  /** If the first list is taken from, it is not yet a key that the second one has. */
  lemma FirstIsBelow<T>(a: seq<T>, b: seq<T>, key: T -> string, k: nat, l: nat, x: T, y: T)
    requires Ordered(b, key) && StandsAt(a, k, x) && StandsAt(b, l, y) && Lower(key(x)) == Lower(key(y))
    requires CompareStrings(key(a[0]), key(b[0]), false) < 0
    ensures k > 0
  {
    NotBelowFirst(b, key, l);
  }

  lemma TakenFirst<T>(a: seq<T>, b: seq<T>, key: T -> string, k: nat, x: T, y: T) returns (j: nat)
    requires StandsAt(a, k, x) && StandsAt(b, 0, y)
    requires CompareStrings(key(a[0]), key(b[0]), false) >= 0
    ensures 0 < j && StandsAt(Merge(a, b, key), 0, y) && StandsAt(Merge(a, b, key), j, x)
  {
    MergeUnfolds(a, b, key);
    hide Merge, CompareStrings;
    j := MergeHas(a, b[1..], key, k);
    j := j + 1;
  }

  /** On ties the second list comes first. */
  lemma {:induction false} MergeTies<T>(a: seq<T>, b: seq<T>, key: T -> string, k: nat, l: nat, x: T, y: T)
    returns (i: nat, j: nat)
    requires Ordered(a, key) && Ordered(b, key) && a != [] && b != []
    requires StandsAt(a, k, x) && StandsAt(b, l, y) && Lower(key(x)) == Lower(key(y))
    ensures i < j && StandsAt(Merge(a, b, key), i, y) && StandsAt(Merge(a, b, key), j, x)
    decreases |a| + |b|
  {
    hide *;
    MergeUnfolds(a, b, key);
    OrderedTail(a, key);
    OrderedTail(b, key);
    if CompareStrings(key(a[0]), key(b[0]), false) < 0 {
      FirstIsBelow(a, b, key, k, l, x, y);
      StandsInTail(a, k, x);
      i, j := MergeTies(a[1..], b, key, k - 1, l, x, y);
      StandsBehind(a[0], Merge(a[1..], b, key), i, y);
      StandsBehind(a[0], Merge(a[1..], b, key), j, x);
      i, j := i + 1, j + 1;
    } else if l == 0 {
      i := 0;
      j := TakenFirst(a, b, key, k, x, y);
    } else {
      StandsInTail(b, l, y);
      i, j := MergeTies(a, b[1..], key, k, l - 1, x, y);
      StandsBehind(b[0], Merge(a, b[1..], key), i, y);
      StandsBehind(b[0], Merge(a, b[1..], key), j, x);
      i, j := i + 1, j + 1;
    }
  }

  lemma SameElements<T>(s: seq<T>, t: seq<T>)
    requires multiset(s) == multiset(t)
    ensures forall x :: x in s <==> x in t
  {
    forall x ensures x in s <==> x in t {
      assert x in s <==> x in multiset(s);
      assert x in t <==> x in multiset(t);
    }
  }

  /** The arrangement from the largest key down, in byte order. */
  function Descending<T>(s: seq<T>, key: T -> string): seq<T> {
    if s == [] then [] else InsertDescending(s[0], Descending(s[1..], key), key)
  }

  function InsertDescending<T>(x: T, s: seq<T>, key: T -> string): seq<T> {
    if s == [] || Less(key(s[0]), key(x)) then [x] + s else [s[0]] + InsertDescending(x, s[1..], key)
  }

  /** No key is below one that follows it. */
  ghost predicate IsDescending<T>(s: seq<T>, key: T -> string) {
    forall i, j :: 0 <= i < j < |s| ==> !Less(key(s[i]), key(s[j]))
  }

  lemma {:induction false} InsertPermutes<T>(x: T, s: seq<T>, key: T -> string)
    ensures multiset(InsertDescending(x, s, key)) == multiset([x]) + multiset(s)
    ensures forall y <- InsertDescending(x, s, key) :: y == x || y in s
  {
    if s != [] {
      assert s == [s[0]] + s[1..];
      if !Less(key(s[0]), key(x)) {
        InsertPermutes(x, s[1..], key);
      }
    }
  }

  lemma {:induction false} InsertKeepsDescending<T>(x: T, s: seq<T>, key: T -> string)
    requires IsDescending(s, key)
    ensures IsDescending(InsertDescending(x, s, key), key)
  {
    if s == [] {
    } else if Less(key(s[0]), key(x)) {
      forall j | 0 <= j < |s| ensures !Less(key(x), key(s[j])) {
        if Less(key(x), key(s[j])) {
          LessTransitive(key(s[0]), key(x), key(s[j]));
          if j == 0 { LessIrreflexive(key(s[0])); }
        }
      }
    } else {
      InsertKeepsDescending(x, s[1..], key);
      InsertPermutes(x, s[1..], key);
      var rest := InsertDescending(x, s[1..], key);
      forall j | 0 <= j < |rest| ensures !Less(key(s[0]), key(rest[j])) {
        assert rest[j] in rest;
        if rest[j] != x {
          var i :| 0 <= i < |s[1..]| && s[1..][i] == rest[j];
          assert s[i + 1] == rest[j];
        }
      }
    }
  }

  lemma {:induction false} DescendingPermutes<T>(s: seq<T>, key: T -> string)
    ensures multiset(Descending(s, key)) == multiset(s) && IsDescending(Descending(s, key), key)
  {
    if s != [] {
      assert s == [s[0]] + s[1..];
      DescendingPermutes(s[1..], key);
      InsertKeepsDescending(s[0], Descending(s[1..], key), key);
      InsertPermutes(s[0], Descending(s[1..], key), key);
    }
  }

  /** A descending list is never taken for sorted, so it is ordered without regard to case. */
  lemma {:induction false} SortedDescending<T>(d: seq<T>, key: T -> string)
    requires IsDescending(d, key)
    ensures Ordered(SortList(d, key, true), key)
    decreases |d|
  {
    if |d| > 1 {
      var m := Middle(|d|);
      assert !NeighboursSorted(d, key, true) by {
        assert CompareStrings(key(d[0]), key(d[0 + 1]), true) >= 0;
      }
      SortedDescending(d[..m], key);
      SortedDescending(d[m..], key);
      MergeOrdered(SortList(d[..m], key, true), SortList(d[m..], key, true), key);
    }
  }

  /** A result that is in order both ways shows that the orders agree. */
  lemma SortedBothWays<T>(d: seq<T>, key: T -> string)
    requires Distinct(d, key, false) && Ordered(SortList(d, key, true), key)
    requires StrictlySorted(SortList(d, key, true), key, true)
    ensures SameOrder(d, key)
  {
    var t := SortList(d, key, true);
    SortKeepsMembers(d, key, true);
    SortPermutes(d, key, true);
    DistinctIsOrderFree(d, t, key, false);
    hide SortList, Less, Lower;
    forall x <- d, y <- d | Less(key(x), key(y)) ensures Less(Lower(key(x)), Lower(key(y))) {
      assert x in t && y in t;
      BothOrders(t, key, x, y);
    }
  }

  lemma BothOrders<T>(t: seq<T>, key: T -> string, x: T, y: T)
    requires Distinct(t, key, false) && Ordered(t, key) && StrictlySorted(t, key, true)
    requires x in t && y in t && Less(key(x), key(y))
    ensures Less(Lower(key(x)), Lower(key(y)))
  {
    hide Less, Lower;
    var i :| 0 <= i < |t| && t[i] == x;
    var j :| 0 <= j < |t| && t[j] == y;
    LessIrreflexive(key(x));
    if j < i {
      assert Less(Fold(key(t[j]), true), Fold(key(t[i]), true));
      LessAsymmetric(key(t[j]), key(t[i]));
    }
    assert Fold(key(t[i]), false) != Fold(key(t[j]), false);
    LessTotal(Lower(key(x)), Lower(key(y)));
  }

  // ----- permutations

  /** A permutation keeps keys pairwise different. */
  lemma SortKeepsDistinct<T>(s: seq<T>, key: T -> string, cs: bool)
    requires Distinct(s, key, cs)
    ensures Distinct(SortList(s, key, cs), key, cs)
  {
    SortPermutes(s, key, cs);
    DistinctIsOrderFree(s, SortList(s, key, cs), key, cs);
  }

  lemma DistinctIsOrderFree<T>(s: seq<T>, t: seq<T>, key: T -> string, cs: bool)
    requires Distinct(s, key, cs) && multiset(s) == multiset(t)
    ensures Distinct(t, key, cs)
  {
    forall i, j | 0 <= i < j < |t| ensures Fold(key(t[i]), cs) != Fold(key(t[j]), cs) {
      assert t[i] in multiset(t) && t[j] in multiset(t);
      assert t[i] in multiset(s) && t[j] in multiset(s);
      if t[i] == t[j] {
        TwiceIsTwo(t, i, j);
        OnceInDistinct(s, key, cs, t[i]);
      }
    }
  }

  lemma TwiceIsTwo<T>(t: seq<T>, i: nat, j: nat)
    requires i < j < |t| && t[i] == t[j]
    ensures multiset(t)[t[i]] >= 2
  {
    assert t == t[..j] + [t[j]] + t[j + 1..];
    assert t[i] in t[..j];
  }

  lemma {:induction false} OnceInDistinct<T>(s: seq<T>, key: T -> string, cs: bool, x: T)
    requires Distinct(s, key, cs)
    ensures multiset(s)[x] <= 1
  {
    if s != [] {
      assert s == [s[0]] + s[1..];
      OnceInDistinct(s[1..], key, cs, x);
      forall y | y in s[1..] ensures y != s[0] {
        var i :| 0 <= i < |s[1..]| && s[1..][i] == y;
        assert s[i + 1] == y;
      }
    }
  }

  // ----- sorting looks at keys only

  function Mapped<T, U>(s: seq<T>, f: T -> U): (r: seq<U>)
    ensures |r| == |s| && forall i :: 0 <= i < |s| ==> r[i] == f(s[i])
  {
    seq(|s|, i requires 0 <= i < |s| => f(s[i]))
  }

  ghost predicate SameKeys<T, U>(s: seq<T>, f: T -> U, key: T -> string, key': U -> string) {
    forall x <- s :: key'(f(x)) == key(x)
  }

  lemma SameKeysWithin<T, U>(s: seq<T>, t: seq<T>, f: T -> U, key: T -> string, key': U -> string)
    requires SameKeys(s, f, key, key') && forall x <- t :: x in s
    ensures SameKeys(t, f, key, key')
  {
  }

  lemma MappedParts<T, U>(s: seq<T>, f: T -> U)
    ensures s == [] ==> Mapped(s, f) == []
    ensures s != [] ==> Mapped(s, f) != [] && Mapped(s, f)[0] == f(s[0]) && Mapped(s, f)[1..] == Mapped(s[1..], f)
  {
  }

  lemma MappedCons<T, U>(x: T, s: seq<T>, f: T -> U)
    ensures Mapped([x] + s, f) == [f(x)] + Mapped(s, f)
  {
  }

  lemma MergeEmpty<T>(a: seq<T>, b: seq<T>, key: T -> string)
    ensures a == [] ==> Merge(a, b, key) == b
    ensures b == [] ==> Merge(a, b, key) == a
  {
  }

  lemma SameKeyOfHead<T, U>(s: seq<T>, f: T -> U, key: T -> string, key': U -> string)
    requires SameKeys(s, f, key, key') && s != []
    ensures key'(f(s[0])) == key(s[0]) && SameKeys(s[1..], f, key, key')
  {
    assert s[0] in s && forall x <- s[1..] :: x in s;
  }

  lemma {:induction false} MergeMapped<T, U>(a: seq<T>, b: seq<T>, f: T -> U, key: T -> string, key': U -> string)
    requires SameKeys(a, f, key, key') && SameKeys(b, f, key, key')
    ensures Merge(Mapped(a, f), Mapped(b, f), key') == Mapped(Merge(a, b, key), f)
    decreases |a| + |b|
  {
    hide *;
    MappedParts(a, f);
    MappedParts(b, f);
    if a == [] || b == [] {
      MergeEmpty(a, b, key);
      MergeEmpty(Mapped(a, f), Mapped(b, f), key');
    } else {
      MergeUnfolds(a, b, key);
      MergeUnfolds(Mapped(a, f), Mapped(b, f), key');
      SameKeyOfHead(a, f, key, key');
      SameKeyOfHead(b, f, key, key');
      if CompareStrings(key(a[0]), key(b[0]), false) < 0 {
        MergeMapped(a[1..], b, f, key, key');
        MappedCons(a[0], Merge(a[1..], b, key), f);
      } else {
        MergeMapped(a, b[1..], f, key, key');
        MappedCons(b[0], Merge(a, b[1..], key), f);
      }
    }
  }

  lemma {:induction false} SortMapped<T, U>(s: seq<T>, f: T -> U, key: T -> string, key': U -> string, cs: bool)
    requires SameKeys(s, f, key, key')
    ensures SortList(Mapped(s, f), key', cs) == Mapped(SortList(s, key, cs), f)
    decreases |s|
  {
    var t := Mapped(s, f);
    NeighboursMapped(s, f, key, key', cs);
    hide NeighboursSorted, Merge, SameKeys;
    if |s| > 1 && !NeighboursSorted(s, key, cs) {
      var m := Middle(|s|);
      assert t[..m] == Mapped(s[..m], f) && t[m..] == Mapped(s[m..], f);
      SameKeysWithin(s, s[..m], f, key, key');
      SameKeysWithin(s, s[m..], f, key, key');
      SortKeepsMembers(s[..m], key, cs);
      SortKeepsMembers(s[m..], key, cs);
      SameKeysWithin(s, SortList(s[..m], key, cs), f, key, key');
      SameKeysWithin(s, SortList(s[m..], key, cs), f, key, key');
      SortMapped(s[..m], f, key, key', cs);
      SortMapped(s[m..], f, key, key', cs);
      MergeMapped(SortList(s[..m], key, cs), SortList(s[m..], key, cs), f, key, key');
    }
  }

  lemma NeighboursMapped<T, U>(s: seq<T>, f: T -> U, key: T -> string, key': U -> string, cs: bool)
    requires SameKeys(s, f, key, key')
    ensures NeighboursSorted(Mapped(s, f), key', cs) <==> NeighboursSorted(s, key, cs)
  {
    hide CompareStrings;
    var t := Mapped(s, f);
    assert forall i :: 0 <= i < |s| ==> s[i] in s && t[i] == f(s[i]) && key'(f(s[i])) == key(s[i]);
    if NeighboursSorted(s, key, cs) {
      forall i | 0 <= i < |t| - 1 ensures CompareStrings(key'(t[i]), key'(t[i + 1]), cs) < 0 {
        assert CompareStrings(key(s[i]), key(s[i + 1]), cs) < 0;
      }
    }
    if NeighboursSorted(t, key', cs) {
      forall i | 0 <= i < |s| - 1 ensures CompareStrings(key(s[i]), key(s[i + 1]), cs) < 0 {
        assert CompareStrings(key'(t[i]), key'(t[i + 1]), cs) < 0;
      }
    }
  }
}
