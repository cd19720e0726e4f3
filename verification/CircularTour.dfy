/** A tour around a ring of stations: there is a start exactly if the total suffices. */
module CircularTour {

  /** The sum of `k` steps from `start`, around the ring. */
  function TourSum(d: seq<int>, start: nat, k: nat): int
    requires start < |d| && k <= |d|
  {
    if k == 0 then 0 else TourSum(d, start, k - 1) + d[Around(start + k - 1, |d|)]
  }

  function Around(i: nat, n: nat): nat {
    if i < n then i else i - n
  }

  /** Starting there, the tank never runs empty on the way round. */
  ghost predicate Completes(d: seq<int>, start: nat)
    requires start < |d|
  {
    forall k :: 0 <= k <= |d| ==> TourSum(d, start, k) >= 0
  }

  function Prefix(d: seq<int>, i: nat): int
    requires i <= |d|
  {
    if i == 0 then 0 else Prefix(d, i - 1) + d[i - 1]
  }

  function Total(d: seq<int>): int {
    Prefix(d, |d|)
  }

  lemma {:induction false} TourFromPrefixes(d: seq<int>, start: nat, k: nat)
    requires start < |d| && k <= |d|
    ensures TourSum(d, start, k)
         == if start + k <= |d| then Prefix(d, start + k) - Prefix(d, start)
            else Total(d) - Prefix(d, start) + Prefix(d, start + k - |d|)
  {
    if k > 0 {
      TourFromPrefixes(d, start, k - 1);
      var i := start + k - 1;
      if i < |d| {
        assert Around(i, |d|) == i;
      } else {
        assert Prefix(d, i - |d| + 1) == Prefix(d, i - |d|) + d[i - |d|];
      }
    }
  }

  /** The position of the smallest prefix sum. */
  lemma {:induction false} LowestPrefix(d: seq<int>, n: nat) returns (low: nat)
    requires 0 < n <= |d|
    ensures low < n && forall i :: 0 <= i < n ==> Prefix(d, low) <= Prefix(d, i)
  {
    low := 0;
    if n > 1 {
      low := LowestPrefix(d, n - 1);
      if Prefix(d, n - 1) < Prefix(d, low) { low := n - 1; }
    }
  }

  /** The cycle lemma: a total that is not negative has a start from which no partial sum is. */
  lemma StartExists(d: seq<int>) returns (start: nat)
    requires d != [] && Total(d) >= 0
    ensures start < |d| && Completes(d, start)
  {
    start := LowestPrefix(d, |d|);
    forall k | 0 <= k <= |d| ensures TourSum(d, start, k) >= 0 {
      TourFromPrefixes(d, start, k);
      if start + k == |d| {
        assert Prefix(d, start) <= Prefix(d, 0);
      }
    }
  }

  lemma CompletingNeedsTotal(d: seq<int>, start: nat)
    requires start < |d| && Completes(d, start)
    ensures Total(d) >= 0 && d[start] >= 0
  {
    TourFromPrefixes(d, start, |d|);
    assert TourSum(d, start, |d|) >= 0;
    assert TourSum(d, start, 0) == 0;
    assert TourSum(d, start, 1) >= 0;
  }

  /** `_checkout_route` */
  method CheckoutRoute(route: array<int>, start: nat) returns (r: int)
    requires start < route.Length
    ensures r == 0 || r == -1
    ensures r == 0 <==> Completes(route[..], start)
  {
    ghost var d := route[..];
    var i, sum := start, 0;
    while i < route.Length
      invariant start <= i <= route.Length && sum == TourSum(d, start, i - start)
      invariant forall k :: 0 <= k <= i - start ==> TourSum(d, start, k) >= 0
    {
      sum := sum + route[i];
      if sum < 0 {
        assert TourSum(d, start, i - start + 1) < 0;
        return -1;
      }
      i := i + 1;
    }
    ghost var n := route.Length - start;
    i := 0;
    while i < start
      invariant i <= start && sum == TourSum(d, start, n + i)
      invariant forall k :: 0 <= k <= n + i ==> TourSum(d, start, k) >= 0
    {
      sum := sum + route[i];
      if sum < 0 {
        assert TourSum(d, start, n + i + 1) < 0;
        return -1;
      }
      i := i + 1;
    }
    r := 0;
  }

  ghost function Differences(gas: seq<int>, cost: seq<int>): seq<int>
    requires |gas| <= |cost|
  {
    seq(|gas|, i requires 0 <= i < |gas| <= |cost| => gas[i] - cost[i])
  }

  /** `canCompleteCircuit`: the smallest start that completes the tour; there is none exactly if the gas
      is less than the cost in total, or there is no station. */
  method CanCompleteCircuit(gas: seq<int>, cost: seq<int>) returns (r: int)
    requires |gas| <= |cost|
    ensures r == -1 <==> gas == [] || Total(Differences(gas, cost)) < 0
    ensures r != -1 ==> 0 <= r < |gas| && Completes(Differences(gas, cost), r)
    ensures forall i :: 0 <= i < r ==> !Completes(Differences(gas, cost), i)
  {
    ghost var d := Differences(gas, cost);
    var diff := new int[|gas|];
    var sum := 0;
    for i := 0 to |gas|
      invariant diff[..i] == d[..i] && sum == Prefix(d, i)
    {
      diff[i] := gas[i] - cost[i];
      sum := sum + diff[i];
    }
    assert diff[..] == diff[..|gas|] == d;
    if sum < 0 {
      return -1;
    }
    for i := 0 to |gas|
      invariant diff[..] == d && forall j :: 0 <= j < i ==> !Completes(d, j)
    {
      if diff[i] < 0 {
        assert d[i] == diff[..][i];
        if Completes(d, i) { CompletingNeedsTotal(d, i); }
        continue;
      }
      var checked := CheckoutRoute(diff, i);
      if checked == 0 {
        return i;
      }
    }
    if gas != [] {
      var start := StartExists(d);
    }
    r := -1;
  }
}
