/** Walking two lists of keys side by side, always past the smaller head, when they are in any order. */
module MergeWalk {
  import opened Text
  import opened Sequences

  /** Which of two keys the walk passes first. */
  datatype Passing = Together | LeftFirst | RightFirst

  /** For the last keys of two lists. */
  function Pass(p: seq<string>, q: seq<string>): Passing
    requires p != [] && q != []
    decreases |p| + |q|
  {
    if Less(p[0], q[0]) then if |p| == 1 then LeftFirst else Pass(p[1..], q)
    else if Less(q[0], p[0]) then if |q| == 1 then RightFirst else Pass(p, q[1..])
    else if |p| == 1 then if |q| == 1 then Together else LeftFirst
    else if |q| == 1 then RightFirst
    else Pass(p[1..], q[1..])
  }

  // ----- a description without the walk

  predicate Tops(k: string, rest: seq<string>) {
    forall x <- rest :: Less(x, k)
  }

  /** The keys that are greater than all that follow them: the steps down to the last key. */
  function Stairs(p: seq<string>): seq<string> {
    if p == [] then []
    else (if Tops(p[0], p[1..]) then [p[0]] else []) + Stairs(p[1..])
  }

  /** Lexicographic comparison. */
  function ByStairs(s: seq<string>, t: seq<string>): Passing
    decreases |s|
  {
    if s == [] then if t == [] then Together else LeftFirst
    else if t == [] then RightFirst
    else if s[0] == t[0] then ByStairs(s[1..], t[1..])
    else if Less(s[0], t[0]) then LeftFirst
    else RightFirst
  }

  /** The first step is the greatest key. */
  lemma {:induction false} FirstStep(p: seq<string>)
    requires p != []
    ensures Stairs(p) != [] && Stairs(p)[0] in p
    ensures forall x <- p :: x == Stairs(p)[0] || Less(x, Stairs(p)[0])
    ensures !Tops(p[0], p[1..]) && NoDuplicates(p) ==> Less(p[0], Stairs(p)[0])
  {
    if |p| > 1 {
      FirstStep(p[1..]);
      assert forall x <- p :: x == p[0] || x in p[1..];
      var top := Stairs(p[1..])[0];
      if Tops(p[0], p[1..]) {
      } else {
        var x :| x in p[1..] && !Less(x, p[0]);
        LessTotal(x, p[0]);
        if Less(p[0], x) && x != top { LessTransitive(p[0], x, top); }
        if NoDuplicates(p) {
          var i :| 0 <= i < |p[1..]| && p[1..][i] == x;
          assert p[i + 1] == x && p[0] != p[i + 1];
        }
        assert p[0] == top || Less(p[0], top);
      }
    }
  }

  lemma StairsUnfold(p: seq<string>)
    requires p != []
    ensures Stairs(p) == (if Tops(p[0], p[1..]) then [p[0]] else []) + Stairs(p[1..])
    ensures |p| == 1 ==> Stairs(p) == [p[0]]
  {
  }

  lemma DistinctTail(p: seq<string>)
    requires NoDuplicates(p) && p != []
    ensures NoDuplicates(p[1..])
  {
    assert forall i :: 0 <= i < |p[1..]| ==> p[1..][i] == p[i + 1];
  }

  lemma ByHeads(s: seq<string>, t: seq<string>)
    requires s != [] && t != [] && Less(s[0], t[0])
    ensures ByStairs(s, t) == LeftFirst && ByStairs(t, s) == RightFirst
  {
    LessAsymmetric(s[0], t[0]);
  }

  lemma BySameHeads(k: string, s: seq<string>, t: seq<string>)
    ensures ByStairs([k] + s, [k] + t) == ByStairs(s, t)
  {
    assert ([k] + s)[1..] == s && ([k] + t)[1..] == t;
  }

  lemma ByEmpty(t: seq<string>)
    ensures ByStairs([], t) == (if t == [] then Together else LeftFirst)
    ensures ByStairs(t, []) == (if t == [] then Together else RightFirst)
  {
  }

  lemma HeadOf(k: string, s: seq<string>)
    ensures [k] + s != [] && ([k] + s)[0] == k && [k] + [] == [k] && [] + s == s
  {
  }

  lemma TopOf(p: seq<string>)
    requires p != []
    ensures Stairs(p) != [] && (p[0] == Stairs(p)[0] || Less(p[0], Stairs(p)[0]))
    ensures Tops(p[0], p[1..]) ==> Stairs(p)[0] == p[0]
    ensures !Tops(p[0], p[1..]) && NoDuplicates(p) ==> Less(p[0], Stairs(p)[0])
  {
    FirstStep(p);
  }

  /** Passing a head that is below the other one does not change how the stairs compare. */
  lemma SmallerHead(p: seq<string>, q: seq<string>)
    requires NoDuplicates(p) && p != [] && q != [] && Less(p[0], q[0])
    ensures |p| == 1 ==> ByStairs(Stairs(p), Stairs(q)) == LeftFirst && ByStairs(Stairs(q), Stairs(p)) == RightFirst
    ensures |p| > 1 ==> ByStairs(Stairs(p), Stairs(q)) == ByStairs(Stairs(p[1..]), Stairs(q))
    ensures |p| > 1 ==> ByStairs(Stairs(q), Stairs(p)) == ByStairs(Stairs(q), Stairs(p[1..]))
  {
    hide *;
    StairsUnfold(p);
    TopOf(q);
    TopOf(p);
    var top := Stairs(q)[0];
    if q[0] != top { LessTransitive(p[0], q[0], top); }
    if |p| == 1 {
      ByHeads(Stairs(p), Stairs(q));
    } else if Tops(p[0], p[1..]) {
      HeadAndNext(p);
      ByHeads(Stairs(p), Stairs(q));
      LessTransitive(Stairs(p[1..])[0], p[0], top);
      ByHeads(Stairs(p[1..]), Stairs(q));
    } else {
      HeadOf(p[0], Stairs(p[1..]));
    }
  }

  /** The walk passes the two keys in the lexicographic order of the stairs that lead down to them; it meets
      them together exactly when these are the same. */
  lemma {:induction false} PassIsByStairs(p: seq<string>, q: seq<string>)
    requires p != [] && q != [] && NoDuplicates(p) && NoDuplicates(q)
    ensures Pass(p, q) == ByStairs(Stairs(p), Stairs(q))
    decreases |p| + |q|
  {
    DistinctTail(p);
    DistinctTail(q);
    if Less(p[0], q[0]) {
      SmallerHead(p, q);
      if |p| > 1 { PassIsByStairs(p[1..], q); }
    } else if Less(q[0], p[0]) {
      SmallerHead(q, p);
      if |q| > 1 { PassIsByStairs(p, q[1..]); }
    } else {
      LessTotal(p[0], q[0]);
      if |p| > 1 && |q| > 1 { PassIsByStairs(p[1..], q[1..]); }
      SameHead(p, q);
    }
  }

  lemma SameHead(p: seq<string>, q: seq<string>)
    requires p != [] && q != [] && NoDuplicates(p) && NoDuplicates(q) && p[0] == q[0]
    ensures |p| == 1 && |q| == 1 ==> ByStairs(Stairs(p), Stairs(q)) == Together
    ensures |p| == 1 && |q| > 1 ==> ByStairs(Stairs(p), Stairs(q)) == LeftFirst
    ensures |p| > 1 && |q| == 1 ==> ByStairs(Stairs(p), Stairs(q)) == RightFirst
    ensures |p| > 1 && |q| > 1 ==> ByStairs(Stairs(p), Stairs(q)) == ByStairs(Stairs(p[1..]), Stairs(q[1..]))
  {
    hide *;
    StairsUnfold(p);
    StairsUnfold(q);
    TopOf(p);
    TopOf(q);
    var k, p', q' := p[0], Stairs(p[1..]), Stairs(q[1..]);
    HeadOf(k, p');
    HeadOf(k, q');
    if |p| > 1 { HeadAndNext(p); }
    if |q| > 1 { HeadAndNext(q); }
    if |p| == 1 && |q| == 1 {
      BySameHeads(k, [], []);
      ByEmpty([]);
    } else if |p| == 1 {
      OneStep(k, q);
    } else if |q| == 1 {
      OneStep(k, p);
    } else if Tops(k, p[1..]) && Tops(k, q[1..]) {
      BySameHeads(k, p', q');
    } else if Tops(k, p[1..]) {
      ByHeads(Stairs(p), Stairs(q));
      LessTransitive(p'[0], k, Stairs(q)[0]);
      ByHeads(p', q');
    } else if Tops(k, q[1..]) {
      ByHeads(Stairs(q), Stairs(p));
      LessTransitive(q'[0], k, Stairs(p)[0]);
      ByHeads(q', p');
    }
  }

  /** One step against stairs that go on below the same key, or from a greater one. */
  lemma OneStep(k: string, q: seq<string>)
    requires |q| > 1 && NoDuplicates(q) && q[0] == k
    ensures ByStairs([k], Stairs(q)) == LeftFirst && ByStairs(Stairs(q), [k]) == RightFirst
  {
    hide *;
    StairsUnfold(q);
    TopOf(q);
    HeadAndNext(q);
    HeadOf(k, Stairs(q[1..]));
    if Tops(k, q[1..]) {
      HeadOf(k, []);
      BySameHeads(k, [], Stairs(q[1..]));
      BySameHeads(k, Stairs(q[1..]), []);
      ByEmpty(Stairs(q[1..]));
    } else {
      ByHeads([k], Stairs(q));
    }
  }

  lemma HeadAndNext(p: seq<string>)
    requires |p| > 1
    ensures Stairs(p[1..]) != [] && (Tops(p[0], p[1..]) ==> Less(Stairs(p[1..])[0], p[0]))
  {
    FirstStep(p[1..]);
  }
}
