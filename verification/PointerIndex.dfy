/** Array indices in pointers: section 4 of RFC 6901, and what the library's decoder makes of them. */
module PointerIndex {
  import opened Text
  import opened Pointer

  predicate AllDigits(s: string) {
    forall c <- s :: '0' <= c <= '9'
  }

  /** The `array-index` of section 4 of RFC 6901: no empty token, no leading zero, digits only. */
  function RfcIndex(t: string): Option<nat> {
    if t != "" && AllDigits(t) && (t[0] != '0' || |t| == 1) then Some(IntOfDigits(t, 0)) else None
  }

  lemma ModStep(a: nat, d: nat)
    ensures (10 * (a % SIZE_LIMIT) + d) % SIZE_LIMIT == (10 * a + d) % SIZE_LIMIT
  {
    var q, r := a / SIZE_LIMIT, a % SIZE_LIMIT;
    assert 10 * a + d == 10 * r + d + SIZE_LIMIT * (10 * q);
    ModOfSum(10 * r + d, 10 * q);
  }

  lemma {:induction false} ModOfSum(x: nat, k: nat)
    ensures (x + SIZE_LIMIT * k) % SIZE_LIMIT == x % SIZE_LIMIT
    decreases k
  {
    if k > 0 {
      ModOfSum(x, k - 1);
      assert x + SIZE_LIMIT * k == x + SIZE_LIMIT * (k - 1) + SIZE_LIMIT;
    }
  }

  lemma {:induction false} ScanIsModulo(s: string, acc: nat)
    requires AllDigits(s)
    ensures s == "" ==> ScanIndex(s, acc) == ("", acc)
    ensures s != "" ==> ScanIndex(s, acc % SIZE_LIMIT) == ("", IntOfDigits(s, acc) % SIZE_LIMIT)
  {
    if s != "" {
      assert s[0] in s && forall c <- s[1..] :: c in s;
      var d := s[0] as int - '0' as int;
      ModStep(acc, d);
      ScanIsModulo(s[1..], 10 * acc + d);
    }
  }

  lemma {:induction false} ScanStopsBelowZero(s: string, acc: nat)
    ensures ScanIndex(s, acc).0 == "" <==> forall c <- s :: c >= '0'
    ensures ScanIndex(s, acc).0 != "" ==> ScanIndex(s, acc).0[0] in s
  {
    if s != "" {
      assert s[0] in s && forall c <- s :: c == s[0] || c in s[1..];
      assert forall c <- s[1..] :: c in s;
      if s[0] >= '0' {
        ScanStopsBelowZero(s[1..], (10 * acc + (s[0] as int - '0' as int)) % SIZE_LIMIT);
      }
    }
  }

  /** The tokens on which the index decoder is wrong: the empty token, a digit followed by
      characters above '9' (the loop tests the first character twice), and numbers that do not fit. */
  predicate Misread(t: string) {
    || t == ""
    || ('1' <= t[0] <= '9' && (forall c <- t :: c >= '0') && !AllDigits(t))
    || (RfcIndex(t).Some? && RfcIndex(t).value >= 0x1_0000_0000_0000_0000)
  }

  lemma DecodeIndexIsRfc(t: string)
    requires '/' !in t
    ensures DecodeIndex(t) == RfcIndex(t) <==> !Misread(t)
  {
    if t != "" {
      assert t[0] in t && forall c <- t[1..] :: c in t;
      assert AtTokenEnd(t[1..]) <==> |t| == 1 by { if |t| > 1 { assert t[1] in t; } }
      ScanStopsBelowZero(t, 0);
      if AllDigits(t) {
        ScanIsModulo(t, 0);
        assert ScanIndex(t, 0 % SIZE_LIMIT) == ScanIndex(t, 0);
      }
      var scanned := ScanIndex(t, 0).0;
      assert AtTokenEnd(scanned) <==> scanned == "";
    }
  }

  /** A letter behind a digit is taken for a digit. */
  lemma DecodeIndexFails()
    ensures DecodeIndex("1a") == Some(59) && RfcIndex("1a") == None
  {
    assert "1a"[1..] == "a" && "a"[1..] == "";
    assert 'a' in "1a";
  }

  /** The index in an array that a token stands for.  No array has 2^64 elements, so an index that does
      not fit a `size_t` is beyond the end of every array. */
  function ArrayIndex(t: string): Option<nat> {
    var i := RfcIndex(t);
    if i.Some? && i.value < 0x1_0000_0000_0000_0000 then i else None
  }

  lemma MisreadIsNoIndex(t: string)
    requires '/' !in t
    ensures Misread(t) ==> ArrayIndex(t) == None
    ensures !Misread(t) ==> DecodeIndex(t) == ArrayIndex(t)
  {
    DecodeIndexIsRfc(t);
  }

  /** The last token of a path is decoded in place before it is taken for an index. */
  predicate LastMisread(t: string) {
    if '~' in t then DecodeIndex(DecodeInPlace(t, 0, 0)).Some? else Misread(t)
  }

  lemma HyphenIsNotMisread()
    ensures !LastMisread("-")
  {
    assert '-' in "-";
  }

  lemma LastMisreadIsNoIndex(t: string)
    requires '/' !in t
    ensures LastMisread(t) ==> ArrayIndex(t) == None && t != "-"
    ensures !LastMisread(t) ==> DecodeIndex(DecodeInPlace(t, 0, 0)) == ArrayIndex(t)
    ensures DecodeInPlace(t, 0, 0) == "-" <==> t == "-"
  {
    HyphenIsNotMisread();
    if '~' in t {
      assert !AllDigits(t);
      var i := FirstTilde(t, 0);
      assert t[..0] == "";
      TildeStays(t, 0, i);
    } else {
      PlainIsDecodedInPlace(t, 0);
      MisreadIsNoIndex(t);
    }
  }

  lemma {:induction false} FirstTilde(t: string, k: nat) returns (i: nat)
    requires k <= |t| && '~' in t && '~' !in t[..k]
    ensures k <= i < |t| && t[i] == '~' && '~' !in t[..i]
    decreases |t| - k
  {
    assert t == t[..k] + t[k..];
    if t[k] == '~' {
      i := k;
    } else {
      assert t[..k + 1] == t[..k] + [t[k]];
      i := FirstTilde(t, k + 1);
    }
  }

  /** The first '~' is still there after decoding in place. */
  lemma {:induction false} TildeStays(t: string, k: nat, i: nat)
    requires k <= i < |t| && t[i] == '~' && '~' !in t[..i]
    ensures i < |DecodeInPlace(t, k, k)| && DecodeInPlace(t, k, k)[i] == '~'
    decreases i - k
  {
    if k < i {
      assert t[k] == t[..i][k];
      TildeStays(t, k + 1, i);
    } else if i + 1 < |t| && (t[i + 1] == '0' || t[i + 1] == '1') {
      var after := if t[i + 1] == '0' then t[i := '~'] else t[i + 1 := '/'];
      DecodedPrefixStays(after, i + 1, i + 2);
      assert DecodeInPlace(after, i + 1, i + 2)[i] == after[..i + 1][i];
    }
  }

  // ----- printed indices

  lemma {:induction false} IntOfMoreDigits(s: string, c: char, acc: nat)
    requires AllDigits(s) && '0' <= c <= '9'
    ensures IntOfDigits(s + [c], acc) == 10 * IntOfDigits(s, acc) + (c as int - '0' as int)
  {
    if s == "" {
      assert s + [c] == [c];
    } else {
      assert s[0] in s && forall d <- s[1..] :: d in s;
      assert (s + [c])[1..] == s[1..] + [c];
      IntOfMoreDigits(s[1..], c, 10 * acc + (s[0] as int - '0' as int));
    }
  }

  lemma {:induction false} IntOfDecimal(n: nat)
    ensures AllDigits(Decimal(n)) && IntOfDigits(Decimal(n), 0) == n
  {
    DecimalDigits(n);
    if n < 10 {
      assert Decimal(n)[1..] == "";
    } else {
      IntOfDecimal(n / 10);
      IntOfMoreDigits(Decimal(n / 10), Digit(n % 10), 0);
    }
  }

  /** A printed index stands for itself. */
  lemma DecimalIsIndex(n: nat)
    requires n < SIZE_LIMIT
    ensures ArrayIndex(Decimal(n)) == Some(n) && !Misread(Decimal(n))
  {
    IntOfDecimal(n);
    DecimalDigits(n);
    DecodeDecimal(n);
  }
}
