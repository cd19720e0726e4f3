/** C strings as `string`, with the two key comparisons that the JSON library uses:
    byte order and byte order after ASCII `tolower`. */
module Text {

  datatype Option<+T> = None | Some(value: T)

  function ToLower(c: char): char {
    if 'A' <= c <= 'Z' then (c as int + 32) as char else c
  }

  function Lower(s: string): string {
    if s == "" then "" else [ToLower(s[0])] + Lower(s[1..])
  }

  /** The form of a key that a comparison with the given flag looks at. */
  function Fold(s: string, caseSensitive: bool): string {
    if caseSensitive then s else Lower(s)
  }

  predicate NoUpper(s: string) {
    forall c <- s :: !('A' <= c <= 'Z')
  }

  /** Strict lexicographic order; the end of a string is below every character. */
  predicate Less(a: string, b: string) {
    b != "" && (a == "" || a[0] < b[0] || (a[0] == b[0] && Less(a[1..], b[1..])))
  }

  /** The sign of `compare_strings`. */
  function CompareStrings(a: string, b: string, caseSensitive: bool): int {
    var x, y := Fold(a, caseSensitive), Fold(b, caseSensitive);
    if x == y then 0 else if Less(x, y) then -1 else 1
  }

  lemma LowerIsIdentity(s: string)
    requires NoUpper(s)
    ensures Lower(s) == s
  {
    if s != "" {
      assert s[0] in s && forall c <- s[1..] :: c in s;
      LowerIsIdentity(s[1..]);
    }
  }

  lemma LowerTwice(s: string)
    ensures Lower(Lower(s)) == Lower(s)
  {
  }

  lemma FoldIsIdentity(s: string, caseSensitive: bool)
    requires NoUpper(s)
    ensures Fold(s, caseSensitive) == s
  {
    LowerIsIdentity(s);
  }

  lemma LessIrreflexive(a: string)
    ensures !Less(a, a)
  {
  }

  lemma {:induction false} LessTransitive(a: string, b: string, c: string)
    requires Less(a, b) && Less(b, c)
    ensures Less(a, c)
  {
    if a != "" && a[0] == b[0] && b[0] == c[0] {
      LessTransitive(a[1..], b[1..], c[1..]);
    }
  }

  lemma {:induction false} LessTotal(a: string, b: string)
    ensures Less(a, b) || a == b || Less(b, a)
  {
    if a != "" && b != "" && a[0] == b[0] {
      LessTotal(a[1..], b[1..]);
      assert a == [a[0]] + a[1..] && b == [b[0]] + b[1..];
    }
  }

  lemma LessAsymmetric(a: string, b: string)
    requires Less(a, b)
    ensures !Less(b, a) && a != b
  {
    if Less(b, a) {
      LessTransitive(a, b, a);
    }
    LessIrreflexive(a);
  }

  // ----- what the comparisons mean, in character codes

  /** The code that a comparison looks at: 65 to 90 are the letters 'A' to 'Z', and 32 leads to the other case. */
  function Code(c: char, caseSensitive: bool): int {
    if !caseSensitive && 65 <= c as int <= 90 then c as int + 32 else c as int
  }

  /** The same character, or the same letter of the other case. */
  predicate SameLetter(c: char, d: char) {
    c == d || (65 <= c as int <= 90 && d as int == c as int + 32) || (65 <= d as int <= 90 && c as int == d as int + 32)
  }

  predicate SameLetters(a: string, b: string) {
    |a| == |b| && forall i :: 0 <= i < |a| ==> SameLetter(a[i], b[i])
  }

  predicate Matches(a: string, b: string, caseSensitive: bool) {
    if caseSensitive then a == b else SameLetters(a, b)
  }

  lemma {:induction false} FoldAt(s: string, caseSensitive: bool)
    ensures var f := Fold(s, caseSensitive);
      |f| == |s| && forall i :: 0 <= i < |s| ==> f[i] as int == Code(s[i], caseSensitive)
  {
    if !caseSensitive && s != "" {
      FoldAt(s[1..], false);
      forall i | 0 < i < |s| ensures Lower(s)[i] as int == Code(s[i], false) {
        assert s[i] == s[1..][i - 1] && Lower(s)[i] == Lower(s[1..])[i - 1];
      }
    }
  }

  /** Two keys fold to the same exactly when they match. */
  lemma FoldsAlike(a: string, b: string, caseSensitive: bool)
    ensures Fold(a, caseSensitive) == Fold(b, caseSensitive) <==> Matches(a, b, caseSensitive)
  {
    var x, y := Fold(a, caseSensitive), Fold(b, caseSensitive);
    FoldAt(a, caseSensitive);
    FoldAt(b, caseSensitive);
    hide Fold;
    if x == y {
      forall i | 0 <= i < |a| ensures SameLetter(a[i], b[i]) {
        assert x[i] as int == y[i] as int;
      }
      if caseSensitive {
        assert forall i :: 0 <= i < |a| ==> a[i] as int == x[i] as int == y[i] as int == b[i] as int;
      }
    }
    if Matches(a, b, caseSensitive) {
      forall i | 0 <= i < |x| ensures x[i] == y[i] {
        assert !caseSensitive ==> SameLetter(a[i], b[i]);
        assert Code(a[i], caseSensitive) == Code(b[i], caseSensitive);
      }
    }
  }

  /** The texts agree before `k`, and the first one ends there or has the smaller character. */
  predicate BelowAt(a: string, b: string, k: nat, caseSensitive: bool) {
    && k <= |a| && k < |b|
    && (forall i :: 0 <= i < k ==> Code(a[i], caseSensitive) == Code(b[i], caseSensitive))
    && (k == |a| || Code(a[k], caseSensitive) < Code(b[k], caseSensitive))
  }

  lemma {:induction false} LessIsBelow(a: string, b: string)
    ensures Less(a, b) <==> exists k: nat :: BelowAt(a, b, k, true)
  {
    if b != "" && a != "" && a[0] == b[0] {
      LessIsBelow(a[1..], b[1..]);
      if k: nat :| BelowAt(a[1..], b[1..], k, true) {
        assert forall i :: 0 < i < k + 1 ==> a[i] == a[1..][i - 1] && b[i] == b[1..][i - 1];
        assert BelowAt(a, b, k + 1, true);
      }
      if k: nat :| BelowAt(a, b, k, true) {
        assert k > 0 && BelowAt(a[1..], b[1..], k - 1, true);
      }
    } else if Less(a, b) {
      assert BelowAt(a, b, 0, true);
    }
  }

  /** `compare_strings`: nothing for keys that match, and otherwise the sign is decided by the first difference. */
  lemma ComparesByFirstDifference(a: string, b: string, caseSensitive: bool)
    ensures CompareStrings(a, b, caseSensitive) == 0 <==> Matches(a, b, caseSensitive)
    ensures CompareStrings(a, b, caseSensitive) < 0 <==> exists k: nat :: BelowAt(a, b, k, caseSensitive)
    ensures CompareStrings(a, b, caseSensitive) > 0 <==> exists k: nat :: BelowAt(b, a, k, caseSensitive)
  {
    hide Fold, Less, Matches;
    FoldsAlike(a, b, caseSensitive);
    FoldBelow(a, b, caseSensitive);
    FoldBelow(b, a, caseSensitive);
    var x, y := Fold(a, caseSensitive), Fold(b, caseSensitive);
    LessIsBelow(x, y);
    LessIsBelow(y, x);
    LessTotal(x, y);
    if Less(x, y) { LessAsymmetric(x, y); }
    if Less(y, x) { LessAsymmetric(y, x); }
  }

  lemma FoldBelow(a: string, b: string, caseSensitive: bool)
    ensures forall k: nat :: BelowAt(Fold(a, caseSensitive), Fold(b, caseSensitive), k, true)
                        <==> BelowAt(a, b, k, caseSensitive)
  {
    FoldAt(a, caseSensitive);
    FoldAt(b, caseSensitive);
    hide Fold;
  }
}
