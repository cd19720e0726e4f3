/** JSON string literals: the two passes of `parse_string`, and what a literal denotes. */
module StringLiteral {
  import opened Text

  const NUL: char := 0 as char
  const BACKSPACE: char := 8 as char
  const FORM_FEED: char := 12 as char

  // ----- hexadecimal digits and UTF-8

  predicate IsHex(c: char) {
    '0' <= c <= '9' || 'A' <= c <= 'F' || 'a' <= c <= 'f'
  }

  function HexDigit(c: char): (v: nat)
    requires IsHex(c)
    ensures v < 16
  {
    if c <= '9' then c as int - '0' as int
    else if c <= 'F' then 10 + c as int - 'A' as int
    else 10 + c as int - 'a' as int
  }

  predicate IsHex4(s: string) {
    |s| == 4 && forall c <- s :: IsHex(c)
  }

  function HexValue(s: string): (v: nat)
    requires forall c <- s :: IsHex(c)
  {
    if s == "" then 0 else 16 * HexValue(s[..|s| - 1]) + HexDigit(s[|s| - 1])
  }

  /** `parse_hex4`: four digits, or 0 when one of them is not a digit. */
  function Hex4(s: string): nat
    requires |s| == 4
  {
    if IsHex4(s) then HexValue(s) else 0
  }

  lemma Hex4Bound(s: string)
    requires |s| == 4
    ensures Hex4(s) < 0x10000
  {
    if IsHex4(s) {
      var a, b, c := s[..3], s[..3][..2], s[..3][..2][..1];
      assert HexValue(c) == 16 * HexValue(c[..0]) + HexDigit(c[0]) < 0x10;
      assert HexValue(b) == 16 * HexValue(c) + HexDigit(b[1]) < 0x100;
      assert HexValue(a) == 16 * HexValue(b) + HexDigit(a[2]) < 0x1000;
    }
  }

  /** The encoder's number of bytes for a code point. */
  function Utf8Length(cp: nat): nat {
    if cp < 0x80 then 1 else if cp < 0x800 then 2 else if cp < 0x10000 then 3 else 4
  }

  function FirstByteMark(length: nat): nat {
    if length == 2 then 0xC0 else if length == 3 then 0xE0 else if length == 4 then 0xF0 else 0
  }

  /** `(cp | 0x80) & 0xBF` cut to a byte: `10xxxxxx` with the low six bits. */
  function ContinuationByte(cp: nat): char {
    (0x80 + cp % 0x40) as char
  }

  /** `(cp | mark) & 0xFF` where `cp` has no bit of the mark, or `cp & 0x7F` for a single byte. */
  function FirstByte(cp: nat, length: nat): char {
    if length > 1 then ((FirstByteMark(length) + cp) % 0x100) as char else (cp % 0x80) as char
  }

  /** The bytes of the encoder's loop: from the last one to the first one. */
  function EncodeBytes(cp: nat, n: nat, length: nat): (bytes: string)
    requires n >= 1
    ensures |bytes| == n
  {
    if n == 1 then [FirstByte(cp, length)]
    else EncodeBytes(cp / 0x40, n - 1, length) + [ContinuationByte(cp)]
  }

  function Utf8(cp: nat): (bytes: string)
    ensures 1 <= |bytes| <= 4
  {
    EncodeBytes(cp, Utf8Length(cp), Utf8Length(cp))
  }

  /** The low `bits` bits of a byte that starts with the given mark. */
  predicate Marked(b: char, mark: int, room: int) {
    mark <= b as int < mark + room
  }

  /** The halves of pairs in UTF-16, which section 3 of RFC 3629 keeps out of UTF-8. */
  predicate IsSurrogate(cp: int) {
    0xD800 <= cp <= 0xDFFF
  }

  /** Section 3 of RFC 3629, read from the bytes: the mark of each byte, the shortest form, no surrogate. */
  ghost predicate IsUtf8(bytes: string, cp: int) {
    if |bytes| == 1 then
      bytes[0] as int == cp < 0x80
    else if |bytes| == 2 then
      && Marked(bytes[0], 0xC0, 0x20) && Marked(bytes[1], 0x80, 0x40) && 0x80 <= cp
      && cp == (bytes[0] as int - 0xC0) * 0x40 + (bytes[1] as int - 0x80)
    else if |bytes| == 3 then
      && Marked(bytes[0], 0xE0, 0x10) && Marked(bytes[1], 0x80, 0x40) && Marked(bytes[2], 0x80, 0x40)
      && 0x800 <= cp && !IsSurrogate(cp)
      && cp == (bytes[0] as int - 0xE0) * 0x1000 + (bytes[1] as int - 0x80) * 0x40 + (bytes[2] as int - 0x80)
    else
      && |bytes| == 4 && Marked(bytes[0], 0xF0, 0x08) && Marked(bytes[1], 0x80, 0x40)
      && Marked(bytes[2], 0x80, 0x40) && Marked(bytes[3], 0x80, 0x40) && 0x10000 <= cp <= 0x10FFFF
      && cp == (bytes[0] as int - 0xF0) * 0x40000 + (bytes[1] as int - 0x80) * 0x1000
             + (bytes[2] as int - 0x80) * 0x40 + (bytes[3] as int - 0x80)
  }

  lemma Utf8IsRfc(cp: nat)
    requires cp <= 0x10FFFF && !IsSurrogate(cp)
    ensures IsUtf8(Utf8(cp), cp) && (cp != 0 ==> NUL !in Utf8(cp))
  {
    if cp < 0x80 {
    } else if cp < 0x800 {
      assert EncodeBytes(cp / 0x40, 1, 2) == [FirstByte(cp / 0x40, 2)];
      assert Utf8(cp) == [FirstByte(cp / 0x40, 2), ContinuationByte(cp)];
    } else if cp < 0x10000 {
      ThreeBytes(cp);
    } else {
      FourBytes(cp);
    }
  }

  lemma ThreeBytes(cp: nat)
    requires 0x800 <= cp < 0x10000 && !IsSurrogate(cp)
    ensures IsUtf8(Utf8(cp), cp) && NUL !in Utf8(cp)
  {
    var c1 := cp / 0x40;
    var c2 := c1 / 0x40;
    assert EncodeBytes(c1, 2, 3) == [FirstByte(c2, 3), ContinuationByte(c1)];
    assert Utf8(cp) == [FirstByte(c2, 3), ContinuationByte(c1), ContinuationByte(cp)];
    hide Utf8, EncodeBytes;
    assert cp == c1 * 0x40 + cp % 0x40 && c1 == c2 * 0x40 + c1 % 0x40 && c2 < 0x10;
  }

  lemma FourBytes(cp: nat)
    requires 0x10000 <= cp <= 0x10FFFF
    ensures IsUtf8(Utf8(cp), cp) && NUL !in Utf8(cp)
  {
    var c1 := cp / 0x40;
    var c2 := c1 / 0x40;
    var c3 := c2 / 0x40;
    assert EncodeBytes(c2, 2, 4) == [FirstByte(c3, 4), ContinuationByte(c2)];
    assert EncodeBytes(c1, 3, 4) == [FirstByte(c3, 4), ContinuationByte(c2), ContinuationByte(c1)];
    assert Utf8(cp) == [FirstByte(c3, 4), ContinuationByte(c2), ContinuationByte(c1), ContinuationByte(cp)];
    FourParts(cp, c1, c2, c3);
    var b0, b1, b2, b3 := FirstByte(c3, 4), ContinuationByte(c2), ContinuationByte(c1), ContinuationByte(cp);
    assert b0 as int == 0xF0 + c3 && b1 as int == 0x80 + c2 % 0x40;
    assert b2 as int == 0x80 + c1 % 0x40 && b3 as int == 0x80 + cp % 0x40;
    hide Utf8, EncodeBytes, FirstByte, ContinuationByte;
  }

  lemma FourParts(cp: nat, c1: nat, c2: nat, c3: nat)
    requires 0x10000 <= cp <= 0x10FFFF && c1 == cp / 0x40 && c2 == c1 / 0x40 && c3 == c2 / 0x40
    ensures c3 < 8 && cp == c3 * 0x40000 + c2 % 0x40 * 0x1000 + c1 % 0x40 * 0x40 + cp % 0x40
  {
    assert cp == c1 * 0x40 + cp % 0x40 && c1 == c2 * 0x40 + c1 % 0x40 && c2 == c3 * 0x40 + c2 % 0x40;
  }

  // ----- the two passes; `s` is the input behind the opening quote

  /** The first pass: where the closing quote is, stepping over the byte after each backslash. */
  function Close(s: string, i: nat): (k: Option<nat>)
    ensures k.Some? ==> i <= k.value < |s| && s[k.value] == '"'
    decreases |s| - i
  {
    if i >= |s| then None
    else if s[i] == '"' then Some(i)
    else Close(s, if s[i] == '\\' then i + 2 else i + 1)
  }

  /** What the second pass makes of one character or escape sequence. */
  datatype Token = Token(used: nat, bytes: string)

  predicate ShortEscape(c: char) {
    c in "bfnrt\"\\/"
  }

  function ShortValue(c: char): char {
    match c
    case 'b' => BACKSPACE
    case 'f' => FORM_FEED
    case 'n' => '\n'
    case 'r' => '\r'
    case 't' => '\t'
    case _ => c
  }

  /** `utf16_literal_to_utf8` at position `i` of a literal that ends at `k`. */
  function Utf16Literal(s: string, i: nat, k: nat): Option<Token>
    requires i <= k < |s|
  {
    if k - i < 6 then None
    else
      var first := Hex4(s[i + 2..i + 6]);
      if 0xDC00 <= first <= 0xDFFF then None
      else if 0xD800 <= first <= 0xDBFF then
        if k - i < 12 || s[i + 6] != '\\' || s[i + 7] != 'u' then None
        else
          var second := Hex4(s[i + 8..i + 12]);
          if !(0xDC00 <= second <= 0xDFFF) then None
          else Some(Token(12, Utf8(SurrogatePair(first, second))))
      else Some(Token(6, Utf8(first)))
  }

  /** `0x10000 + (((first & 0x3FF) << 10) | (second & 0x3FF))` */
  function SurrogatePair(first: nat, second: nat): nat {
    0x10000 + first % 0x400 * 0x400 + second % 0x400
  }

  /** One step of the second pass.  A backslash just before the end looks at the closing quote. */
  function NextToken(s: string, i: nat, k: nat): Option<Token>
    requires i < k < |s|
  {
    if s[i] != '\\' then Some(Token(1, [s[i]]))
    else if ShortEscape(s[i + 1]) then Some(Token(2, [ShortValue(s[i + 1])]))
    else if s[i + 1] == 'u' then Utf16Literal(s, i, k)
    else None
  }

  function Prepend(bytes: string, more: Option<string>): Option<string> {
    if more.None? then None else Some(bytes + more.value)
  }

  /** The second pass from `i` to `k`. */
  function Decode(s: string, i: nat, k: nat): Option<string>
    requires k < |s|
    decreases k - i
  {
    if i >= k then Some("")
    else
      var t := NextToken(s, i, k);
      if t.None? then None else Prepend(t.value.bytes, Decode(s, i + t.value.used, k))
  }

  /** The C string that a buffer holds. */
  function UntilNul(s: string): string {
    if s == "" || s[0] == NUL then "" else [s[0]] + UntilNul(s[1..])
  }

  lemma {:induction false} UntilNulHasNone(s: string)
    ensures NUL !in UntilNul(s)
  {
    if s != "" && s[0] != NUL {
      UntilNulHasNone(s[1..]);
    }
  }

  lemma {:induction false} UntilNulWhole(s: string)
    requires NUL !in s
    ensures UntilNul(s) == s
  {
    if s != "" {
      assert s[0] in s && forall c <- s[1..] :: c in s;
      UntilNulWhole(s[1..]);
    }
  }

  datatype Literal = Literal(text: string, rest: string)

  /** `parse_string` behind the opening quote. */
  function ReadLiteral(s: string): Option<Literal> {
    var k := Close(s, 0);
    if k.None? then None
    else
      var bytes := Decode(s, 0, k.value);
      if bytes.None? then None else Some(Literal(UntilNul(bytes.value), s[k.value + 1..]))
  }

  // ----- the second pass fits into what the first pass reserves

  /** The byte at `i` follows a backslash that starts an escape sequence of the first pass. */
  predicate Skipped(s: string, i: nat)
    requires i <= |s|
  {
    i > 0 && s[i - 1] == '\\' && !Skipped(s, i - 1)
  }

  predicate EscapeStarts(s: string, i: nat)
    requires i < |s|
  {
    s[i] == '\\' && !Skipped(s, i)
  }

  /** The number of escape sequences of the first pass that start before `i`. */
  function Escapes(s: string, i: nat): nat
    requires i <= |s|
  {
    if i == 0 then 0 else Escapes(s, i - 1) + (if EscapeStarts(s, i - 1) then 1 else 0)
  }

  /** No two escape sequences start side by side. */
  lemma EscapesOfTwo(s: string, i: nat)
    requires i + 2 <= |s|
    ensures Escapes(s, i) <= Escapes(s, i + 1) <= Escapes(s, i + 2) <= Escapes(s, i) + 1
  {
  }

  lemma EscapesOfPlain(s: string, i: nat)
    requires i < |s| && s[i] != '\\'
    ensures Escapes(s, i + 1) == Escapes(s, i)
  {
  }

  lemma HexIsPlain(d: string)
    requires IsHex4(d)
    ensures forall j :: 0 <= j < 4 ==> d[j] != '\\' && d[j] != '"'
  {
    forall j | 0 <= j < 4 ensures IsHex(d[j]) {
      assert d[j] in d;
    }
  }

  lemma EscapesOfHex(s: string, i: nat)
    requires i + 6 <= |s| && IsHex4(s[i + 2..i + 6])
    ensures Escapes(s, i + 6) <= Escapes(s, i) + 1
  {
    EscapesOfTwo(s, i);
    HexIsPlain(s[i + 2..i + 6]);
    EscapesOfPlain(s, i + 2);
    EscapesOfPlain(s, i + 3);
    EscapesOfPlain(s, i + 4);
    EscapesOfPlain(s, i + 5);
  }

  lemma EscapesOfSix(s: string, i: nat)
    requires i + 6 <= |s|
    ensures Escapes(s, i + 6) <= Escapes(s, i) + 3
  {
    EscapesOfTwo(s, i);
    EscapesOfTwo(s, i + 2);
    EscapesOfTwo(s, i + 4);
  }

  /** Whatever the second pass reads in one step, even out of step with the first pass, it writes no
      more than the first pass has reserved for those bytes. */
  lemma TokenFits(s: string, i: nat, k: nat)
    requires i < k < |s|
    ensures var t := NextToken(s, i, k);
      t.Some? ==> && 1 <= t.value.used && i + t.value.used <= k + 1
                  && |t.value.bytes| + Escapes(s, i + t.value.used) <= t.value.used + Escapes(s, i)
  {
    var t := NextToken(s, i, k);
    if t.Some? {
      if s[i] != '\\' {
        EscapesOfPlain(s, i);
      } else if ShortEscape(s[i + 1]) {
        EscapesOfTwo(s, i);
      } else {
        Utf16Fits(s, i, k);
      }
    }
  }

  lemma Utf16Fits(s: string, i: nat, k: nat)
    requires i < k < |s| && Utf16Literal(s, i, k).Some?
    ensures var t := Utf16Literal(s, i, k).value;
      (t.used == 6 || t.used == 12) && i + t.used <= k && |t.bytes| + Escapes(s, i + t.used) <= t.used + Escapes(s, i)
  {
    hide Utf8, Escapes, HexValue;
    var t := Utf16Literal(s, i, k).value;
    var first := Hex4(s[i + 2..i + 6]);
    Hex4Bound(s[i + 2..i + 6]);
    EscapesOfSix(s, i);
    if t.used == 12 {
      EscapesOfSix(s, i + 6);
      EscapesOfHex(s, i);
    } else if IsHex4(s[i + 2..i + 6]) {
      EscapesOfHex(s, i);
      ShortUtf8(first);
    } else {
      ShortUtf8(0);
    }
  }

  lemma ShortUtf8(cp: nat)
    requires cp < 0x10000
    ensures |Utf8(cp)| <= 3 && (cp < 0x80 ==> |Utf8(cp)| == 1)
  {
  }

  /** Two-pass decoding never overruns: the closing quote at `k`, the output, and the terminator fit in
      the `k + 1 - skipped + 1` bytes that the first pass allocates. */
  lemma {:induction false} DecodedFits(s: string, i: nat, k: nat)
    requires k < |s| && i <= k + 1 && !EscapeStarts(s, k) && Decode(s, i, k).Some?
    ensures |Decode(s, i, k).value| + Escapes(s, k) <= k + 1 - i + Escapes(s, i)
    decreases k + 1 - i
  {
    hide NextToken;
    if i < k {
      TokenFits(s, i, k);
      DecodedFits(s, i + NextToken(s, i, k).value.used, k);
    }
  }

  /** The first pass stops at a quote that is no part of an escape sequence. */
  lemma {:induction false} CloseIsNotSkipped(s: string, i: nat)
    requires i <= |s| && !Skipped(s, i) && Close(s, i).Some?
    ensures !Skipped(s, Close(s, i).value) && !EscapeStarts(s, Close(s, i).value)
    decreases |s| - i
  {
    if s[i] != '"' {
      CloseIsNotSkipped(s, if s[i] == '\\' then i + 2 else i + 1);
    }
  }

  lemma ReservationSuffices(s: string)
    requires Close(s, 0).Some?
    ensures var k := Close(s, 0).value;
      Decode(s, 0, k).Some? ==> |Decode(s, 0, k).value| + 1 <= k + 1 - Escapes(s, k) + 1
  {
    var k := Close(s, 0).value;
    CloseIsNotSkipped(s, 0);
    if Decode(s, 0, k).Some? {
      DecodedFits(s, 0, k);
    }
  }

  // ----- what a well-formed literal denotes (section 7 of RFC 8259)

  datatype Unit =
    | Plain(c: char)
    | Short(letter: char)
    | Code(digits: string)
    | Pair(high: string, low: string)

  /** What a hexadecimal digit counts, by its code; -1 for other characters. */
  function DigitOf(c: char): int {
    var k := c as int;
    if 48 <= k <= 57 then k - 48 else if 65 <= k <= 70 then k - 55 else if 97 <= k <= 102 then k - 87 else -1
  }

  predicate FourDigits(d: string) {
    |d| == 4 && forall i :: 0 <= i < 4 ==> DigitOf(d[i]) >= 0
  }

  function CodeUnit(d: string): int
    requires |d| == 4
  {
    4096 * DigitOf(d[0]) + 256 * DigitOf(d[1]) + 16 * DigitOf(d[2]) + DigitOf(d[3])
  }

  /** The code of the character that a backslash and a letter stand for; -1 if they stand for none. */
  function EscapeCode(letter: char): int {
    match letter as int
    case 34 => 34
    case 47 => 47
    case 92 => 92
    case 98 => 8
    case 102 => 12
    case 110 => 10
    case 114 => 13
    case 116 => 9
    case _ => -1
  }

  /** Well-formed units other than the escape of code point zero. */
  ghost predicate WellFormed(u: Unit) {
    match u
    case Plain(c) => c as int != 34 && c as int != 92 && c as int != 0
    case Short(letter) => EscapeCode(letter) >= 0
    case Code(digits) => FourDigits(digits) && 0 < CodeUnit(digits) && !IsSurrogate(CodeUnit(digits))
    case Pair(high, low) =>
      && FourDigits(high) && 0xD800 <= CodeUnit(high) <= 0xDBFF
      && FourDigits(low) && 0xDC00 <= CodeUnit(low) <= 0xDFFF
  }

  lemma DigitsAreHex(d: string)
    requires |d| == 4
    ensures FourDigits(d) <==> IsHex4(d)
    ensures FourDigits(d) ==> HexValue(d) == CodeUnit(d)
  {
    assert d == [d[0], d[1], d[2], d[3]];
    DigitIsHex(d[0]);
    DigitIsHex(d[1]);
    DigitIsHex(d[2]);
    DigitIsHex(d[3]);
    hide DigitOf, IsHex, HexDigit;
    assert forall c <- d :: c == d[0] || c == d[1] || c == d[2] || c == d[3];
    assert IsHex4(d) ==> IsHex(d[0]) && IsHex(d[1]) && IsHex(d[2]) && IsHex(d[3]);
    if FourDigits(d) { FourHexDigits(d[0], d[1], d[2], d[3]); }
  }

  lemma DigitIsHex(c: char)
    ensures DigitOf(c) >= 0 <==> IsHex(c)
    ensures IsHex(c) ==> HexDigit(c) == DigitOf(c)
  {
  }

  lemma FourHexDigits(a: char, b: char, c: char, d: char)
    requires IsHex(a) && IsHex(b) && IsHex(c) && IsHex(d)
    ensures HexValue([a, b, c, d]) == 4096 * HexDigit(a) + 256 * HexDigit(b) + 16 * HexDigit(c) + HexDigit(d)
  {
    hide HexDigit, IsHex;
    assert [a, b, c, d][..3] == [a, b, c] && [a, b, c][..2] == [a, b] && [a, b][..1] == [a] && [a][..0] == [];
    assert HexValue([a]) == 16 * HexValue([]) + HexDigit(a);
    assert HexValue([a, b]) == 16 * HexValue([a]) + HexDigit(b);
    assert HexValue([a, b, c]) == 16 * HexValue([a, b]) + HexDigit(c);
    assert HexValue([a, b, c, d]) == 16 * HexValue([a, b, c]) + HexDigit(d);
  }

  lemma Hex4IsCode(d: string)
    requires |d| == 4
    ensures Hex4(d) == if FourDigits(d) then CodeUnit(d) else 0
  {
    hide HexValue, CodeUnit, FourDigits, IsHex4;
    DigitsAreHex(d);
  }

  lemma LettersEscape(letter: char)
    ensures EscapeCode(letter) >= 0 <==> ShortEscape(letter)
    ensures ShortEscape(letter) ==> ShortValue(letter) as int == EscapeCode(letter)
  {
  }

  function UnitText(u: Unit): string {
    match u
    case Plain(c) => [c]
    case Short(letter) => ['\\', letter]
    case Code(digits) => "\\u" + digits
    case Pair(high, low) => "\\u" + high + "\\u" + low
  }

  function LiteralText(us: seq<Unit>): string {
    if us == [] then "" else UnitText(us[0]) + LiteralText(us[1..])
  }

  /** The bytes of one unit: an escaped code point is stored in UTF-8. */
  ghost predicate Denotes(u: Unit, bytes: string) {
    match u
    case Plain(c) => bytes == [c]
    case Short(letter) => |bytes| == 1 && bytes[0] as int == EscapeCode(letter)
    case Code(digits) => |digits| == 4 && IsUtf8(bytes, CodeUnit(digits))
    case Pair(high, low) =>
      |high| == |low| == 4
      && IsUtf8(bytes, 0x10000 + (CodeUnit(high) - 0xD800) * 0x400 + (CodeUnit(low) - 0xDC00))
  }

  ghost predicate LiteralDenotes(us: seq<Unit>, bytes: string)
    decreases |us|
  {
    if us == [] then bytes == ""
    else exists n: nat {:trigger bytes[..n]} ::
      n <= |bytes| && Denotes(us[0], bytes[..n]) && LiteralDenotes(us[1..], bytes[n..])
  }

  /** `p` stands in `s` at position `i`. */
  predicate At(s: string, i: nat, p: string) {
    i + |p| <= |s| && s[i..i + |p|] == p
  }

  lemma AtIndex(s: string, i: nat, p: string, j: nat)
    requires At(s, i, p) && j < |p|
    ensures s[i + j] == p[j]
  {
    assert s[i + j] == s[i..i + |p|][j];
  }

  lemma AtParts(s: string, i: nat, p: string, q: string)
    requires At(s, i, p + q)
    ensures At(s, i, p) && At(s, i + |p|, q)
  {
    assert s[i..i + |p|] == s[i..i + |p + q|][..|p|];
    assert s[i + |p|..i + |p| + |q|] == s[i..i + |p + q|][|p|..];
  }

  /** The parts of an escaped code unit. */
  lemma AtCode(s: string, i: nat, digits: string)
    requires At(s, i, "\\u" + digits) && |digits| == 4
    ensures s[i] == '\\' && s[i + 1] == 'u' && s[i + 2..i + 6] == digits
  {
    AtParts(s, i, "\\u", digits);
    AtIndex(s, i, "\\u", 0);
    AtIndex(s, i, "\\u", 1);
  }

  lemma AtPair(s: string, i: nat, high: string, low: string)
    requires At(s, i, UnitText(Pair(high, low))) && |high| == 4 && |low| == 4
    ensures At(s, i, "\\u" + high) && At(s, i + 6, "\\u" + low)
  {
    assert UnitText(Pair(high, low)) == ("\\u" + high) + ("\\u" + low);
    AtParts(s, i, "\\u" + high, "\\u" + low);
  }

  /** The second pass at `i` takes a unit as one token and writes the bytes that it denotes. */
  ghost predicate TakesUnit(s: string, i: nat, k: nat, u: Unit) {
    i < k < |s| && NextToken(s, i, k).Some? &&
    var t := NextToken(s, i, k).value;
    t.used == |UnitText(u)| && Denotes(u, t.bytes) && NUL !in t.bytes
  }

  lemma UnitIsToken(s: string, i: nat, k: nat, u: Unit)
    requires WellFormed(u) && i + |UnitText(u)| <= k < |s| && At(s, i, UnitText(u))
    ensures TakesUnit(s, i, k, u)
  {
    hide *;
    match u {
      case Plain(c) => PlainIsToken(s, i, k, c);
      case Short(letter) => ShortIsToken(s, i, k, letter);
      case Code(digits) => CodeIsToken(s, i, k, digits);
      case Pair(high, low) => PairIsToken(s, i, k, high, low);
    }
  }

  lemma PlainIsToken(s: string, i: nat, k: nat, c: char)
    requires WellFormed(Plain(c)) && i + |UnitText(Plain(c))| <= k < |s| && At(s, i, UnitText(Plain(c)))
    ensures TakesUnit(s, i, k, Plain(c))
  {
    AtIndex(s, i, UnitText(Plain(c)), 0);
  }

  lemma ShortIsToken(s: string, i: nat, k: nat, letter: char)
    requires WellFormed(Short(letter)) && i + |UnitText(Short(letter))| <= k < |s| && At(s, i, UnitText(Short(letter)))
    ensures TakesUnit(s, i, k, Short(letter))
  {
    LettersEscape(letter);
    AtIndex(s, i, UnitText(Short(letter)), 0);
    AtIndex(s, i, UnitText(Short(letter)), 1);
  }

  lemma CodeIsToken(s: string, i: nat, k: nat, digits: string)
    requires WellFormed(Code(digits)) && i + |UnitText(Code(digits))| <= k < |s| && At(s, i, UnitText(Code(digits)))
    ensures TakesUnit(s, i, k, Code(digits))
  {
    hide HexValue, Utf8, IsUtf8, At, Hex4, CodeUnit;
    AtCode(s, i, digits);
    Hex4IsCode(digits);
    Hex4Bound(digits);
    Utf8IsRfc(CodeUnit(digits));
  }

  lemma PairIsToken(s: string, i: nat, k: nat, high: string, low: string)
    requires WellFormed(Pair(high, low)) && i + |UnitText(Pair(high, low))| <= k < |s| && At(s, i, UnitText(Pair(high, low)))
    ensures TakesUnit(s, i, k, Pair(high, low))
  {
    hide *;
    PairFacts(high, low);
    AtPair(s, i, high, low);
    AtCode(s, i, high);
    AtCode(s, i + 6, low);
    var cp := SurrogatePair(Hex4(high), Hex4(low));
    PairToken(s, i, k);
    Utf8IsRfc(cp);
    PairIsTaken(s, i, k, high, low, Utf8(cp));
  }

  lemma PairFacts(high: string, low: string)
    requires WellFormed(Pair(high, low))
    ensures |high| == |low| == 4 && |UnitText(Pair(high, low))| == 12
    ensures Hex4(high) == CodeUnit(high) && Hex4(low) == CodeUnit(low)
    ensures 0xD800 <= Hex4(high) <= 0xDBFF && 0xDC00 <= Hex4(low) <= 0xDFFF
    ensures var cp := SurrogatePair(Hex4(high), Hex4(low));
      && cp == 0x10000 + (CodeUnit(high) - 0xD800) * 0x400 + (CodeUnit(low) - 0xDC00)
      && 0x10000 <= cp <= 0x10FFFF && !IsSurrogate(cp)
  {
    hide Hex4, CodeUnit;
    Hex4IsCode(high);
    Hex4IsCode(low);
  }

  lemma PairToken(s: string, i: nat, k: nat)
    requires i + 12 <= k < |s| && s[i] == s[i + 6] == '\\' && s[i + 1] == s[i + 7] == 'u'
    requires 0xD800 <= Hex4(s[i + 2..i + 6]) <= 0xDBFF && 0xDC00 <= Hex4(s[i + 8..i + 12]) <= 0xDFFF
    ensures NextToken(s, i, k)
         == Some(Token(12, Utf8(SurrogatePair(Hex4(s[i + 2..i + 6]), Hex4(s[i + 8..i + 12])))))
  {
    hide Utf8, Hex4, SurrogatePair;
  }

  lemma PairIsTaken(s: string, i: nat, k: nat, high: string, low: string, bytes: string)
    requires i < k < |s| && NextToken(s, i, k) == Some(Token(12, bytes)) && NUL !in bytes
    requires |high| == |low| == 4 && |UnitText(Pair(high, low))| == 12
    requires IsUtf8(bytes, 0x10000 + (CodeUnit(high) - 0xD800) * 0x400 + (CodeUnit(low) - 0xDC00))
    ensures TakesUnit(s, i, k, Pair(high, low))
  {
    hide NextToken, CodeUnit, IsUtf8, UnitText;
  }

  lemma UnitIsPassed(s: string, i: nat, u: Unit)
    requires WellFormed(u) && At(s, i, UnitText(u))
    ensures Close(s, i) == Close(s, i + |UnitText(u)|)
  {
    hide At, CodeUnit;
    match u {
      case Plain(_) => AtIndex(s, i, UnitText(u), 0);
      case Short(letter) =>
        LettersEscape(letter);
        AtIndex(s, i, UnitText(u), 0);
        AtIndex(s, i, UnitText(u), 1);
      case Code(digits) => CodeIsPassed(s, i, digits);
      case Pair(high, low) =>
        AtPair(s, i, high, low);
        CodeIsPassed(s, i, high);
        CodeIsPassed(s, i + 6, low);
    }
  }

  lemma CodeIsPassed(s: string, i: nat, digits: string)
    requires FourDigits(digits) && At(s, i, "\\u" + digits)
    ensures Close(s, i) == Close(s, i + 6)
  {
    DigitsAreHex(digits);
    AtCode(s, i, digits);
    HexIsPlain(digits);
    hide At, IsHex4;
    assert s[i + 2] == digits[0] && s[i + 3] == digits[1] && s[i + 4] == digits[2] && s[i + 5] == digits[3];
    assert Close(s, i) == Close(s, i + 2);
    assert Close(s, i + 2) == Close(s, i + 3);
    assert Close(s, i + 3) == Close(s, i + 4);
    assert Close(s, i + 4) == Close(s, i + 5);
  }

  /** Every well-formed literal is read to the bytes that it denotes, whatever follows it. */
  lemma LiteralIsRead(us: seq<Unit>, rest: string)
    requires forall u <- us :: WellFormed(u)
    ensures var r := ReadLiteral(LiteralText(us) + "\"" + rest);
      r.Some? && r.value.rest == rest && LiteralDenotes(us, r.value.text)
  {
    var s, k := LiteralText(us) + "\"" + rest, |LiteralText(us)|;
    AllRemains(us, rest);
    hide LiteralText, Remains, Close, Decode, LiteralDenotes, WellFormed, UntilNul;
    LiteralCloses(s, 0, us, rest);
    LiteralDecodes(s, 0, us, rest);
    UntilNulWhole(Decode(s, 0, k).value);
  }

  lemma AllRemains(us: seq<Unit>, rest: string)
    ensures var s := LiteralText(us) + "\"" + rest;
      Remains(s, 0, us, rest) && s[|LiteralText(us)| + 1..] == rest
  {
    hide LiteralText;
    var s := LiteralText(us) + "\"" + rest;
    assert s[0..] == s == LiteralText(us) + ("\"" + rest);
  }

  /** What is left of `s` at `i` is the literal, its closing quote and the rest. */
  ghost predicate Remains(s: string, i: nat, us: seq<Unit>, rest: string) {
    i <= |s| && s[i..] == LiteralText(us) + ("\"" + rest)
  }

  lemma NothingRemains(s: string, i: nat, rest: string)
    requires Remains(s, i, [], rest)
    ensures Close(s, i) == Some(i) && i < |s| && LiteralText([]) == ""
  {
    assert s[i] == s[i..][0];
  }

  lemma {:induction false} LiteralCloses(s: string, i: nat, us: seq<Unit>, rest: string)
    requires forall u <- us :: WellFormed(u)
    requires Remains(s, i, us, rest)
    ensures Close(s, i) == Some(i + |LiteralText(us)|)
    decreases |us|
  {
    hide At, UnitText, WellFormed, Remains, Close, LiteralText;
    if us == [] {
      NothingRemains(s, i, rest);
    } else {
      NextUnit(s, i, us, rest);
      UnitIsPassed(s, i, us[0]);
      LiteralCloses(s, i + |UnitText(us[0])|, us[1..], rest);
    }
  }

  lemma NextUnit(s: string, i: nat, us: seq<Unit>, rest: string)
    requires us != [] && Remains(s, i, us, rest)
    ensures var n := |UnitText(us[0])|;
      && 0 < n && At(s, i, UnitText(us[0]))
      && Remains(s, i + n, us[1..], rest)
      && i + |LiteralText(us)| < |s| && |LiteralText(us)| == n + |LiteralText(us[1..])|
  {
    var u, more, tail := UnitText(us[0]), LiteralText(us[1..]), "\"" + rest;
    assert LiteralText(us) == u + more && u != "";
    hide LiteralText, UnitText, At;
    SuffixParts(s, i, u, more, tail);
  }

  lemma SuffixParts(s: string, i: nat, u: string, more: string, tail: string)
    requires i <= |s| && s[i..] == u + more + tail
    ensures At(s, i, u) && s[i + |u|..] == more + tail && |s| == i + |u| + |more| + |tail|
  {
    assert |s[i..]| == |s| - i;
    assert s[i..i + |u|] == s[i..][..|u|];
    assert s[i + |u|..] == s[i..][|u|..];
  }

  /** The second pass from `i` to `k` gives bytes that the units denote. */
  ghost predicate DecodesAs(s: string, i: nat, k: nat, us: seq<Unit>) {
    k < |s| && Decode(s, i, k).Some? && LiteralDenotes(us, Decode(s, i, k).value) && NUL !in Decode(s, i, k).value
  }

  lemma {:induction false} LiteralDecodes(s: string, i: nat, us: seq<Unit>, rest: string)
    requires forall u <- us :: WellFormed(u)
    requires Remains(s, i, us, rest)
    ensures DecodesAs(s, i, i + |LiteralText(us)|, us)
    decreases |us|
  {
    hide NextToken, Denotes, WellFormed, UnitText, At, Remains, LiteralText;
    if us == [] {
      NothingRemains(s, i, rest);
    } else {
      var n, k := |UnitText(us[0])|, i + |LiteralText(us)|;
      NextUnit(s, i, us, rest);
      UnitIsToken(s, i, k, us[0]);
      LiteralDecodes(s, i + n, us[1..], rest);
      var bytes := NextToken(s, i, k).value.bytes;
      assert Decode(s, i, k) == Prepend(bytes, Decode(s, i + n, k));
      hide Decode;
      DenotesMore(us, bytes, Decode(s, i + n, k).value);
      hide LiteralDenotes;
    }
  }

  lemma DenotesMore(us: seq<Unit>, bytes: string, more: string)
    requires us != [] && Denotes(us[0], bytes) && LiteralDenotes(us[1..], more)
    ensures LiteralDenotes(us, bytes + more)
  {
    hide Denotes;
    var d, n := bytes + more, |bytes|;
    assert d[..n] == bytes && d[n..] == more;
  }

  // ----- what a literal denotes is determined by it

  lemma OneUtf8(a: string, b: string, cp: int)
    requires IsUtf8(a, cp) && IsUtf8(b, cp)
    ensures a == b
  {
    Utf8Lengths(a, cp);
    Utf8Lengths(b, cp);
    if |a| == 3 {
      OneSum(a[1], a[2], b[1], b[2], a[0] as int - 0xE0, b[0] as int - 0xE0);
    } else if |a| == 4 {
      OneSum(a[2], a[3], b[2], b[3], (a[0] as int - 0xF0) * 0x40 + (a[1] as int - 0x80),
             (b[0] as int - 0xF0) * 0x40 + (b[1] as int - 0x80));
    }
    SameBytes(a, b);
  }

  lemma OneSum(c: char, d: char, e: char, f: char, x: int, y: int)
    requires Marked(c, 0x80, 0x40) && Marked(d, 0x80, 0x40) && Marked(e, 0x80, 0x40) && Marked(f, 0x80, 0x40)
    requires x * 0x1000 + (c as int - 0x80) * 0x40 + (d as int - 0x80)
          == y * 0x1000 + (e as int - 0x80) * 0x40 + (f as int - 0x80)
    ensures x == y && c as int == e as int && d as int == f as int
  {
  }

  lemma SameBytes(a: string, b: string)
    requires |a| == |b| && forall i :: 0 <= i < |a| ==> a[i] as int == b[i] as int
    ensures a == b
  {
  }

  lemma Utf8Lengths(a: string, cp: int)
    requires IsUtf8(a, cp)
    ensures |a| == if cp < 0x80 then 1 else if cp < 0x800 then 2 else if cp < 0x10000 then 3 else 4
  {
  }

  lemma OneMeaning(u: Unit, a: string, b: string)
    requires Denotes(u, a) && Denotes(u, b)
    ensures a == b
  {
    hide IsUtf8, CodeUnit;
    match u
    case Plain(_) =>
    case Short(_) => assert a[0] as int == b[0] as int;
    case Code(digits) => OneUtf8(a, b, CodeUnit(digits));
    case Pair(high, low) => OneUtf8(a, b, 0x10000 + (CodeUnit(high) - 0xD800) * 0x400 + (CodeUnit(low) - 0xDC00));
  }

  lemma {:induction false} LiteralMeansOne(us: seq<Unit>, a: string, b: string)
    requires LiteralDenotes(us, a) && LiteralDenotes(us, b)
    ensures a == b
    decreases |us|
  {
    hide Denotes;
    if us != [] {
      var n: nat :| n <= |a| && Denotes(us[0], a[..n]) && LiteralDenotes(us[1..], a[n..]);
      var m: nat :| m <= |b| && Denotes(us[0], b[..m]) && LiteralDenotes(us[1..], b[m..]);
      OneMeaning(us[0], a[..n], b[..m]);
      LiteralMeansOne(us[1..], a[n..], b[m..]);
      assert a == a[..n] + a[n..] && b == b[..m] + b[m..];
    }
  }

  // ----- every literal that is accepted

  /** What the second pass finds at `i` is not cut off by a terminator: no zero byte, and no "\u" with other
      than four hexadecimal digits or with the code point zero. */
  predicate CleanToken(s: string, i: nat, k: nat)
    requires i < k < |s|
  {
    && s[i] as int != 0
    && (s[i] as int == 92 && s[i + 1] as int == 117 ==>
          i + 6 <= |s| && FourDigits(s[i + 2..i + 6]) && CodeUnit(s[i + 2..i + 6]) > 0)
  }

  /** This holds at every step of the second pass. */
  predicate Clean(s: string, i: nat, k: nat)
    requires k < |s|
    decreases k - i
  {
    i < k ==> CleanToken(s, i, k)
              && (NextToken(s, i, k).Some? ==> Clean(s, i + NextToken(s, i, k).value.used, k))
  }

  /** The unit that starts at `i`. */
  function UnitAt(s: string, i: nat, k: nat): Unit
    requires i < k < |s| && CleanToken(s, i, k)
  {
    if s[i] != '\\' then Plain(s[i])
    else if s[i + 1] != 'u' then Short(s[i + 1])
    else if IsSurrogate(CodeUnit(s[i + 2..i + 6])) && i + 12 <= |s| then Pair(s[i + 2..i + 6], s[i + 8..i + 12])
    else Code(s[i + 2..i + 6])
  }

  lemma TokenIsUnit(s: string, i: nat, k: nat)
    requires i < k && Close(s, i) == Some(k) && NextToken(s, i, k).Some? && CleanToken(s, i, k)
    ensures WellFormed(UnitAt(s, i, k)) && At(s, i, UnitText(UnitAt(s, i, k)))
    ensures NextToken(s, i, k).value.used == |UnitText(UnitAt(s, i, k))|
  {
    if s[i] == '\\' {
      LettersEscape(s[i + 1]);
      if ShortEscape(s[i + 1]) {
        assert UnitText(Short(s[i + 1])) == s[i..i + 2];
      } else {
        Utf16IsUnit(s, i, k);
      }
    }
  }

  lemma Utf16IsUnit(s: string, i: nat, k: nat)
    requires i < k < |s| && s[i] == '\\' && s[i + 1] == 'u' && CleanToken(s, i, k) && Utf16Literal(s, i, k).Some?
    ensures WellFormed(UnitAt(s, i, k)) && At(s, i, UnitText(UnitAt(s, i, k)))
    ensures Utf16Literal(s, i, k).value.used == |UnitText(UnitAt(s, i, k))|
  {
    hide Hex4, CodeUnit, Utf8;
    var high := s[i + 2..i + 6];
    assert s[i..i + 6] == "\\u" + high;
    Hex4IsCode(high);
    if IsSurrogate(CodeUnit(high)) {
      var low := s[i + 8..i + 12];
      Hex4IsCode(low);
      assert s[i + 6..i + 12] == "\\u" + low;
      assert s[i..i + 12] == s[i..i + 6] + s[i + 6..i + 12];
      assert UnitText(Pair(high, low)) == ("\\u" + high) + ("\\u" + low);
    }
  }

  /** A token that is not clean starts with the terminator. */
  lemma UncleanIsCut(s: string, i: nat, k: nat)
    requires i < k < |s| && NextToken(s, i, k).Some? && !CleanToken(s, i, k)
    ensures NextToken(s, i, k).value.bytes == [NUL]
  {
    hide CodeUnit, Hex4;
    assert EncodeBytes(0, 1, 1) == [NUL];
    if s[i] == '\\' { Hex4IsCode(s[i + 2..i + 6]); }
  }

  lemma {:induction false} UntilNulOfParts(bytes: string, more: string)
    ensures NUL !in bytes ==> UntilNul(bytes + more) == bytes + UntilNul(more)
    ensures bytes == [NUL] ==> UntilNul(bytes + more) == ""
  {
    if bytes == "" {
      assert bytes + more == more;
    } else {
      assert (bytes + more)[1..] == bytes[1..] + more;
      if NUL !in bytes { assert bytes[0] in bytes && forall c <- bytes[1..] :: c in bytes; }
      UntilNulOfParts(bytes[1..], more);
    }
  }

  /** The units up to `n` are what the literal is read as, and `n` is where the first token stands that is not
      clean, or the end. */
  ghost predicate ReadUpTo(s: string, i: nat, k: nat, us: seq<Unit>, n: nat) {
    && i <= n <= k < |s| && Decode(s, i, k).Some? && (forall u <- us :: WellFormed(u))
    && s[i..n] == LiteralText(us) && LiteralDenotes(us, UntilNul(Decode(s, i, k).value))
    && (n < k ==> !CleanToken(s, n, k)) && (n == k <==> Clean(s, i, k))
  }

  lemma {:induction false} CleanPrefix(s: string, i: nat, k: nat) returns (us: seq<Unit>, n: nat)
    requires Close(s, i) == Some(k) && Decode(s, i, k).Some?
    ensures ReadUpTo(s, i, k, us, n)
    decreases k - i
  {
    hide *;
    DecodeUnfolds(s, i, k);
    if i < k && CleanToken(s, i, k) {
      var u := UnitAt(s, i, k);
      TokenIsUnit(s, i, k);
      UnitIsNotEmpty(u);
      UnitIsPassed(s, i, u);
      CloseIsLater(s, i + |UnitText(u)|);
      UnitIsToken(s, i, k, u);
      us, n := CleanPrefix(s, i + |UnitText(u)|, k);
      ReadFurther(s, i, k, u, us, n);
      us := [u] + us;
    } else {
      us, n := [], i;
      NothingMoreRead(s, i, k);
    }
  }

  lemma CloseIsLater(s: string, i: nat)
    ensures Close(s, i).Some? ==> i <= Close(s, i).value < |s|
  {
  }

  lemma UnitIsNotEmpty(u: Unit)
    ensures |UnitText(u)| > 0
  {
  }

  lemma DecodeUnfolds(s: string, i: nat, k: nat)
    requires Close(s, i) == Some(k) && Decode(s, i, k).Some?
    ensures i <= k < |s| && (i < k ==> NextToken(s, i, k).Some?)
    ensures i < k ==> var t := NextToken(s, i, k).value;
      Decode(s, i + t.used, k).Some? && Decode(s, i, k).value == t.bytes + Decode(s, i + t.used, k).value
  {
    hide NextToken, Close;
  }

  lemma NothingMoreRead(s: string, i: nat, k: nat)
    requires i <= k < |s| && Decode(s, i, k).Some? && (i < k ==> NextToken(s, i, k).Some? && !CleanToken(s, i, k))
    ensures ReadUpTo(s, i, k, [], i)
  {
    hide NextToken, CleanToken;
    assert LiteralDenotes([], "");
    if i < k {
      UncleanIsCut(s, i, k);
      UntilNulOfParts([NUL], Decode(s, i + NextToken(s, i, k).value.used, k).value);
    }
  }

  lemma ReadFurther(s: string, i: nat, k: nat, u: Unit, us: seq<Unit>, n: nat)
    requires i < k < |s| && NextToken(s, i, k).Some? && CleanToken(s, i, k) && TakesUnit(s, i, k, u) && WellFormed(u)
    requires At(s, i, UnitText(u)) && ReadUpTo(s, i + |UnitText(u)|, k, us, n) && Decode(s, i, k).Some?
    ensures ReadUpTo(s, i, k, [u] + us, n)
  {
    hide NextToken, CleanToken, WellFormed, Denotes, UnitText, LiteralDenotes, UntilNul;
    var t, all := NextToken(s, i, k).value, [u] + us;
    var more := Decode(s, i + t.used, k).value;
    assert all[0] == u && all[1..] == us;
    assert Decode(s, i, k).value == t.bytes + more;
    UntilNulOfParts(t.bytes, more);
    DenotesMore(all, t.bytes, UntilNul(more));
    assert s[i..n] == s[i..i + t.used] + s[i + t.used..n];
    assert LiteralText(all) == UnitText(u) + LiteralText(us);
  }

  /** Whatever is accepted is read as the well-formed literal that comes before its first token that is not
      clean. */
  lemma AcceptedIsReadUpTo(s: string)
    requires ReadLiteral(s).Some?
    ensures exists us, n {:trigger ReadUpTo(s, 0, Close(s, 0).value, us, n)} ::
      && ReadUpTo(s, 0, Close(s, 0).value, us, n) && LiteralDenotes(us, ReadLiteral(s).value.text)
  {
    hide *;
    AcceptedIsDecoded(s);
    var us, n := CleanPrefix(s, 0, Close(s, 0).value);
    ReadUpToDenotes(s, 0, Close(s, 0).value, us, n);
  }

  lemma ReadUpToDenotes(s: string, i: nat, k: nat, us: seq<Unit>, n: nat)
    requires ReadUpTo(s, i, k, us, n)
    ensures k < |s| && Decode(s, i, k).Some? && LiteralDenotes(us, UntilNul(Decode(s, i, k).value))
  {
  }

  /** The accepted literals that are read as a whole: between the quotes stands a well-formed literal if and only
      if every token is clean. */
  lemma WholeIsClean(s: string)
    requires ReadLiteral(s).Some?
    ensures var k := Close(s, 0).value;
      Clean(s, 0, k) <==> exists us :: (forall u <- us :: WellFormed(u)) && LiteralText(us) == s[..k]
  {
    hide *;
    AcceptedIsDecoded(s);
    var k := Close(s, 0).value;
    var us, n := CleanPrefix(s, 0, k);
    ReadUpToWhole(s, k, us, n);
    if vs: seq<Unit> :| (forall u <- vs :: WellFormed(u)) && LiteralText(vs) == s[..k] {
      assert s == LiteralText(vs) + "\"" + s[k + 1..];
      AllRemains(vs, s[k + 1..]);
      WellFormedIsClean(s, 0, vs, s[k + 1..]);
    }
  }

  lemma AcceptedIsDecoded(s: string)
    requires ReadLiteral(s).Some?
    ensures var k := Close(s, 0); k.Some? && k.value < |s| && s[k.value] == '"' && Decode(s, 0, k.value).Some?
    ensures ReadLiteral(s).value.text == UntilNul(Decode(s, 0, Close(s, 0).value).value)
  {
    hide Decode, UntilNul;
  }

  lemma ReadUpToWhole(s: string, k: nat, us: seq<Unit>, n: nat)
    requires ReadUpTo(s, 0, k, us, n)
    ensures n <= k < |s| && (forall u <- us :: WellFormed(u)) && LiteralText(us) == s[..n] && (n == k <==> Clean(s, 0, k))
  {
    hide Decode, WellFormed, LiteralText, Clean, LiteralDenotes, UntilNul, CleanToken;
    assert s[0..n] == s[..n];
  }

  lemma {:induction false} WellFormedIsClean(s: string, i: nat, us: seq<Unit>, rest: string)
    requires forall u <- us :: WellFormed(u)
    requires Remains(s, i, us, rest)
    ensures i + |LiteralText(us)| < |s| && Clean(s, i, i + |LiteralText(us)|)
    decreases |us|
  {
    hide *;
    if us == [] {
      NothingRemains(s, i, rest);
      CleanEnd(s, i);
    } else {
      var n, k := |UnitText(us[0])|, i + |LiteralText(us)|;
      NextUnit(s, i, us, rest);
      UnitIsToken(s, i, k, us[0]);
      UnitIsClean(s, i, k, us[0]);
      assert forall u <- us[1..] :: u in us;
      WellFormedIsClean(s, i + n, us[1..], rest);
      CleanFurther(s, i, k, us[0]);
    }
  }

  lemma CleanEnd(s: string, i: nat)
    requires i < |s|
    ensures Clean(s, i, i)
  {
  }

  lemma CleanFurther(s: string, i: nat, k: nat, u: Unit)
    requires TakesUnit(s, i, k, u) && CleanToken(s, i, k) && Clean(s, i + |UnitText(u)|, k)
    ensures Clean(s, i, k)
  {
    hide NextToken, CleanToken, UnitText;
  }

  lemma UnitIsClean(s: string, i: nat, k: nat, u: Unit)
    requires WellFormed(u) && i + |UnitText(u)| <= k < |s| && At(s, i, UnitText(u))
    ensures i < k && CleanToken(s, i, k)
  {
    hide CodeUnit, At;
    match u {
      case Plain(_) => AtIndex(s, i, UnitText(u), 0);
      case Short(_) =>
        AtIndex(s, i, UnitText(u), 0);
        AtIndex(s, i, UnitText(u), 1);
      case Code(digits) => AtCode(s, i, digits);
      case Pair(high, low) =>
        AtPair(s, i, high, low);
        AtCode(s, i, high);
    }
  }

  /** No hexadecimal digits: accepted, and read as if the literal ended there. */
  lemma NoDigitsAreAccepted()
    ensures ReadLiteral("a\\uZZZZb\"") == Some(Literal("a", ""))
  {
    var s := "a\\uZZZZb\"";
    assert s[3..7] == "ZZZZ" && !IsHex4("ZZZZ") by { assert "ZZZZ"[0] in "ZZZZ"; }
    assert Close(s, 8) == Some(8);
    assert Close(s, 6) == Close(s, 7) == Some(8);
    assert Close(s, 4) == Close(s, 5) == Some(8);
    assert Close(s, 0) == Close(s, 1) == Close(s, 3) == Some(8);
    assert EncodeBytes(0, 1, 1) == [NUL];
    assert NextToken(s, 1, 8) == Some(Token(6, [NUL]));
    assert Decode(s, 8, 8) == Some("");
    assert Decode(s, 7, 8) == Some("b" + "");
    assert Decode(s, 1, 8) == Some([NUL] + ("b" + ""));
    assert Decode(s, 0, 8) == Some("a" + ([NUL] + ("b" + "")));
    hide Close, Decode;
    var bytes := "a" + ([NUL] + ("b" + ""));
    assert bytes[1..][0] == NUL && UntilNul(bytes[1..]) == "" && UntilNul(bytes) == "a" + "";
    assert s[9..] == "" && bytes[0] == 'a' && "a" + "" == "a";
  }
}
