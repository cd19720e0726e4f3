/** Streaming MD5: any way of cutting a message into updates gives the digest of the padded message. */
module Md5 {

  const WORD: int := 0x1_0000_0000
  const COUNT: int := 0x1_0000_0000_0000_0000

  type Byte = x: int | 0 <= x < 256
  type Word = x: int | 0 <= x < WORD

  /** `MD5Transform`: four state words and a block of 64 bytes give four state words. */
  type Transform = (seq<Word>, seq<Byte>) -> seq<Word>

  const INITIAL: seq<Word> := [0x67452301, 0xEFCDAB89, 0x98BADCFE, 0x10325476]

  // ----- words as bytes, low byte first

  function WordBytes(w: Word): seq<Byte> {
    [w % 256, w / 0x100 % 256, w / 0x1_0000 % 256, w / 0x100_0000 % 256]
  }

  function Encode(words: seq<Word>): (bytes: seq<Byte>)
    ensures |bytes| == 4 * |words|
  {
    if words == [] then [] else Encode(words[..|words| - 1]) + WordBytes(words[|words| - 1])
  }

  function Combine(a: int, b: int, c: int, d: int): (w: int)
    ensures 0 <= a < 256 && 0 <= b < 256 && 0 <= c < 256 && 0 <= d < 256 ==> 0 <= w < WORD
  {
    a + b * 0x100 + c * 0x1_0000 + d * 0x100_0000
  }

  function BytesWord(b: seq<Byte>): Word
    requires |b| == 4
  {
    Combine(b[0], b[1], b[2], b[3])
  }

  function Decode(bytes: seq<Byte>): (words: seq<Word>)
    requires |bytes| % 4 == 0
    ensures 4 * |words| == |bytes|
  {
    if bytes == [] then [] else Decode(bytes[..|bytes| - 4]) + [BytesWord(bytes[|bytes| - 4..])]
  }

  lemma EncodeMore(words: seq<Word>, w: Word)
    ensures Encode(words + [w]) == Encode(words) + WordBytes(w)
  {
    hide WordBytes;
    assert (words + [w])[..|words|] == words;
  }

  lemma DecodeMore(bytes: seq<Byte>, b: seq<Byte>)
    requires |bytes| % 4 == 0 && |b| == 4
    ensures Decode(bytes + b) == Decode(bytes) + [BytesWord(b)]
  {
    hide BytesWord;
    var t := bytes + b;
    assert t[..|t| - 4] == bytes && t[|t| - 4..] == b;
  }

  lemma {:induction false} DecodeEncode(words: seq<Word>)
    ensures Decode(Encode(words)) == words
  {
    hide WordBytes, BytesWord, Encode, Decode;
    if words == [] {
      NothingCoded();
    } else {
      var init, w := words[..|words| - 1], words[|words| - 1];
      DecodeEncode(init);
      assert words == init + [w];
      EncodeMore(init, w);
      DecodeMore(Encode(init), WordBytes(w));
      WordOfBytes(w);
    }
  }

  lemma WordOfBytes(w: Word)
    ensures BytesWord(WordBytes(w)) == w
  {
    var a, b, c := w / 0x100, w / 0x1_0000, w / 0x100_0000;
    assert w == a * 0x100 + w % 0x100 && a == b * 0x100 + a % 0x100 && b == c * 0x100 + b % 0x100;
  }

  /** `MD5Encode` */
  method EncodeLoop(input: seq<Word>, len: nat) returns (output: seq<Byte>)
    requires len % 4 == 0 && len <= 4 * |input|
    ensures output == Encode(input[..len / 4])
  {
    hide Encode;
    NothingCoded();
    output := [];
    var i, j := 0, 0;
    while j < len
      invariant j == 4 * i <= len && output == Encode(input[..i])
    {
      EncodeMore(input[..i], input[i]);
      assert input[..i + 1] == input[..i] + [input[i]];
      var w := input[i];
      output := output + [w % 256, w / 0x100 % 256, w / 0x1_0000 % 256, w / 0x100_0000 % 256];
      i, j := i + 1, j + 4;
    }
  }

  /** `MD5Decode` */
  method DecodeLoop(input: seq<Byte>, len: nat) returns (output: seq<Word>)
    requires len % 4 == 0 && len <= |input|
    ensures output == Decode(input[..len])
  {
    hide Decode, Combine;
    NothingCoded();
    output := [];
    var i, j := 0, 0;
    while j < len
      invariant j == 4 * i <= len && output == Decode(input[..j])
    {
      DecodeMore(input[..j], input[j..j + 4]);
      assert input[..j + 4] == input[..j] + input[j..j + 4];
      output := output + [Combine(input[j], input[j + 1], input[j + 2], input[j + 3])];
      i, j := i + 1, j + 4;
    }
  }

  lemma NothingCoded()
    ensures Encode([]) == [] && Decode([]) == []
  {
  }

  // ----- what the digest is (section 3 of RFC 1321)

  /** The state after whole blocks. */
  function Absorb(transform: Transform, blocks: seq<Byte>): seq<Word>
    requires |blocks| % 64 == 0
  {
    if blocks == [] then INITIAL
    else transform(Absorb(transform, blocks[..|blocks| - 64]), blocks[|blocks| - 64..])
  }

  lemma AbsorbMore(transform: Transform, blocks: seq<Byte>, block: seq<Byte>)
    requires |blocks| % 64 == 0 && |block| == 64
    ensures Absorb(transform, blocks + block) == transform(Absorb(transform, blocks), block)
  {
    var b := blocks + block;
    assert b[..|b| - 64] == blocks && b[|b| - 64..] == block;
  }

  /** Sections 3.1 and 3.2: a one bit, zeros up to 56 bytes of a block, and the length in bits. */
  ghost predicate IsPadded(msg: seq<Byte>, padded: seq<Byte>) {
    exists zeros: nat :: IsPaddedWith(msg, padded, zeros)
  }

  ghost predicate IsPaddedWith(msg: seq<Byte>, padded: seq<Byte>, zeros: nat) {
    && zeros < 64 && (|msg| + 1 + zeros) % 64 == 56
    && padded == msg + [0x80] + seq(zeros, _ => 0) + LengthBytes(|msg|)
  }

  /** The low 64 bits of the length in bits, low byte first. */
  function LengthBytes(n: nat): (bytes: seq<Byte>)
    ensures |bytes| == 8
  {
    Encode([8 * n % COUNT % WORD, 8 * n % COUNT / WORD])
  }

  /** There is exactly one padded message, and it consists of whole blocks. */
  lemma PaddedIsUnique(msg: seq<Byte>, p: seq<Byte>, q: seq<Byte>)
    requires IsPadded(msg, p) && IsPadded(msg, q)
    ensures p == q && |p| % 64 == 0 && |msg| + 9 <= |p| <= |msg| + 72
  {
    hide LengthBytes;
    var y: nat :| IsPaddedWith(msg, p, y);
    var z: nat :| IsPaddedWith(msg, q, z);
    SameZeros(|msg| + 1, y, z);
  }

  lemma SameZeros(n: nat, y: nat, z: nat)
    requires y < 64 && z < 64 && (n + y) % 64 == 56 && (n + z) % 64 == 56
    ensures y == z && (n + y + 8) % 64 == 0
  {
  }

  // ----- the bytes themselves

  /** Byte by byte: the low byte of a word comes first. */
  lemma {:induction false} EncodedBytes(words: seq<Word>, i: nat)
    requires i < |words|
    ensures var bytes := Encode(words);
      && bytes[4 * i] == words[i] % 256 && bytes[4 * i + 1] == words[i] / 256 % 256
      && bytes[4 * i + 2] == words[i] / 65536 % 256 && bytes[4 * i + 3] == words[i] / 16777216 % 256
  {
    var last := |words| - 1;
    var init := Encode(words[..last]);
    if i < last {
      EncodedBytes(words[..last], i);
      assert forall k :: 0 <= k < |init| ==> Encode(words)[k] == init[k];
    } else {
      assert forall k :: 0 <= k < 4 ==> Encode(words)[|init| + k] == WordBytes(words[last])[k];
    }
  }

  /** And the first byte counts least. */
  lemma {:induction false} DecodedWord(bytes: seq<Byte>, i: nat)
    requires |bytes| % 4 == 0 && 4 * i < |bytes|
    ensures var a: int, b: int, c: int, d: int := bytes[4 * i], bytes[4 * i + 1], bytes[4 * i + 2], bytes[4 * i + 3];
      Decode(bytes)[i] == a + 256 * b + 65536 * c + 16777216 * d
  {
    var n := |bytes| - 4;
    if 4 * i < n {
      DecodedWord(bytes[..n], i);
    } else {
      assert bytes[n..] == [bytes[n], bytes[n + 1], bytes[n + 2], bytes[n + 3]];
    }
  }

  /** The length field: the number of bits in 64 bits, low byte first. */
  lemma LengthField(n: nat)
    ensures LengthBytes(n) ==
      [8 * n % 256, 8 * n / 256 % 256, 8 * n / 65536 % 256, 8 * n / 16777216 % 256,
       8 * n / 4294967296 % 256, 8 * n / 1099511627776 % 256, 8 * n / 281474976710656 % 256,
       8 * n / 72057594037927936 % 256]
  {
    var x := 8 * n;
    var c := x % COUNT;
    var low: Word, high: Word := c % WORD, c / WORD;
    assert LengthBytes(n) == WordBytes(low) + WordBytes(high) by {
      EncodeMore([], low);
      EncodeMore([low], high);
      NothingCoded();
      assert [] + [low] == [low] && [low] + [high] == [low, high];
    }
    LowBytes(x, c, x / COUNT);
    HighBytes(x, c, x / COUNT);
  }

  lemma Product(a: int, k: int)
    requires a > 0 && k >= 1
    ensures a * k >= a
  {
  }

  lemma SameQuotient(a: int, p: int, m: int, q: int, r: int)
    requires a > 0 && a * p + m == a * q + r && 0 <= m < a && 0 <= r < a
    ensures p == q
  {
    assert a * p - a * q == a * (p - q) && a * q - a * p == a * (q - p);
    if p > q {
      Product(a, p - q);
    } else if p < q {
      Product(a, q - p);
    }
  }

  lemma Quotient(x: int, a: int, q: int, r: int)
    requires a > 0 && x == a * q + r && 0 <= r < a
    ensures x / a == q
  {
    var p, m := x / a, x % a;
    Division(x, a);
    SameQuotient(a, p, m, q, r);
  }

  lemma Division(x: int, a: int)
    requires a > 0
    ensures x == a * (x / a) + x % a && 0 <= x % a < a
  {
  }

  lemma QuotientOfSum(a: int, k: int, r: int)
    requires a > 0
    ensures (a * k + r) / a == k + r / a
  {
    Division(r, a);
    assert a * (k + r / a) == a * k + a * (r / a);
    Quotient(a * k + r, a, k + r / a, r % a);
  }

  /** A byte does not depend on the part above it. */
  lemma ByteOfSum(x: int, high: int, t: int, low: int, a: int)
    requires a > 0 && x == a * (256 * (t * high)) + low
    ensures x / a % 256 == low / a % 256
  {
    QuotientOfSum(a, 256 * (t * high), low);
    ModOfSum(t * high, low / a);
  }

  lemma ModOfSum(k: int, r: int)
    ensures (256 * k + r) % 256 == r % 256
  {
  }

  lemma LowBytes(x: nat, c: nat, q: nat)
    requires x == q * 18446744073709551616 + c && c < 18446744073709551616
    ensures var low := c % 4294967296;
      && low % 256 == x % 256 && low / 256 % 256 == x / 256 % 256
      && low / 65536 % 256 == x / 65536 % 256 && low / 16777216 % 256 == x / 16777216 % 256
  {
    var low, high := c % 4294967296, q * 4294967296 + c / 4294967296;
    assert x == high * 4294967296 + low;
    ByteOfSum(x, high, 16777216, low, 1);
    ByteOfSum(x, high, 65536, low, 256);
    ByteOfSum(x, high, 256, low, 65536);
    ByteOfSum(x, high, 1, low, 16777216);
  }

  lemma HighBytes(x: nat, c: nat, q: nat)
    requires x == q * 18446744073709551616 + c && c < 18446744073709551616
    ensures var high := c / 4294967296;
      && high % 256 == x / 4294967296 % 256 && high / 256 % 256 == x / 1099511627776 % 256
      && high / 65536 % 256 == x / 281474976710656 % 256 && high / 16777216 % 256 == x / 72057594037927936 % 256
  {
    ByteOfSum(x, q, 16777216, c, 4294967296);
    ByteOfSum(x, q, 65536, c, 1099511627776);
    ByteOfSum(x, q, 256, c, 281474976710656);
    ByteOfSum(x, q, 1, c, 72057594037927936);
    QuotientOfQuotient(c, 4294967296, 256);
    QuotientOfQuotient(c, 4294967296, 65536);
    QuotientOfQuotient(c, 4294967296, 16777216);
  }

  lemma QuotientOfQuotient(x: nat, a: nat, b: nat)
    requires a > 0 && b > 0
    ensures x / (a * b) == x / a / b
  {
    var y, r := x / a, x % a;
    var z, t := y / b, y % b;
    Division(x, a);
    Division(y, b);
    TwoDivisions(x, a, b, y, r, z, t);
    Quotient(x, a * b, z, a * t + r);
  }

  lemma TwoDivisions(x: int, a: int, b: int, y: int, r: int, z: int, t: int)
    requires a > 0 && b > 0 && x == a * y + r && 0 <= r < a && y == b * z + t && 0 <= t < b
    ensures a * b > 0 && x == (a * b) * z + (a * t + r) && 0 <= a * t + r < a * b
  {
    assert a * (b * z + t) == a * (b * z) + a * t && a * (b * z) == (a * b) * z;
    Product(a, b);
    if t > 0 { Product(a, t); }
    Product(a, b - t);
    assert a * b - a * t == a * (b - t);
  }

  /** The initial state has the bytes of section 3.3 of RFC 1321. */
  lemma InitialBytes()
    ensures Encode(INITIAL) == [0x01, 0x23, 0x45, 0x67, 0x89, 0xAB, 0xCD, 0xEF,
                                0xFE, 0xDC, 0xBA, 0x98, 0x76, 0x54, 0x32, 0x10]
  {
    var w0: Word, w1: Word, w2: Word, w3: Word := 0x67452301, 0xEFCDAB89, 0x98BADCFE, 0x10325476;
    assert INITIAL == [w0, w1, w2, w3];
    assert WordBytes(w0) == [0x01, 0x23, 0x45, 0x67];
    assert WordBytes(w1) == [0x89, 0xAB, 0xCD, 0xEF];
    assert WordBytes(w2) == [0xFE, 0xDC, 0xBA, 0x98];
    assert WordBytes(w3) == [0x76, 0x54, 0x32, 0x10];
    FourWords(w0, w1, w2, w3);
    hide Encode, WordBytes;
  }

  lemma FourWords(a: Word, b: Word, c: Word, d: Word)
    ensures Encode([a, b, c, d]) == WordBytes(a) + WordBytes(b) + WordBytes(c) + WordBytes(d)
  {
    hide WordBytes, Encode;
    NothingCoded();
    EncodeMore([], a);
    EncodeMore([a], b);
    EncodeMore([a, b], c);
    EncodeMore([a, b, c], d);
    assert [] + [a] == [a] && [a] + [b] == [a, b] && [a, b] + [c] == [a, b, c] && [a, b, c] + [d] == [a, b, c, d];
    assert [] + WordBytes(a) == WordBytes(a);
  }

  // ----- the blocks of a message and what is left over

  function Whole(msg: seq<Byte>): (w: seq<Byte>)
    ensures |w| % 64 == 0
  {
    msg[..|msg| - |msg| % 64]
  }

  function Live(msg: seq<Byte>): (l: seq<Byte>)
    ensures |l| == |msg| % 64
  {
    msg[|msg| - |msg| % 64..]
  }

  lemma WholeAndLive(blocks: seq<Byte>, rest: seq<Byte>)
    requires |blocks| % 64 == 0 && |rest| < 64
    ensures Whole(blocks + rest) == blocks && Live(blocks + rest) == rest
  {
    assert |blocks + rest| % 64 == |rest|;
  }

  lemma MessageParts(msg: seq<Byte>)
    ensures msg == Whole(msg) + Live(msg)
  {
  }

  // ----- the arithmetic of the counter

  /** The position in the buffer follows from the low word of the counter. */
  lemma IndexOfCount(n: nat)
    ensures 8 * n % COUNT % WORD / 8 % 64 == n % 64
  {
    var c := 8 * n % COUNT;
    var q := 8 * n / COUNT;
    assert 8 * n == q * COUNT + c;
    assert c == c / WORD * WORD + c % WORD;
    var k := c % WORD;
    assert k == 8 * (n - q * 0x2000_0000_0000_0000 - c / WORD * 0x2000_0000);
    assert k / 8 == n - q * 0x2000_0000_0000_0000 - c / WORD * 0x2000_0000;
    assert k / 8 == n - 64 * (q * 0x80_0000_0000_0000 + c / WORD * 0x80_0000);
  }

  /** Both words together are the number of bits of `n` bytes, modulo 2^64. */
  predicate Counts(low: Word, high: Word, n: nat) {
    low + WORD * high == 8 * n % COUNT
  }

  lemma WordsOfCount(low: Word, high: Word)
    ensures (low + WORD * high) % WORD == low && (low + WORD * high) / WORD == high
  {
  }

  /** The two words together count the bits, with a carry between them. */
  lemma CountMore(c0: Word, c1: Word, n: nat, len: nat)
    requires Counts(c0, c1, n) && len < WORD
    ensures var d0 := (c0 + 8 * len % WORD) % WORD;
            var carry := if d0 < 8 * len % WORD then 1 else 0;
            var d1 := (c1 + carry + len / 0x2000_0000) % WORD;
            Counts(d0, d1, n + len)
  {
    var low, high := 8 * len % WORD, len / 0x2000_0000;
    assert 8 * len == high * WORD + low;
    var d0 := (c0 + low) % WORD;
    var carry := if d0 < low then 1 else 0;
    assert c0 + low == carry * WORD + d0;
    var s := c1 + carry + high;
    assert s == s / WORD * WORD + s % WORD;
    var q := 8 * n / COUNT;
    assert 8 * n == q * COUNT + 8 * n % COUNT;
    var d := d0 + WORD * (s % WORD);
    assert 8 * (n + len) == (q + s / WORD) * COUNT + d;
    assert 0 <= d < COUNT;
    Remainder(8 * (n + len), q + s / WORD, d);
  }

  /** Wrapping after each of two additions is wrapping once. */
  lemma WrapTwice(c: Word, high: nat)
    ensures ((c + 1) % WORD + high) % WORD == (c + 1 + high) % WORD
  {
    var k := (c + 1) / WORD;
    assert c + 1 == k * WORD + (c + 1) % WORD;
  }

  lemma Remainder(x: int, q: int, r: int)
    requires x == q * COUNT + r && 0 <= r < COUNT
    ensures x % COUNT == r
  {
    assert (x - r) % COUNT == 0;
  }

  // ----- the guard of the block loop

  /** Lengths for which the guard `i + 64 <= inputlen` is not spoilt by the wrap-around of `i + 64`. */
  predicate GuardHolds(index: nat, inputlen: nat) {
    inputlen < WORD - (if index == 0 then 64 else index)
  }

  /** Where the loop has to stop: fewer than 64 bytes are left. */
  function StopAt(index: nat, inputlen: nat): (i: nat)
    requires index < 64 && 64 - index <= inputlen
    ensures i <= inputlen < i + 64
  {
    64 - index + (inputlen - (64 - index)) / 64 * 64
  }

  /** For exactly the other lengths the guard is still true there, and the loop reads past the input. */
  lemma GuardWraps(index: nat, inputlen: nat)
    requires index < 64 && 64 - index <= inputlen < WORD
    ensures (StopAt(index, inputlen) + 64) % WORD > inputlen <==> GuardHolds(index, inputlen)
  {
    var i := StopAt(index, inputlen);
    BlockEnds(index, i, (inputlen - (64 - index)) / 64);
  }

  lemma BlockEnds(index: nat, i: nat, k: nat)
    requires index < 64 && i == 64 - index + 64 * k && i < WORD
    ensures i + 64 >= WORD <==> i == WORD - (if index == 0 then 64 else index)
  {
    assert WORD == 64 * 0x400_0000;
  }

  // ----- the context

  class Context {
    const transform: Transform
    var count0: Word
    var count1: Word
    var state: seq<Word>
    const buffer: array<Byte>

    /** All bytes that have been put in. */
    ghost var msg: seq<Byte>

    /** Counter, state and the live part of the buffer are functions of the message alone. */
    ghost predicate Valid()
      reads this, buffer
    {
      && buffer.Length == 64
      && Counts(count0, count1, |msg|)
      && state == Absorb(transform, Whole(msg))
      && buffer[..|msg| % 64] == Live(msg)
    }

    /** `MD5Init` */
    constructor (transform: Transform)
      ensures Valid() && msg == [] && this.transform == transform && fresh(buffer)
    {
      this.transform := transform;
      count0, count1, state, msg := 0, 0, INITIAL, [];
      buffer := new Byte[64](_ => 0);
    }

    lemma IndexIsLength()
      requires Valid()
      ensures count0 / 8 % 64 == |msg| % 64
    {
      IndexOfCount(|msg|);
      WordsOfCount(count0, count1);
    }

    /** Where the next byte goes, from the low word of the counter. */
    method Index() returns (index: nat)
      requires Valid()
      ensures index == |msg| % 64 < 64
    {
      hide Absorb, Whole, Live;
      IndexIsLength();
      index := count0 / 8 % 64;
    }

    /** `MD5Update` with the first `inputlen` bytes of `input`. */
    method Update(input: seq<Byte>, inputlen: nat)
      requires Valid() && inputlen <= |input| && GuardHolds(|msg| % 64, inputlen)
      modifies this, buffer
      ensures Valid() && msg == old(msg) + input[..inputlen]
    {
      assert inputlen < WORD;
      hide Absorb, Whole, Live, GuardHolds, Counts;
      LiveLength(msg + input[..inputlen]);
      var index := Index();
      Count(inputlen);
      if inputlen >= 64 - index {
        FillAndCopy(input, inputlen, index);
      } else {
        StillPartial(msg, input[..inputlen]);
        CopyBehind(index, input, inputlen);
      }
      msg := msg + input[..inputlen];
    }

    /** An update that fills the buffer at least once. */
    method FillAndCopy(input: seq<Byte>, inputlen: nat, index: nat)
      requires buffer.Length == 64 && index == |msg| % 64 && 64 - index <= inputlen <= |input|
      requires GuardHolds(index, inputlen)
      requires state == Absorb(transform, Whole(msg)) && buffer[..index] == Live(msg)
      modifies this`state, buffer
      ensures var m := msg + input[..inputlen];
        state == Absorb(transform, Whole(m)) && |Live(m)| < 64 && buffer[..|Live(m)|] == Live(m)
    {
      hide Absorb, Whole, Live, GuardHolds;
      var i := Blocks(input, inputlen, index);
      Rest(msg, input, i, inputlen);
      Copy(0, input, i, inputlen - i);
    }

    /** The last copy of an update that fills no block. */
    method CopyBehind(index: nat, input: seq<Byte>, n: nat)
      requires index + n <= buffer.Length && n <= |input|
      modifies buffer
      ensures buffer[..index + n] == old(buffer[..index]) + input[..n]
    {
      Copy(index, input, 0, n);
      assert buffer[..index + n] == buffer[..index] + buffer[index..index + n];
    }

    /** After the whole blocks, the rest of the input is what is live. */
    lemma Rest(m: seq<Byte>, input: seq<Byte>, i: nat, inputlen: nat)
      requires i <= inputlen <= |input| && inputlen < i + 64 && (|m| + i) % 64 == 0
      ensures var t := m + input[..inputlen]; Whole(t) == m + input[..i] && Live(t) == input[i..inputlen]
    {
      WholeAndLive(m + input[..i], input[i..inputlen]);
      assert (m + input[..i]) + input[i..inputlen] == m + input[..inputlen];
    }

    /** Less than a block: the input joins what is live. */
    lemma StillPartial(m: seq<Byte>, s: seq<Byte>)
      requires |s| < 64 - |m| % 64
      ensures Whole(m + s) == Whole(m) && Live(m + s) == Live(m) + s && |Live(m)| == |m| % 64
    {
      WholeAndLive(Whole(m), Live(m) + s);
      assert Whole(m) + (Live(m) + s) == m + s;
    }

    lemma LiveLength(m: seq<Byte>)
      ensures |Live(m)| == |m| % 64
    {
    }

    /** The counter arithmetic of `MD5Update`. */
    method Count(inputlen: nat)
      requires inputlen < WORD && Counts(count0, count1, |msg|)
      modifies this`count0, this`count1
      ensures Counts(count0, count1, |msg| + inputlen)
    {
      CountMore(count0, count1, |msg|, inputlen);
      var high := inputlen / 0x2000_0000;
      WrapTwice(count1, high);
      count0 := (count0 + 8 * inputlen % WORD) % WORD;
      if count0 < 8 * inputlen % WORD {
        count1 := (count1 + 1) % WORD;
      }
      count1 := (count1 + inputlen / 0x2000_0000) % WORD;
    }

    /** The whole blocks of an update: the buffer filled up, then blocks from the input itself. */
    method Blocks(input: seq<Byte>, inputlen: nat, index: nat) returns (i: nat)
      requires buffer.Length == 64 && index == |msg| % 64 && 64 - index <= inputlen <= |input|
      requires GuardHolds(index, inputlen)
      requires state == Absorb(transform, Whole(msg)) && buffer[..index] == Live(msg)
      modifies this`state, buffer
      ensures i <= inputlen < i + 64 && (|msg| + i) % 64 == 0
      ensures state == Absorb(transform, msg + input[..i])
    {
      hide Absorb, Whole, Live;
      var partlen := 64 - index;
      Copy(index, input, 0, partlen);
      assert buffer[..] == Live(msg) + input[..partlen];
      AbsorbMore(transform, Whole(msg), buffer[..]);
      MessageParts(msg);
      assert Whole(msg) + (Live(msg) + input[..partlen]) == msg + input[..partlen];
      state := transform(state, buffer[..]);
      i := partlen;
      ghost var k := 0;
      BlockEnds(index, i, k);
      BlockMessage(|msg|, k);
      while (i + 64) % WORD <= inputlen
        invariant i == partlen + 64 * k && i <= inputlen && i + 64 < WORD && (|msg| + i) % 64 == 0
        invariant state == Absorb(transform, msg + input[..i])
        decreases inputlen - i
      {
        AbsorbMore(transform, msg + input[..i], input[i..i + 64]);
        assert (msg + input[..i]) + input[i..i + 64] == msg + input[..i + 64];
        state := transform(state, input[i..i + 64]);
        i, k := i + 64, k + 1;
        BlockEnds(index, i, k);
        BlockMessage(|msg|, k);
      }
    }

    lemma BlockMessage(n: nat, k: nat)
      ensures (n + (64 - n % 64) + 64 * k) % 64 == 0
    {
    }

    /** `memcpy(&buffer[index], &input[i], n)` */
    method Copy(index: nat, input: seq<Byte>, i: nat, n: nat)
      requires index + n <= buffer.Length && i + n <= |input|
      modifies buffer
      ensures buffer[..index] == old(buffer[..index]) && buffer[index..index + n] == input[i..i + n]
    {
      for k := 0 to n
        invariant buffer[..index] == old(buffer[..index]) && buffer[index..index + k] == input[i..i + k]
      {
        buffer[index + k] := input[i + k];
      }
    }

    /** `MD5Final`: the digest is that of the padded message, however the message was put in. */
    method Final() returns (digest: seq<Byte>)
      requires Valid()
      modifies this, buffer
      ensures Valid() && IsPadded(old(msg), msg)
      ensures |msg| % 64 == 0 && digest == Encode(Absorb(transform, msg))
    {
      hide Absorb, Whole, Live, Encode, Decode, Counts, LengthBytes;
      ghost var m := msg;
      var index := Index();
      var padlen := if index < 56 then 56 - index else 120 - index;
      var bits := EncodeLoop([count0, count1], 8);
      CounterBytes(count0, count1, |m|);
      var padding: seq<Byte> := [0x80] + seq(63, _ => 0);
      Update(padding, padlen);
      Update(bits, 8);
      PaddingShape(m, padding, padlen, bits);
      digest := EncodeLoop(state, 4 * |state|);
      assert state[..|state|] == state;
    }

    lemma CounterBytes(c0: Word, c1: Word, n: nat)
      requires Counts(c0, c1, n)
      ensures Encode([c0, c1][..2]) == LengthBytes(n)
    {
      hide Encode;
      WordsOfCount(c0, c1);
      assert [c0, c1][..2] == [c0, c1];
    }

    lemma PaddingShape(m: seq<Byte>, padding: seq<Byte>, padlen: nat, bits: seq<Byte>)
      requires padding == [0x80] + seq(63, _ => 0) && bits == LengthBytes(|m|)
      requires padlen == if |m| % 64 < 56 then 56 - |m| % 64 else 120 - |m| % 64
      ensures var p := m + padding[..padlen] + bits[..8];
        IsPadded(m, p) && |p| % 64 == 0 && Whole(p) == p
    {
      hide LengthBytes;
      var p := m + padding[..padlen] + bits[..8];
      assert padding[..padlen] == [0x80] + seq(padlen - 1, _ => 0);
      assert IsPaddedWith(m, p, padlen - 1);
    }
  }

  /** Chunk independence: however two contexts got the same bytes, they agree on everything that a later
      update or the digest can depend on. */
  lemma SameBytesSameContext(a: Context, b: Context)
    requires a.Valid() && b.Valid() && a.transform == b.transform && a.msg == b.msg
    ensures a.count0 == b.count0 && a.count1 == b.count1 && a.state == b.state
    ensures a.buffer[..a.count0 / 8 % 64] == b.buffer[..b.count0 / 8 % 64]
  {
    a.IndexIsLength();
    WordsOfCount(a.count0, a.count1);
    WordsOfCount(b.count0, b.count1);
  }
}
