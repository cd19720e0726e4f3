/** JSON Pointer (RFC 6901): splitting, escaping, array indices and resolution. */
module Pointer {
  import opened Text
  import opened Sequences
  import opened Json

  const SIZE_LIMIT: nat := 0x1_0000_0000_0000_0000

  /** The byte that `malloc` left where the escape writer should have put the '~' of "~1". */
  const UNWRITTEN: char

  // ----- decimal array indices

  function Digit(d: nat): char
    requires d < 10
  {
    ('0' as int + d) as char
  }

  function Decimal(n: nat): string {
    if n < 10 then [Digit(n)] else Decimal(n / 10) + [Digit(n % 10)]
  }

  /** The digit loop: it tests the current character from below but the FIRST one from above, and
      accumulates in a `size_t`. */
  function ScanIndex(s: string, acc: nat): (string, nat) {
    if s != "" && s[0] >= '0'
    then ScanIndex(s[1..], (10 * acc + (s[0] as int - '0' as int)) % SIZE_LIMIT)
    else (s, acc)
  }

  predicate AtTokenEnd(s: string) {
    s == "" || s[0] == '/'
  }

  /** `decode_array_index_from_pointer`. */
  function DecodeIndex(s: string): Option<nat> {
    if s != "" && s[0] == '0' && !AtTokenEnd(s[1..]) then None
    else
      var (rest, index) := if s != "" && s[0] > '9' then (s, 0) else ScanIndex(s, 0);
      if AtTokenEnd(rest) then Some(index) else None
  }

  // ----- reference tokens

  predicate IsPointer(p: string) {
    p == "" || p[0] == '/'
  }

  function TokenEnd(s: string): (i: nat)
    ensures i <= |s| && AtTokenEnd(s[i..])
    ensures '/' !in s[..i]
  {
    if AtTokenEnd(s) then 0
    else
      var i := 1 + TokenEnd(s[1..]);
      assert s[..i] == [s[0]] + s[1..][..i - 1];
      assert s[i..] == s[1..][i - 1..];
      i
  }

  /** The reference tokens of a pointer, still escaped. */
  function Split(p: string): (tokens: seq<string>)
    requires IsPointer(p)
    ensures forall t <- tokens :: '/' !in t
    decreases |p|
  {
    if p == "" then []
    else
      var n := TokenEnd(p[1..]);
      [p[1..][..n]] + Split(p[1..][n..])
  }

  /** Section 4 of RFC 6901: "~1" stands for '/' and "~0" for '~'; nothing else may follow a '~'. */
  function Unescape(token: string): Option<string>
    decreases |token|
  {
    if token == "" then Some("")
    else if token[0] != '~' then
      var rest := Unescape(token[1..]);
      if rest.None? then None else Some([token[0]] + rest.value)
    else if |token| < 2 || (token[1] != '0' && token[1] != '1') then None
    else
      var rest := Unescape(token[2..]);
      if rest.None? then None else Some([if token[1] == '0' then '~' else '/'] + rest.value)
  }

  /** Section 4 of RFC 6901, the other way round: the token that stands for a key. */
  function TokenOf(key: string): string {
    if key == "" then ""
    else (if key[0] == '~' then "~0" else if key[0] == '/' then "~1" else [key[0]]) + TokenOf(key[1..])
  }

  lemma {:induction false} TokenStandsFor(key: string)
    ensures Unescape(TokenOf(key)) == Some(key) && '/' !in TokenOf(key)
  {
    if key != "" {
      var t, rest := TokenOf(key), TokenOf(key[1..]);
      TokenStandsFor(key[1..]);
      assert key == [key[0]] + key[1..];
      if key[0] == '~' || key[0] == '/' { assert t[2..] == rest; } else { assert t[1..] == rest; }
    }
  }

  /** `compare_pointers`: does the next token of the pointer name this key? */
  predicate ComparePointers(name: string, p: string, cs: bool)
    decreases |name|
  {
    if name != "" && !AtTokenEnd(p) then
      if p[0] == '~' then
        if (|p| < 2 || p[1] != '0' || name[0] != '~') && (|p| < 2 || p[1] != '1' || name[0] != '/') then false
        else ComparePointers(name[1..], p[2..], cs)
      else if (!cs && ToLower(name[0]) != ToLower(p[0])) || (cs && name[0] != p[0]) then false
      else ComparePointers(name[1..], p[1..], cs)
    else (name == "") == AtTokenEnd(p)
  }

  /** `encode_string_as_pointer`: '~' is written as "~1", and the '~' in front of the '1' that
      stands for '/' is never written. */
  function Escape(s: string): string {
    if s == "" then ""
    else if s[0] == '/' then [UNWRITTEN, '1'] + Escape(s[1..])
    else if s[0] == '~' then "~1" + Escape(s[1..])
    else [s[0]] + Escape(s[1..])
  }

  /** `decode_pointer_inplace` on the bytes up to the terminator: ordinary characters after the first
      escape are not moved, and "~1" writes its '/' one place too far.
      `w` and `r` are the write and the read position. */
  function DecodeInPlace(buffer: string, w: nat, r: nat): string
    requires w <= r <= |buffer|
    decreases |buffer| - r
  {
    if r == |buffer| then buffer[..w]
    else if buffer[r] != '~' then DecodeInPlace(buffer, w + 1, r + 1)
    else if r + 1 < |buffer| && buffer[r + 1] == '0' then DecodeInPlace(buffer[w := '~'], w + 1, r + 2)
    else if r + 1 < |buffer| && buffer[r + 1] == '1' then DecodeInPlace(buffer[w + 1 := '/'], w + 1, r + 2)
    else buffer
  }

  /** A key or token that the escape writer and the in-place decoder leave alone. */
  predicate Plain(s: string) {
    forall c <- s :: c != '~' && c != '/'
  }

  ghost predicate PointerSafe(j: Json)
    decreases j
  {
    match j
    case Array(items) => forall i :: 0 <= i < |items| ==> PointerSafe(items[i])
    case Object(ms) => forall i :: 0 <= i < |ms| ==> Plain(ms[i].key) && PointerSafe(ms[i].value)
    case _ => true
  }

  // ----- tokens, one at a time

  lemma {:induction false} TokenEndOf(t: string, rest: string)
    requires '/' !in t && AtTokenEnd(rest)
    ensures TokenEnd(t + rest) == |t|
    ensures (t + rest)[..|t|] == t && (t + rest)[|t|..] == rest
  {
    if t == "" {
      assert t + rest == rest;
    } else {
      assert (t + rest)[1..] == t[1..] + rest;
      assert t[0] in t && forall c <- t[1..] :: c in t;
      TokenEndOf(t[1..], rest);
    }
  }

  lemma SplitOne(t: string, rest: string)
    requires '/' !in t && IsPointer(rest)
    ensures Split("/" + t + rest) == [t] + Split(rest)
  {
    var q := "/" + t + rest;
    assert q[1..] == t + rest;
    TokenEndOf(t, rest);
    hide TokenEnd;
    assert Split(q) == [q[1..][..TokenEnd(q[1..])]] + Split(q[1..][TokenEnd(q[1..])..]);
  }

  /** The first token and what is left of a pointer. */
  lemma FirstAndRest(p: string) returns (tok: string, rest: string)
    requires IsPointer(p) && p != ""
    ensures p == "/" + tok + rest && '/' !in tok && IsPointer(rest) && |rest| < |p|
  {
    var n := TokenEnd(p[1..]);
    tok, rest := p[1..][..n], p[1..][n..];
  }

  lemma LongerPointer(tok: string, rest: string, t: string)
    ensures ("/" + tok + rest) + "/" + t == "/" + tok + (rest + "/" + t)
    ensures IsPointer("/" + tok + (rest + "/" + t)) && IsPointer("/" + t) && "" + "/" + t == "/" + t + ""
  {
  }

  lemma {:induction false} SplitAppend(p: string, t: string)
    requires IsPointer(p) && '/' !in t
    ensures IsPointer(p + "/" + t) && Split(p + "/" + t) == Split(p) + [t]
    decreases |p|
  {
    if p == "" {
      LongerPointer("", "", t);
      SplitOne(t, "");
    } else {
      var tok, rest := FirstAndRest(p);
      hide Split, IsPointer;
      SplitOne(tok, rest);
      SplitAppend(rest, t);
      SplitOne(tok, rest + "/" + t);
      LongerPointer(tok, rest, t);
      Regroup([tok], Split(rest), [t]);
    }
  }

  lemma {:induction false} ScanStopsAtSlash(t: string, rest: string, acc: nat)
    requires '/' !in t && AtTokenEnd(rest)
    ensures ScanIndex(t + rest, acc).1 == ScanIndex(t, acc).1
    ensures AtTokenEnd(ScanIndex(t + rest, acc).0) == AtTokenEnd(ScanIndex(t, acc).0)
  {
    if t == "" {
      assert t + rest == rest;
    } else {
      assert t[0] in t && forall c <- t[1..] :: c in t;
      assert (t + rest)[1..] == t[1..] + rest;
      if t[0] >= '0' {
        ScanStopsAtSlash(t[1..], rest, (10 * acc + (t[0] as int - '0' as int)) % SIZE_LIMIT);
      }
    }
  }

  /** Decoding an index looks at the first token only. */
  lemma DecodeIndexOfToken(t: string, rest: string)
    requires '/' !in t && AtTokenEnd(rest)
    ensures DecodeIndex(t + rest) == DecodeIndex(t)
  {
    if t == "" {
      assert t + rest == rest;
    } else {
      assert t[0] in t && forall c <- t[1..] :: c in t;
      assert (t + rest)[1..] == t[1..] + rest;
      assert AtTokenEnd(t[1..] + rest) == AtTokenEnd(t[1..]) by {
        if t[1..] == "" { assert t[1..] + rest == rest; } else { assert t[1] in t; }
      }
      ScanStopsAtSlash(t, rest, 0);
    }
  }

  /** Section 4 of RFC 6901: a token names a key exactly when it unescapes to it, up to letter case
      of unescaped characters when the flag is off. */
  lemma {:induction false} ComparePointersIsRfc(name: string, t: string, rest: string, cs: bool)
    requires '/' !in t && AtTokenEnd(rest)
    ensures ComparePointers(name, t + rest, cs)
        <==> Unescape(t).Some? && Fold(Unescape(t).value, cs) == Fold(name, cs)
    decreases |t|
  {
    var p := t + rest;
    if t == "" {
      assert p == rest;
    } else {
      assert p[0] == t[0] && t[0] in t && forall c <- t[1..] :: c in t;
      assert p[1..] == t[1..] + rest;
      if t[0] != '~' {
        if name != "" {
          ComparePointersIsRfc(name[1..], t[1..], rest, cs);
          SameHeadAndTail(name, t[0], t[1..], cs);
        } else if Unescape(t).Some? {
          assert Fold(Unescape(t).value, cs) != "";
        }
      } else if |t| >= 2 {
        assert p[2..] == t[2..] + rest && p[1] == t[1];
        assert forall c <- t[2..] :: c in t;
        if name != "" {
          ComparePointersIsRfc(name[1..], t[2..], rest, cs);
          SameHeadAndTail(name, if t[1] == '0' then '~' else '/', t[2..], cs);
        }
      } else {
        assert |p| < 2 || p[1] == '/';
      }
    }
  }

  lemma SameHeadAndTail(name: string, c: char, tail: string, cs: bool)
    requires name != ""
    ensures Unescape(tail).Some? ==>
              (Fold([c] + Unescape(tail).value, cs) == Fold(name, cs)
               <==> (if cs then c == name[0] else ToLower(c) == ToLower(name[0]))
                    && Fold(Unescape(tail).value, cs) == Fold(name[1..], cs))
  {
    if Unescape(tail).Some? {
      var v := Unescape(tail).value;
      assert ([c] + v)[1..] == v;
      assert name == [name[0]] + name[1..];
      SameCons(c, v, name[0], name[1..]);
      SameCons(ToLower(c), Lower(v), ToLower(name[0]), Lower(name[1..]));
    }
  }

  lemma SameCons(x: char, s: string, y: char, t: string)
    ensures [x] + s == [y] + t <==> x == y && s == t
  {
    assert ([x] + s)[1..] == s && ([y] + t)[1..] == t;
    assert ([x] + s)[0] == x && ([y] + t)[0] == y;
  }

  function Slashes(s: string): nat {
    if s == "" then 0 else (if s[0] == '/' then 1 else 0) + Slashes(s[1..])
  }

  lemma {:induction false} UnescapedLength(key: string)
    ensures Unescape(Escape(key)).Some?
    ensures |Unescape(Escape(key)).value| == |key| + (if UNWRITTEN == '~' then 0 else Slashes(key))
  {
    if key != "" {
      var e, rest := Escape(key), Escape(key[1..]);
      UnescapedLength(key[1..]);
      if key[0] == '/' || key[0] == '~' {
        assert e[2..] == rest && e[1..] == "1" + rest && ("1" + rest)[1..] == rest;
      } else {
        assert e[1..] == rest;
      }
    }
  }

  lemma {:induction false} NoSlashes(s: string)
    ensures Slashes(s) == 0 <==> '/' !in s
  {
    if s != "" {
      NoSlashes(s[1..]);
      assert s[0] in s && forall c <- s :: c == s[0] || c in s[1..];
      assert forall c <- s[1..] :: c in s;
    }
  }

  /** When the '~' happens to be in place, what comes back has '/' wherever the key has '/' or '~'. */
  lemma {:induction false} UnescapedShape(key: string)
    requires UNWRITTEN == '~' || '/' !in key
    ensures Unescape(Escape(key)).Some?
    ensures Unescape(Escape(key)).value == key <==> '~' !in key
  {
    if key != "" {
      var e, rest := Escape(key), Escape(key[1..]);
      assert key[0] in key && forall c <- key :: c == key[0] || c in key[1..];
      assert forall c <- key[1..] :: c in key;
      UnescapedShape(key[1..]);
      assert key == [key[0]] + key[1..];
      if key[0] == '/' || key[0] == '~' {
        assert e[2..] == rest;
        assert Unescape(e).value == ['/'] + Unescape(rest).value;
        assert Unescape(e).value[1..] == Unescape(rest).value;
      } else {
        assert e[1..] == rest;
        assert Unescape(e).value[1..] == Unescape(rest).value;
      }
    }
  }

  /** Keys whose token stands for them. */
  predicate Writable(key: string) {
    '~' !in key && ('/' in key ==> UNWRITTEN == '~')
  }

  /** The token written for a key stands for that key exactly when the key has no '~', and no '/'
      either unless the unwritten byte happens to hold a '~'. */
  lemma EscapeNamesKey(key: string)
    ensures Unescape(Escape(key)) == Some(key) <==> Writable(key)
  {
    NoSlashes(key);
    UnescapedLength(key);
    if UNWRITTEN == '~' || '/' !in key {
      UnescapedShape(key);
    }
  }

  /** A '~' is written as the token for '/'. */
  lemma EscapeFails()
    ensures Escape("a~b") == "a~1b" && Unescape(Escape("a~b")) == Some("a/b")
  {
    assert "a~b"[1..] == "~b" && "~b"[1..] == "b" && "b"[1..] == "";
    assert Escape("b") == "b" && Escape("~b") == "~1b" && ['a'] + "~1b" == "a~1b";
    assert "a~1b"[1..] == "~1b" && "~1b"[2..] == "b";
    assert Unescape("") == Some("") && Unescape("b") == Some("b") && ['/'] + "b" == "/b" && ['a'] + "/b" == "a/b";
    assert Unescape("~1b") == Some("/b");
  }

  lemma {:induction false} PlainIsLeftAlone(key: string)
    requires Plain(key)
    ensures Escape(key) == key && Unescape(key) == Some(key)
  {
    if key != "" {
      assert key[0] in key && forall c <- key[1..] :: c in key;
      PlainIsLeftAlone(key[1..]);
      assert key == [key[0]] + key[1..];
    }
  }

  lemma {:induction false} PlainIsDecodedInPlace(s: string, i: nat)
    requires Plain(s) && i <= |s|
    ensures DecodeInPlace(s, i, i) == s
    decreases |s| - i
  {
    if i < |s| {
      assert s[i] in s;
      PlainIsDecodedInPlace(s, i + 1);
    }
  }

  /** The in-place decoder is wrong on "~1" and on anything after an escape. */
  lemma DecodeInPlaceFails()
    ensures Unescape("~1") == Some("/") && DecodeInPlace("~1", 0, 0) == "~"
    ensures Unescape("~0b") == Some("~b") && DecodeInPlace("~0b", 0, 0) == "~0"
  {
    assert "~1"[2..] == "" && "~0b"[2..] == "b" && "b"[1..] == "";
    assert ['b'] + "" == "b" && ['/'] + "" == "/" && ['~'] + "b" == "~b";
    assert Unescape("") == Some("") && Unescape("b") == Some("b") && Unescape("~1") == Some("/");
    assert Unescape("~0b") == Some("~b");
    var x := "~1"[1 := '/'];
    assert DecodeInPlace("~1", 0, 0) == DecodeInPlace(x, 1, 2) == x[..1] == "~";
    var y := "~0b"[0 := '~'];
    assert DecodeInPlace("~0b", 0, 0) == DecodeInPlace(y, 1, 2) == DecodeInPlace(y, 2, 3) == y[..2] == "~0";
  }

  /** Tokens on which the missing copy does no harm: no "~1", and every ordinary character happens to
      repeat the byte that stands where it belongs. */
  predicate SurvivesInPlace(t: string, w: nat, r: nat)
    requires w <= r <= |t|
    decreases |t| - r
  {
    if r == |t| then true
    else if t[r] != '~' then t[w] == t[r] && SurvivesInPlace(t, w + 1, r + 1)
    else r + 1 < |t| && t[r + 1] == '0' && SurvivesInPlace(t, w + 1, r + 2)
  }

  lemma {:induction false} DecodedPrefixStays(buffer: string, w: nat, r: nat)
    requires w <= r <= |buffer|
    ensures w <= |DecodeInPlace(buffer, w, r)| && DecodeInPlace(buffer, w, r)[..w] == buffer[..w]
    decreases |buffer| - r
  {
    if r < |buffer| {
      if buffer[r] != '~' {
        DecodedPrefixStays(buffer, w + 1, r + 1);
        ShorterPrefix(DecodeInPlace(buffer, w + 1, r + 1), buffer, w);
      } else if r + 1 < |buffer| && (buffer[r + 1] == '0' || buffer[r + 1] == '1') {
        var after := if buffer[r + 1] == '0' then buffer[w := '~'] else buffer[w + 1 := '/'];
        DecodedPrefixStays(after, w + 1, r + 2);
        assert after[..w] == buffer[..w];
        ShorterPrefix(DecodeInPlace(after, w + 1, r + 2), after, w);
      }
    }
  }

  lemma ShorterPrefix(a: string, b: string, w: nat)
    requires w < |a| && w < |b| && a[..w + 1] == b[..w + 1]
    ensures a[..w] == b[..w]
  {
    assert a[..w + 1][..w] == b[..w + 1][..w];
  }

  lemma UnescapeStep(t: string, r: nat)
    requires r < |t| && Unescape(t[r..]).Some?
    ensures t[r] != '~' ==>
      Unescape(t[r + 1..]).Some? && Unescape(t[r..]).value == [t[r]] + Unescape(t[r + 1..]).value
    ensures t[r] == '~' ==> r + 1 < |t| && (t[r + 1] == '0' || t[r + 1] == '1') && Unescape(t[r + 2..]).Some?
    ensures t[r] == '~' ==>
      Unescape(t[r..]).value == [if t[r + 1] == '0' then '~' else '/'] + Unescape(t[r + 2..]).value
  {
    assert t[r..][1..] == t[r + 1..];
    if |t| >= r + 2 { assert t[r..][2..] == t[r + 2..]; }
  }

  /** The general step: the bytes from the write position on are still those of the token. */
  lemma {:induction false} InPlaceExactly(t: string, buffer: string, w: nat, r: nat)
    requires w <= r <= |t| == |buffer| && buffer[w..] == t[w..] && '/' !in t && Unescape(t[r..]).Some?
    ensures DecodeInPlace(buffer, w, r) == buffer[..w] + Unescape(t[r..]).value <==> SurvivesInPlace(t, w, r)
    decreases |t| - r
  {
    if r == |t| {
      assert t[r..] == "" && buffer[..w] + "" == buffer[..w];
    } else {
      UnescapeStep(t, r);
      var n := if t[r] == '~' then r + 2 else r + 1;
      var after := InPlaceStep(t, buffer, w, r);
      var d, rest, c := DecodeInPlace(after, w + 1, n), Unescape(t[n..]).value, Unescape(t[r..]).value[0];
      DecodedPrefixStays(after, w + 1, n);
      SurvivesStep(t, w, r);
      hide DecodeInPlace, SurvivesInPlace, Unescape;
      ExtendsBy(d, buffer[..w], after[w], c, rest);
      if c == after[w] {
        InPlaceExactly(t, after, w + 1, n);
      }
    }
  }

  lemma ExtendsBy(d: string, prefix: string, x: char, c: char, rest: string)
    requires |prefix| < |d| && d[..|prefix| + 1] == prefix + [x]
    ensures d == prefix + ([c] + rest) <==> x == c && d == (prefix + [x]) + rest
  {
    assert d[|prefix|] == d[..|prefix| + 1][|prefix|] == x;
    assert (prefix + ([c] + rest))[|prefix|] == c;
    assert prefix + ([c] + rest) == (prefix + [c]) + rest;
  }

  lemma SurvivesStep(t: string, w: nat, r: nat)
    requires w <= r < |t| && (t[r] == '~' ==> r + 1 < |t|)
    ensures SurvivesInPlace(t, w, r) ==
      if t[r] != '~' then t[w] == t[r] && SurvivesInPlace(t, w + 1, r + 1)
      else t[r + 1] == '0' && SurvivesInPlace(t, w + 1, r + 2)
  {
  }

  /** One round of the decoder: what it leaves at the write position, and whether that is right. */
  lemma InPlaceStep(t: string, buffer: string, w: nat, r: nat) returns (after: string)
    requires w <= r < |t| == |buffer| && buffer[w..] == t[w..] && '/' !in t
    requires t[r] == '~' ==> r + 1 < |t| && (t[r + 1] == '0' || t[r + 1] == '1')
    ensures |after| == |t| && after[..w + 1] == buffer[..w] + [after[w]]
    ensures DecodeInPlace(buffer, w, r) == DecodeInPlace(after, w + 1, if t[r] == '~' then r + 2 else r + 1)
    ensures var c := if t[r] != '~' then t[r] else if t[r + 1] == '0' then '~' else '/';
      && (c == after[w] <==> if t[r] != '~' then t[w] == t[r] else t[r + 1] == '0')
      && (c == after[w] ==> after[w + 1..] == t[w + 1..])
  {
    assert forall k :: w <= k < |t| ==> buffer[k] == buffer[w..][k - w] == t[k];
    assert t[w] in t && t[r] in t;
    after := if t[r] != '~' then buffer else if t[r + 1] == '0' then buffer[w := '~'] else buffer[w + 1 := '/'];
    if t[r] != '~' || t[r + 1] == '0' {
      assert forall k :: w < k < |t| ==> after[k] == t[k];
      assert after[w + 1..] == t[w + 1..];
    } else {
      assert after[w] == t[w] != '/';
    }
  }

  /** A token without malformed escapes is decoded correctly in place exactly when it survives the
      decoder's omissions. */
  lemma DecodeInPlaceIsRfc(t: string)
    requires '/' !in t && Unescape(t).Some?
    ensures DecodeInPlace(t, 0, 0) == Unescape(t).value <==> SurvivesInPlace(t, 0, 0)
  {
    assert t[0..] == t && t[..0] + Unescape(t).value == Unescape(t).value;
    InPlaceExactly(t, t, 0, 0);
  }

  // ----- the decoder behind the writer

  /** Keys without '~' and '/', or with one '~' that nothing follows.  (If the unwritten byte holds '~', any
      number of '/' may follow it.) */
  predicate ComesBack(key: string) {
    if key == "" then true
    else if key[0] == '~' then OnlySlashes(key[1..])
    else key[0] != '/' && ComesBack(key[1..])
  }

  predicate OnlySlashes(s: string) {
    s == "" || (UNWRITTEN == '~' && s[0] == '/' && OnlySlashes(s[1..]))
  }

  /** What the decoder reads when the rest of the buffer is the token for `k`, and how much it leaves. */
  lemma {:induction false} DecodedLength(buffer: string, w: nat, r: nat, k: string)
    requires w <= r <= |buffer| && buffer[r..] == Escape(k)
    ensures |DecodeInPlace(buffer, w, r)| == w + |k| + (if UNWRITTEN == '~' then 0 else Slashes(k))
    decreases |k|
  {
    if k != "" {
      EscapeStep(buffer, w, r, k);
      if k[0] != '/' && k[0] != '~' {
        DecodedLength(buffer, w + 1, r + 1, k[1..]);
      } else if buffer[r] == '~' {
        DecodedLength(buffer[w + 1 := '/'], w + 1, r + 2, k[1..]);
      } else {
        DecodedLength(buffer, w + 2, r + 2, k[1..]);
      }
    }
  }

  lemma EscapeStep(buffer: string, w: nat, r: nat, k: string)
    requires w <= r <= |buffer| && buffer[r..] == Escape(k) && k != ""
    ensures k[0] != '/' && k[0] != '~' ==> r < |buffer| && buffer[r] == k[0] && buffer[r + 1..] == Escape(k[1..])
    ensures k[0] == '/' || k[0] == '~' ==>
      && r + 1 < |buffer| && buffer[r] == (if k[0] == '~' then '~' else UNWRITTEN) && buffer[r + 1] == '1'
      && buffer[r + 2..] == buffer[w + 1 := '/'][r + 2..] == Escape(k[1..])
  {
    var e := buffer[r..];
    if k[0] == '/' || k[0] == '~' {
      assert e[0] == buffer[r] && e[1] == buffer[r + 1] && e[2..] == buffer[r + 2..];
      assert e == [e[0], '1'] + Escape(k[1..]);
      assert buffer[w + 1 := '/'][r + 2..] == buffer[r + 2..];
    } else {
      assert e[0] == buffer[r] && e[1..] == buffer[r + 1..];
    }
  }

  /** Behind the first '~' the decoder finds a '/' wherever it writes. */
  lemma {:induction false} BehindTilde(buffer: string, w: nat, r: nat, k: string)
    requires w < r <= |buffer| && buffer[r..] == Escape(k) && buffer[w] == '/'
    ensures DecodeInPlace(buffer, w, r) == buffer[..w] + k <==> OnlySlashes(k)
    decreases |k|
  {
    var d := DecodeInPlace(buffer, w, r);
    DecodedLength(buffer, w, r, k);
    if k != "" {
      EscapeStep(buffer, w, r, k);
      if buffer[r] == '~' {
        var after := buffer[w + 1 := '/'];
        assert d == DecodeInPlace(after, w + 1, r + 2);
        DecodedPrefixStays(after, w + 1, r + 2);
        assert after[..w + 1] == buffer[..w] + ['/'];
        assert k == [k[0]] + k[1..];
        ExtendsBy(d, buffer[..w], '/', k[0], k[1..]);
        BehindTilde(after, w + 1, r + 2, k[1..]);
      } else if k[0] == '/' {
        assert Slashes(k) > 0;
      } else {
        DecodedPrefixStays(buffer, w + 1, r + 1);
        assert d[w] == buffer[..w + 1][w] && (buffer[..w] + k)[w] == k[0];
      }
    }
  }

  lemma {:induction false} UpToTilde(buffer: string, i: nat, k: string)
    requires i <= |buffer| && buffer[i..] == Escape(k)
    ensures DecodeInPlace(buffer, i, i) == buffer[..i] + k <==> ComesBack(k)
    decreases |k|
  {
    DecodedLength(buffer, i, i, k);
    if k != "" {
      var d := DecodeInPlace(buffer, i, i);
      EscapeStep(buffer, i, i, k);
      assert k == [k[0]] + k[1..];
      if buffer[i] == '~' {
        var after := buffer[i + 1 := '/'];
        assert d == DecodeInPlace(after, i + 1, i + 2);
        DecodedPrefixStays(after, i + 1, i + 2);
        assert after[..i + 1] == buffer[..i] + ['~'];
        ExtendsBy(d, buffer[..i], '~', k[0], k[1..]);
        BehindTilde(after, i + 1, i + 2, k[1..]);
      } else if k[0] == '/' {
        assert Slashes(k) > 0;
      } else {
        DecodedPrefixStays(buffer, i + 1, i + 1);
        assert buffer[..i + 1] == buffer[..i] + [k[0]];
        ExtendsBy(d, buffer[..i], k[0], k[0], k[1..]);
        UpToTilde(buffer, i + 1, k[1..]);
      }
    }
  }

  /** The in-place decoder undoes the escape writer on exactly these keys: a '~' at the end survives only
      because both are wrong about it. */
  lemma DecoderUndoesWriter(key: string)
    ensures DecodeInPlace(Escape(key), 0, 0) == key <==> ComesBack(key)
  {
    assert Escape(key)[0..] == Escape(key) && Escape(key)[..0] + key == key;
    UpToTilde(Escape(key), 0, key);
  }

  // ----- indices

  function IntOfDigits(s: string, acc: nat): nat
    requires forall c <- s :: '0' <= c <= '9'
  {
    if s == "" then acc
    else
      assert s[0] in s && forall c <- s[1..] :: c in s;
      IntOfDigits(s[1..], 10 * acc + (s[0] as int - '0' as int))
  }

  lemma {:induction false} DecimalDigits(n: nat)
    ensures Decimal(n) != "" && forall c <- Decimal(n) :: '0' <= c <= '9'
    ensures Decimal(n)[0] == '0' ==> n == 0
    ensures n < 10 ==> |Decimal(n)| == 1
  {
    if n >= 10 {
      DecimalDigits(n / 10);
    }
  }

  lemma {:induction false} ScanConcat(s: string, c: char, acc: nat)
    requires forall d <- s :: '0' <= d <= '9'
    requires '0' <= c <= '9'
    ensures ScanIndex(s, acc).0 == ""
    ensures ScanIndex(s + [c], acc) == ("", (10 * ScanIndex(s, acc).1 + (c as int - '0' as int)) % SIZE_LIMIT)
  {
    if s == "" {
      assert s + [c] == [c];
    } else {
      assert s[0] in s && forall d <- s[1..] :: d in s;
      assert (s + [c])[1..] == s[1..] + [c];
      ScanConcat(s[1..], c, (10 * acc + (s[0] as int - '0' as int)) % SIZE_LIMIT);
    }
  }

  lemma {:induction false} ScanDecimal(n: nat)
    requires n < SIZE_LIMIT
    ensures ScanIndex(Decimal(n), 0) == ("", n)
  {
    if n < 10 {
      assert Decimal(n)[1..] == "";
    } else {
      DecimalDigits(n / 10);
      var m, d := n / 10, n % 10;
      ScanDecimal(m);
      ScanOneMore(Decimal(m), m, d);
      assert Decimal(n) == Decimal(m) + [Digit(d)];
    }
  }

  lemma ScanOneMore(s: string, m: nat, d: nat)
    requires forall c <- s :: '0' <= c <= '9'
    requires ScanIndex(s, 0) == ("", m) && d < 10 && 10 * m + d < SIZE_LIMIT
    ensures ScanIndex(s + [Digit(d)], 0) == ("", 10 * m + d)
  {
    ScanConcat(s, Digit(d), 0);
  }

  /** A printed index decodes to itself, whatever follows the token. */
  lemma DecodeDecimal(n: nat)
    requires n < SIZE_LIMIT
    ensures DecodeIndex(Decimal(n)) == Some(n)
    ensures Plain(Decimal(n)) && Decimal(n) != "-"
  {
    DecimalDigits(n);
    ScanDecimal(n);
    if n == 0 {
      assert Decimal(n)[1..] == "";
    }
    assert Decimal(n)[0] in Decimal(n);
  }
}
