/** The parser: a buffer with an offset and a nesting depth. */
module ParseBuffer {
  import opened Text
  import opened Json
  import opened StringLiteral
  import opened JsonText

  /** A text and its terminator. */
  ghost predicate IsContent(content: seq<char>) {
    content != [] && content[|content| - 1] == NUL && IsCString(content[..|content| - 1])
  }

  lemma ContentNul(content: seq<char>, i: nat)
    requires IsContent(content) && i < |content|
    ensures content[i] == NUL <==> i == |content| - 1
    ensures content[i] as int < 256
  {
    if i < |content| - 1 {
      assert content[i] == content[..|content| - 1][i] && content[i] in content[..|content| - 1];
    }
  }

  class Parser {
    const content: seq<char>
    const strtod: Strtod
    var offset: nat
    var depth: nat

    ghost predicate Valid()
      reads this
    {
      IsContent(content) && offset < |content|
    }

    /** What is left of the text. */
    ghost function Left(): string
      requires Valid()
      reads this
    {
      content[offset..|content| - 1]
    }

    constructor (text: string, strtod: Strtod)
      requires IsCString(text)
      ensures Valid() && Left() == text && depth == 0 && offset == 0
      ensures content == text + [NUL] && this.strtod == strtod
    {
      content, this.strtod := text + [NUL], strtod;
      offset, depth := 0, 0;
      new;
      assert content[..|content| - 1] == text;
    }

    /** Moving on by `n` characters of the text. */
    lemma Moved(from: nat, n: nat)
      requires IsContent(content) && from + n < |content|
      ensures content[from..|content| - 1][n..] == content[from + n..|content| - 1]
    {
    }

    /** `buffer_skip_whitespace`: the terminator counts as white space, but is not passed. */
    method SkipWhitespace()
      requires Valid()
      modifies this`offset
      ensures Valid() && Left() == Skip(old(Left())) && offset >= old(offset)
    {
      while offset < |content| && content[offset] as int <= 32
        invariant IsContent(content) && old(offset) <= offset <= |content|
        invariant offset < |content| ==> Skip(Left()) == Skip(old(Left()))
        invariant offset == |content| ==> Skip(old(Left())) == ""
      {
        ContentNul(content, offset);
        if offset < |content| - 1 { Moved(offset, 1); }
        offset := offset + 1;
      }
      if offset == |content| {
        offset := offset - 1;
      } else {
        ContentNul(content, offset);
      }
    }

    /** `can_read` and `strncmp` at the offset. */
    method At(word: string) returns (ok: bool)
      requires Valid() && NUL !in word && word != ""
      ensures ok <==> StartsWith(Left(), word)
    {
      ok := offset + |word| <= |content| && content[offset..offset + |word|] == word;
      ghost var last := |word| - 1;
      assert word[last] in word;
      if offset + |word| < |content| {
        assert Left()[..|word|] == content[offset..offset + |word|];
      } else if offset + |word| == |content| {
        assert content[offset..offset + |word|][last] == NUL;
      }
    }

    /** The copying loop of `parse_number`. */
    method NumberText() returns (run: string)
      requires Valid()
      ensures run == NumberRun(Left(), 63) && offset + |run| < |content|
    {
      hide NumberRun, InNumber;
      ghost var s := Left();
      var i := 0;
      assert s[..0] + NumberRun(s, 63) == NumberRun(s, 63) && s[0..] == s;
      assert !InNumber(NUL) by { NulEndsNumber(); }
      while i < 63 && offset + i < |content| && InNumber(content[offset + i])
        invariant i <= 63 && i <= |s|
        invariant NumberRun(s, 63) == s[..i] + NumberRun(s[i..], 63 - i)
      {
        ContentNul(content, offset + i);
        RunGoesOn(s, i, 63 - i);
        i := i + 1;
      }
      RunStops(s, i, 63 - i);
      run := content[offset..offset + i];
      assert run == s[..i];
    }

    method ParseNumber() returns (item: Option<Json>)
      requires Valid()
      modifies this`offset
      ensures Valid() && Outcome(item, ReadNumber(old(Left()), strtod)) && (item.Some? ==> offset > old(offset))
    {
      hide NumberRun;
      var run := NumberText();
      var r := strtod(run);
      if r.used == 0 || r.used > |run| {
        return None;
      }
      Moved(offset, r.used);
      offset := offset + r.used;
      item := Some(Number(r.n));
    }

    /** The result of a step is the specification's, and so is the text that is left. */
    ghost predicate Outcome<T>(value: Option<T>, r: Parsed<T>)
      requires Valid()
      reads this
    {
      if value.None? then r.Fail? else r == Done(value.value, Left())
    }

    /** `parse_string`: two passes over the literal. */
    method ParseString() returns (text: Option<string>)
      requires Valid()
      modifies this`offset
      ensures Valid() && (text.Some? ==> offset > old(offset))
      ensures var s := old(Left());
        text.Some? <==> StartsWith(s, "\"") && ReadLiteral(s[1..]).Some?
      ensures text.Some? ==> ReadLiteral(old(Left())[1..]) == Some(Literal(text.value, Left()))
    {
      if content[offset] != '"' {
        return None;
      }
      ContentNul(content, offset);
      var start := offset + 1;
      ghost var s := content[start..|content| - 1];
      assert Left()[1..] == s;
      var k, reserved := FirstPass(start);
      if k.None? {
        return None;
      }
      var output := new char[reserved];
      var n := SecondPass(start, k.value, output);
      if n.None? {
        return None;
      }
      output[n.value] := NUL;
      text := Some(UntilNul(output[..n.value]));
      Moved(start, k.value + 1);
      offset := start + k.value + 1;
    }

    /** The first pass: the position of the closing quote behind the opening one, and how many bytes to
        allocate. */
    method FirstPass(start: nat) returns (k: Option<nat>, reserved: nat)
      requires IsContent(content) && start < |content|
      ensures var s := content[start..|content| - 1];
        k == Close(s, 0) && (k.Some? ==> k.value < |s| && reserved == k.value + 1 - Escapes(s, k.value) + 1)
    {
      ghost var s := content[start..|content| - 1];
      var i, skipped := 0, 0;
      while start + i < |content| && content[start + i] != '"'
        invariant start + i <= |content|
        invariant i <= |s| ==> !Skipped(s, i) && skipped == Escapes(s, i) && skipped <= i
        invariant Close(s, i) == Close(s, 0)
      {
        ContentNul(content, start + i);
        if content[start + i] == '\\' {
          if start + i + 1 >= |content| {
            return None, 0;
          }
          if i + 2 <= |s| { EscapesOfTwo(s, i); }
          skipped := skipped + 1;
          i := i + 1;
        }
        i := i + 1;
      }
      if start + i >= |content| {
        return None, 0;
      }
      ContentNul(content, start + i);
      k := Some(i);
      reserved := (i + 1) - skipped + 1;
    }

    /** The second pass: the bytes go into `output`, which is as large as the first pass said. */
    method SecondPass(start: nat, k: nat, output: array<char>) returns (n: Option<nat>)
      requires IsContent(content) && start < |content|
      requires var s := content[start..|content| - 1];
        Close(s, 0) == Some(k) && k < |s| && output.Length == k + 1 - Escapes(s, k) + 1
      modifies output
      ensures n.Some? ==> n.value < output.Length
      ensures Decode(content[start..|content| - 1], 0, k)
           == if n.None? then None else Some(output[..n.value])
    {
      hide NextToken, Prepend, Escapes;
      ghost var s := content[start..|content| - 1];
      CloseIsNotSkipped(s, 0);
      EscapesOfQuote(s, k);
      assert content[start + k] == '"';
      var p: nat, o: nat := 0, 0;
      PrependNothing(Decode(s, 0, k));
      assert output[..0] == "";
      while p < k
        invariant p <= k + 1 && o + Escapes(s, p) <= p && o < output.Length
        invariant Decode(s, 0, k) == Prepend(output[..o], Decode(s, p, k))
      {
        TokenFits(s, p, k);
        ghost var t := NextToken(s, p, k);
        if t.Some? { GapGrows(s, p + t.value.used, k + 1); }
        ghost var done := output[..o];
        var used, written := WriteToken(start, p, k, output, o);
        if used == 0 {
          PrependNone(done);
          return None;
        }
        assert output[..o + written] == output[..o] + output[o..o + written] == done + t.value.bytes;
        PrependTwice(done, t.value.bytes, Decode(s, p + used, k));
        p, o := p + used, o + written;
      }
      PrependToNothing(output[..o]);
      n := Some(o);
    }

    /** One character or escape sequence. */
    method WriteToken(start: nat, p: nat, k: nat, output: array<char>, o: nat) returns (used: nat, written: nat)
      requires IsContent(content) && start + k < |content| - 1 && p < k
      requires o <= output.Length
      requires var t := NextToken(content[start..|content| - 1], p, k);
        t.Some? ==> o + |t.value.bytes| <= output.Length
      modifies output
      ensures output[..o] == old(output[..o])
      ensures var t := NextToken(content[start..|content| - 1], p, k);
        if t.None? then used == 0
        else used == t.value.used > 0 && written == |t.value.bytes| && output[o..o + written] == t.value.bytes
    {
      ghost var s := content[start..|content| - 1];
      var c := content[start + p];
      assert c == s[p];
      if c != '\\' {
        output[o] := c;
        return 1, 1;
      }
      var e := content[start + p + 1];
      assert e == s[p + 1];
      if ShortEscape(e) {
        output[o] := ShortValue(e);
        return 2, 1;
      } else if e == 'u' {
        used, written := Utf16ToUtf8(start, p, k, output, o);
      } else {
        return 0, 0;
      }
    }

    /** `utf16_literal_to_utf8` */
    method Utf16ToUtf8(start: nat, p: nat, k: nat, output: array<char>, o: nat) returns (used: nat, written: nat)
      requires IsContent(content) && start + k < |content| - 1 && p < k
      requires o <= output.Length
      requires var t := Utf16Literal(content[start..|content| - 1], p, k);
        t.Some? ==> o + |t.value.bytes| <= output.Length
      modifies output
      ensures output[..o] == old(output[..o])
      ensures var t := Utf16Literal(content[start..|content| - 1], p, k);
        if t.None? then used == 0
        else used == t.value.used > 0 && written == |t.value.bytes| && output[o..o + written] == t.value.bytes
    {
      ghost var s := content[start..|content| - 1];
      if k - p < 6 {
        return 0, 0;
      }
      var at := start + p;
      assert content[at + 2..at + 6] == s[p + 2..p + 6];
      var first := ParseHex4(content[at + 2..at + 6]);
      if 0xDC00 <= first <= 0xDFFF {
        return 0, 0;
      }
      var codepoint := first;
      used := 6;
      if 0xD800 <= first <= 0xDBFF {
        used := 12;
        if k - p < 12 {
          return 0, 0;
        }
        assert content[at + 6] == s[p + 6] && content[at + 7] == s[p + 7];
        if content[at + 6] != '\\' || content[at + 7] != 'u' {
          return 0, 0;
        }
        assert content[at + 8..at + 12] == s[p + 8..p + 12];
        var second := ParseHex4(content[at + 8..at + 12]);
        if second < 0xDC00 || second > 0xDFFF {
          return 0, 0;
        }
        codepoint := SurrogatePair(first, second);
      }
      written := WriteUtf8(codepoint, output, o);
    }

    // ----- values

    /** Passing a keyword. */
    method Pass(word: string)
      requires Valid() && StartsWith(Left(), word)
      modifies this`offset
      ensures Valid() && offset == old(offset) + |word| && Left() == old(Left())[|word|..]
    {
      Moved(offset, |word|);
      offset := offset + |word|;
    }

    /** `parse_value` */
    method ParseValue() returns (item: Option<Json>)
      requires Valid()
      modifies this
      ensures Valid() && (item.Some? ==> depth == old(depth) && offset > old(offset))
      ensures Outcome(item, ReadValue(old(Left()), old(depth), strtod))
      decreases |content| - offset, 3
    {
      hide ReadItems, ReadMembers, ReadLiteral, ReadNumber, Skip;
      ContentNul(content, offset);
      ghost var s := Left();
      var word := At("null");
      if word {
        Pass("null");
        return Some(Null);
      }
      word := At("false");
      if word {
        Pass("false");
        return Some(False);
      }
      word := At("true");
      if word {
        Pass("true");
        return Some(True);
      }
      if content[offset] == '"' {
        var text := ParseString();
        item := if text.None? then None else Some(String(text.value));
      } else if content[offset] == '-' || '0' <= content[offset] <= '9' {
        item := ParseNumber();
      } else if content[offset] == '[' {
        item := ParseArray();
      } else if content[offset] == '{' {
        item := ParseObject();
      } else {
        item := None;
      }
    }

    /** Behind an opening bracket or brace; at the first item or at the end. */
    method Open()
      requires Valid() && content[offset] != NUL
      modifies this`offset
      ensures Valid() && offset > old(offset) && Left() == Skip(old(Left())[1..])
    {
      ContentNul(content, offset);
      Moved(offset, 1);
      offset := offset + 1;
      SkipWhitespace();
    }

    /** `parse_array` */
    method ParseArray() returns (item: Option<Json>)
      requires Valid() && content[offset] == '['
      modifies this
      ensures Valid() && (item.Some? ==> depth == old(depth) && offset > old(offset))
      ensures Outcome(item, ReadValue(old(Left()), old(depth), strtod))
      decreases |content| - offset, 2
    {
      hide ReadItems, ReadValue, Skip;
      ContentNul(content, offset);
      ReadsByFirst(Left(), depth, strtod);
      if depth >= NESTING_LIMIT {
        return None;
      }
      ArrayReads(Left(), depth, strtod);
      depth := depth + 1;
      Open();
      var items := [];
      var end := At("]");
      if !end {
        offset := offset - 1;
        var r := ParseItems();
        if r.None? {
          return None;
        }
        items := r.value;
      }
      depth := depth - 1;
      Pass("]");
      item := Some(Array(items));
    }

    /** The loop of `parse_array` behind the character at the offset; it stops at the closing bracket. */
    method ParseItems() returns (items: Option<seq<Json>>)
      requires Valid() && offset + 1 < |content|
      modifies this
      ensures Valid()
      ensures items.Some? ==> depth == old(depth) && offset > old(offset) && StartsWith(Left(), "]")
      ensures var r := ReadItems(old(content[offset + 1..|content| - 1]), old(depth), strtod);
        if items.None? then r.Fail? else r == Done(items.value, Left()[1..])
      decreases |content| - offset, 1
    {
      hide ReadItems, ReadValue, Skip;
      ghost var whole := ReadItems(content[offset + 1..|content| - 1], depth, strtod);
      var all: seq<Json> := [];
      var more := true;
      PrependNoItems(whole);
      while more
        invariant Valid() && depth == old(depth) && offset >= old(offset)
        invariant more ==> offset + 1 < |content|
        invariant more ==> PrependItems(all, ReadItems(content[offset + 1..|content| - 1], depth, strtod)) == whole
        invariant !more ==> offset > old(offset)
        invariant !more ==> whole == if StartsWith(Left(), "]") then Done(all, Left()[1..]) else Fail
        decreases more, |content| - offset
      {
        offset := offset + 1;
        ghost var s := Left();
        SkipWhitespace();
        var v := ParseValue();
        if v.None? {
          AfterItem(s, old(depth), strtod, Fail);
          return None;
        }
        AfterItem(s, old(depth), strtod, Done(v.value, Left()));
        SkipWhitespace();
        more := At(",");
        if more { Moved(offset, 1); }
        PrependItem(all, v.value, if more then ReadItems(Left()[1..], depth, strtod) else Done([], Left()));
        all := all + [v.value];
      }
      var end := At("]");
      items := if end then Some(all) else None;
    }

    /** `parse_object` */
    method ParseObject() returns (item: Option<Json>)
      requires Valid() && content[offset] == '{'
      modifies this
      ensures Valid() && (item.Some? ==> depth == old(depth) && offset > old(offset))
      ensures Outcome(item, ReadValue(old(Left()), old(depth), strtod))
      decreases |content| - offset, 2
    {
      hide ReadMembers, ReadValue, Skip;
      ContentNul(content, offset);
      ReadsByFirst(Left(), depth, strtod);
      if depth >= NESTING_LIMIT {
        return None;
      }
      ObjectReads(Left(), depth, strtod);
      depth := depth + 1;
      Open();
      var members := [];
      var end := At("}");
      if !end {
        offset := offset - 1;
        var r := ParseMembers();
        if r.None? {
          return None;
        }
        members := r.value;
      }
      depth := depth - 1;
      Pass("}");
      item := Some(Object(members));
    }

    /** The name of a member and its colon, behind the character at the offset. */
    method ParseKey() returns (key: Option<string>)
      requires Valid()
      modifies this`offset
      ensures Valid() && Outcome(key, ReadKey(old(Left()))) && (key.Some? ==> offset > old(offset))
    {
      hide ReadLiteral, Skip;
      SkipWhitespace();
      key := ParseString();
      if key.None? {
        return;
      }
      SkipWhitespace();
      var colon := At(":");
      if !colon {
        return None;
      }
      Pass(":");
    }

    /** The loop of `parse_object`; it stops at the closing brace. */
    method ParseMembers() returns (members: Option<seq<Member>>)
      requires Valid() && offset + 1 < |content|
      modifies this
      ensures Valid()
      ensures members.Some? ==> depth == old(depth) && offset > old(offset) && StartsWith(Left(), "}")
      ensures var r := ReadMembers(old(content[offset + 1..|content| - 1]), old(depth), strtod);
        if members.None? then r.Fail? else r == Done(members.value, Left()[1..])
      decreases |content| - offset, 1
    {
      hide ReadMembers, ReadValue, ReadKey, Skip;
      ghost var whole := ReadMembers(content[offset + 1..|content| - 1], depth, strtod);
      var all: seq<Member> := [];
      var more := true;
      PrependNoItems(whole);
      while more
        invariant Valid() && depth == old(depth) && offset >= old(offset)
        invariant more ==> offset + 1 < |content|
        invariant more ==> PrependItems(all, ReadMembers(content[offset + 1..|content| - 1], depth, strtod)) == whole
        invariant !more ==> offset > old(offset)
        invariant !more ==> whole == if StartsWith(Left(), "}") then Done(all, Left()[1..]) else Fail
        decreases more, |content| - offset
      {
        offset := offset + 1;
        ghost var s := Left();
        var key := ParseKey();
        if key.None? {
          NoKey(s, depth, strtod);
          return None;
        }
        ghost var rest := Left();
        SkipWhitespace();
        var v := ParseValue();
        if v.None? {
          AfterKey(s, old(depth), strtod, key.value, rest, Fail);
          return None;
        }
        AfterKey(s, old(depth), strtod, key.value, rest, Done(v.value, Left()));
        SkipWhitespace();
        more := At(",");
        if more { Moved(offset, 1); }
        var m := Member(key.value, v.value);
        PrependItem(all, m, if more then ReadMembers(Left()[1..], depth, strtod) else Done([], Left()));
        all := all + [m];
      }
      var end := At("}");
      members := if end then Some(all) else None;
    }
  }

  lemma NoKey(s: string, depth: nat, strtod: Strtod)
    requires ReadKey(s).Fail?
    ensures ReadMembers(s, depth, strtod).Fail?
  {
  }

  ghost function PrependItems<T>(all: seq<T>, r: Parsed<seq<T>>): Parsed<seq<T>> {
    if r.Fail? then Fail else Done(all + r.value, r.rest)
  }

  lemma PrependNoItems<T>(r: Parsed<seq<T>>)
    ensures PrependItems([], r) == r
  {
    if r.Done? { assert [] + r.value == r.value; }
  }

  lemma PrependItem<T>(all: seq<T>, x: T, r: Parsed<seq<T>>)
    ensures PrependItems(all + [x], r) == PrependItems(all, PrependItems([x], r))
  {
    if r.Done? { assert (all + [x]) + r.value == all + ([x] + r.value); }
  }

  /** The encoding loop: the last byte first. */
  method WriteUtf8(codepoint: nat, output: array<char>, o: nat) returns (length: nat)
    requires o + |Utf8(codepoint)| <= output.Length
    modifies output
    ensures length == |Utf8(codepoint)| && output[..o] == old(output[..o])
    ensures output[o..o + length] == Utf8(codepoint)
  {
    length := if codepoint < 0x80 then 1 else if codepoint < 0x800 then 2 else if codepoint < 0x10000 then 3 else 4;
    var cp, position := codepoint, length - 1;
    assert EncodeBytes(cp, length, length) == Utf8(codepoint) && output[o + length..o + length] == [];
    hide Utf8, FirstByte, ContinuationByte;
    while position > 0
      invariant 0 <= position < length && output[..o] == old(output[..o])
      invariant EncodeBytes(cp, position + 1, length) + output[o + position + 1..o + length] == Utf8(codepoint)
    {
      ghost var tail := output[o + position + 1..o + length];
      output[o + position] := ContinuationByte(cp);
      assert output[o + position..o + length] == [ContinuationByte(cp)] + tail;
      cp, position := cp / 0x40, position - 1;
    }
    output[o] := FirstByte(cp, length);
    assert output[o..o + length] == [FirstByte(cp, length)] + output[o + 1..o + length];
  }

  /** `parse_hex4` */
  method ParseHex4(input: string) returns (h: nat)
    requires |input| == 4
    ensures h == Hex4(input)
  {
    h := 0;
    for i := 0 to 4
      invariant forall c <- input[..i] :: IsHex(c)
      invariant h == HexValue(input[..i]) * (if i < 4 then 16 else 1)
    {
      if !IsHex(input[i]) {
        assert input[i] in input;
        return 0;
      }
      assert input[..i + 1][..i] == input[..i];
      h := h + HexDigit(input[i]);
      if i < 3 {
        h := h * 16;
      }
    }
    assert input[..4] == input;
  }

  lemma {:induction false} GapGrows(s: string, i: nat, j: nat)
    requires i <= j <= |s|
    ensures i - Escapes(s, i) <= j - Escapes(s, j)
    decreases j - i
  {
    if i < j {
      GapGrows(s, i, j - 1);
    }
  }

  lemma NulEndsNumber()
    ensures !InNumber(NUL)
  {
  }

  lemma RunGoesOn(s: string, i: nat, limit: nat)
    requires i < |s| && InNumber(s[i]) && limit > 0
    ensures s[..i] + NumberRun(s[i..], limit) == s[..i + 1] + NumberRun(s[i + 1..], limit - 1)
  {
    assert s[i..][1..] == s[i + 1..];
    assert s[..i + 1] == s[..i] + [s[i]];
  }

  lemma RunStops(s: string, i: nat, limit: nat)
    requires i <= |s| && (limit == 0 || i == |s| || !InNumber(s[i]))
    ensures s[..i] + NumberRun(s[i..], limit) == s[..i]
  {
  }

  lemma EscapesOfQuote(s: string, k: nat)
    requires k < |s| && s[k] == '"'
    ensures Escapes(s, k + 1) == Escapes(s, k) <= k && Escapes(s, 0) == 0
  {
    GapGrows(s, 0, k);
  }

  lemma PrependNone(bytes: string)
    ensures Prepend(bytes, None) == None
  {
  }

  lemma PrependToNothing(bytes: string)
    ensures Prepend(bytes, Some("")) == Some(bytes)
  {
    assert bytes + "" == bytes;
  }

  lemma PrependNothing(more: Option<string>)
    ensures Prepend("", more) == more
  {
    if more.Some? {
      assert "" + more.value == more.value;
    }
  }

  lemma PrependTwice(a: string, b: string, more: Option<string>)
    ensures Prepend(a, Prepend(b, more)) == Prepend(a + b, more)
  {
    if more.Some? {
      assert a + (b + more.value) == (a + b) + more.value;
    }
  }

  /** `skip_utf8_bom` */
  method SkipBom(buffer: Parser)
    requires buffer.Valid() && buffer.offset == 0
    modifies buffer`offset
    ensures buffer.Valid() && buffer.Left() == BehindBom(old(buffer.Left()))
  {
    if 4 < |buffer.content| {
      var bom := buffer.At(BOM);
      if bom {
        buffer.Pass(BOM);
      }
    }
  }

  /** Nothing but white space is left. */
  method NothingLeft(buffer: Parser) returns (end: bool)
    requires buffer.Valid()
    modifies buffer`offset
    ensures buffer.Valid() && (end <==> Skip(old(buffer.Left())) == "")
  {
    buffer.SkipWhitespace();
    ContentNul(buffer.content, buffer.offset);
    end := buffer.content[buffer.offset] == NUL;
  }

  /** `cJSON_ParseWithOpts` */
  method ParseWithOpts(text: string, requireEnd: bool, strtod: Strtod) returns (item: Option<Json>)
    requires IsCString(text)
    ensures item == Parse(text, requireEnd, strtod)
  {
    hide ReadValue, Skip, BehindBom, IsContent, IsCString;
    var buffer := new Parser(text, strtod);
    SkipBom(buffer);
    buffer.SkipWhitespace();
    item := buffer.ParseValue();
    if item.Some? && requireEnd {
      var end := NothingLeft(buffer);
      if !end {
        item := None;
      }
    }
  }
}
