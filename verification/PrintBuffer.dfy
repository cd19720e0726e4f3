/** The printer: text goes into a buffer of fixed size or one that grows. */
module PrintBuffer {
  import opened Text
  import opened Sequences
  import opened Json
  import opened StringLiteral
  import opened JsonText
  import Pointer

  const INT_MAX: int := 0x7FFF_FFFF

  predicate NoNul(s: string) {
    NUL !in s
  }

  /** What can be handed to the printer: C strings, and integers of at most 15 digits. */
  predicate Sound(j: Json)
    decreases j
  {
    match j
    case Number(n) => -DECIMAL_LIMIT < n < DECIMAL_LIMIT
    case String(s) => IsCString(s)
    case Array(items) => forall i :: 0 <= i < |items| ==> Sound(items[i])
    case Object(ms) => forall i :: 0 <= i < |ms| ==> IsCString(ms[i].key) && Sound(ms[i].value)
    case _ => true
  }

  /** No invalid item anywhere. */
  predicate Complete(j: Json)
    decreases j
  {
    match j
    case Invalid => false
    case Array(items) => forall i :: 0 <= i < |items| ==> Complete(items[i])
    case Object(ms) => forall i :: 0 <= i < |ms| ==> Complete(ms[i].value)
    case _ => true
  }

  lemma PrintableIsSound(j: Json)
    ensures Printable(j) <==> Sound(j) && Complete(j)
  {
    match j
    case Array(items) => forall i | 0 <= i < |items| { PrintableIsSound(items[i]); }
    case Object(ms) => forall i | 0 <= i < |ms| { PrintableIsSound(ms[i].value); }
    case _ =>
  }

  lemma EscapedHasNoNul(s: string)
    requires IsCString(s)
    ensures NoNul(Escaped(s))
  {
    if s != "" {
      assert s[0] in s && forall c <- s[1..] :: c in s;
      EscapedHasNoNul(s[1..]);
    }
  }

  lemma EscapedMore(s: string, i: nat)
    requires i < |s|
    ensures Escaped(s[i..]) == EscapedChar(s[i]) + Escaped(s[i + 1..])
  {
    assert s[i..][1..] == s[i + 1..];
  }

  lemma {:induction false} NothingToEscape(s: string)
    ensures |Escaped(s)| >= |s| && (|Escaped(s)| == |s| ==> Escaped(s) == s)
  {
    if s != "" {
      NothingToEscape(s[1..]);
    }
  }

  lemma PrintedNumberHasNoNul(n: int)
    ensures NoNul(PrintedNumber(n))
  {
    Pointer.DecimalDigits(if n < 0 then -n else n);
  }

  lemma ItemsMore(items: seq<Json>, i: nat, depth: nat, format: bool)
    requires i < |items|
    ensures PrintedItems(items[i..], depth, format)
         == (Printed(items[i], depth, format) + ItemEnd(i + 1 == |items|, format))
            + PrintedItems(items[i + 1..], depth, format)
  {
    hide Printed;
    assert items[i..][1..] == items[i + 1..];
  }

  lemma MemberStartParts(key: string, depth: nat, format: bool)
    ensures MemberStart(key, depth, format)
         == (if format then Tabs(depth) else "") + PrintedString(key) + (if format then ":\t" else ":")
    ensures |Tabs(depth)| == depth
  {
  }

  lemma NoItemsPrinted(depth: nat, format: bool)
    ensures PrintedItems([], depth, format) == "]"
  {
  }

  lemma NoMembersPrinted(depth: nat, format: bool)
    ensures PrintedMembers([], depth, format) == ObjectClosing(depth, format)
  {
  }

  lemma MembersTextNotEmpty(ms: seq<Member>, depth: nat, format: bool)
    ensures PrintedMembers(ms, depth, format) != ""
  {
  }

  function PrintedMember(m: Member, last: bool, depth: nat, format: bool): string {
    MemberStart(m.key, depth, format) + (Printed(m.value, depth, format) + MemberEnd(last, format))
  }

  lemma MembersMore(ms: seq<Member>, i: nat, depth: nat, format: bool)
    requires i < |ms|
    ensures PrintedMembers(ms[i..], depth, format)
         == PrintedMember(ms[i], i + 1 == |ms|, depth, format) + PrintedMembers(ms[i + 1..], depth, format)
  {
    hide Printed, MemberStart;
    assert ms[i..][1..] == ms[i + 1..];
  }

  /** The first loop of `print_string_ptr`. */
  method CountEscapes(s: string) returns (escapes: nat)
    requires IsCString(s)
    ensures |s| + escapes == |Escaped(s)|
  {
    escapes := 0;
    for i := 0 to |s|
      invariant i + escapes + |Escaped(s[i..])| == |Escaped(s)|
    {
      EscapedMore(s, i);
      if s[i] == '"' || s[i] == '\\' || s[i] == BACKSPACE || s[i] == FORM_FEED
         || s[i] == '\n' || s[i] == '\r' || s[i] == '\t' {
        escapes := escapes + 1;
      } else if s[i] as int < 32 {
        escapes := escapes + 5;
      }
    }
    assert s[|s|..] == "";
  }

  class Printer {
    var buffer: array<char>
    var offset: nat
    var depth: nat
    const noalloc: bool
    const format: bool

    /** The source keeps `length` next to the buffer; here it is the array's own. */
    ghost predicate Valid()
      reads this`buffer, this`offset
    {
      && buffer.Length <= INT_MAX
      && (buffer.Length > 0 ==> offset < buffer.Length)
      && (buffer.Length == 0 ==> offset == 0)
    }

    constructor (buffer: array<char>, noalloc: bool, format: bool)
      requires buffer.Length <= INT_MAX
      ensures Valid() && this.buffer == buffer && offset == 0 && depth == 0
      ensures this.noalloc == noalloc && this.format == format
    {
      this.buffer, this.noalloc, this.format := buffer, noalloc, format;
      offset, depth := 0, 0;
    }

    /** How far the text and two more bytes may reach. */
    ghost function Limit(): int
      reads this`buffer
    {
      if noalloc then buffer.Length else INT_MAX
    }

    /** What has been written up to the offset. */
    ghost function Written(): string
      requires offset <= buffer.Length
      reads this`buffer, this`offset, buffer
    {
      buffer[..offset]
    }

    /** The buffer is the old one, or a new one where that is allowed. */
    twostate predicate Kept()
      reads this`buffer
    {
      buffer == old(buffer) || (fresh(buffer) && !noalloc)
    }

    /** `ensure`: room for `needed` bytes and one more behind the offset. */
    method Ensure(needed: nat) returns (ok: bool)
      requires Valid()
      modifies this`buffer
      ensures Valid() && Kept()
      ensures ok <==> old(offset + needed + 1 <= Limit())
      ensures ok ==> offset + needed + 1 <= buffer.Length && Written() == old(Written())
      ensures !ok ==> buffer == old(buffer)
    {
      if buffer.Length > 0 && offset >= buffer.Length {
        return false;
      }
      if needed > INT_MAX {
        return false;
      }
      var total := needed + offset + 1;
      if total <= buffer.Length {
        return true;
      }
      if noalloc {
        return false;
      }
      var size := total * 2;
      if total > INT_MAX / 2 {
        if total > INT_MAX {
          return false;
        }
        size := INT_MAX;
      }
      var bigger := new char[size];
      for i := 0 to offset
        invariant buffer == old(buffer) && bigger[..i] == buffer[..i]
      {
        bigger[i] := buffer[i];
      }
      buffer := bigger;
      ok := true;
    }

    /** `s` has been written, with its terminator, and the offset is somewhere in its last part. */
    ghost predicate Holds(s: string)
      reads this`buffer, this`offset, buffer
    {
      && offset <= |s| < buffer.Length
      && buffer[..|s|] == s && buffer[|s|] == NUL
      && NoNul(s[offset..])
    }

    /** `update_offset`: on to the terminator. */
    method UpdateOffset(ghost s: string)
      requires Valid() && Holds(s)
      modifies this`offset
      ensures Valid() && offset == |s| && Written() == s
    {
      assert forall k :: offset <= k < |s| ==> s[k] == s[offset..][k - offset];
      while buffer[offset] != NUL
        invariant old(offset) <= offset <= |s| < buffer.Length
        invariant buffer[..|s|] == s && buffer[|s|] == NUL
        invariant forall k :: offset <= k < |s| ==> s[k] != NUL
        decreases |s| - offset
      {
        offset := offset + 1;
      }
    }

    /** Writing a text at some place. */
    method Store(at: nat, s: string)
      requires at + |s| <= buffer.Length
      modifies buffer
      ensures buffer[..] == old(buffer[..at]) + s + old(buffer[at + |s|..])
    {
      for i := 0 to |s|
        invariant buffer[..] == old(buffer[..at]) + s[..i] + old(buffer[at + i..])
      {
        buffer[at + i] := s[i];
      }
    }

    /** `strcpy` to the offset. */
    method Copy(s: string)
      requires Valid() && offset + |s| < buffer.Length && NoNul(s)
      modifies buffer
      ensures Valid() && Holds(old(Written()) + s)
    {
      Store(offset, s + [NUL]);
      ghost var t := old(Written()) + s;
      assert buffer[..|t|] == t && t[offset..] == s;
    }

    /** Bytes without terminator, and the offset moves behind them. */
    method Put(s: string)
      requires Valid() && offset + |s| < buffer.Length
      modifies this`offset, buffer
      ensures Valid() && Written() == old(Written()) + s && offset == old(offset) + |s|
    {
      Store(offset, s);
      offset := offset + |s|;
    }

    // ----- values

    /** `print_string_ptr` */
    method PrintString(s: string) returns (ok: bool)
      requires Valid() && IsCString(s)
      modifies this`buffer, buffer
      ensures Valid() && Kept()
      ensures ok <==> old(offset) + |PrintedString(s)| + 2 <= old(Limit())
      ensures ok ==> Holds(old(Written()) + PrintedString(s))
    {
      ghost var w := Written();
      var escapes := CountEscapes(s);
      var length := |s| + escapes;
      ok := Ensure(length + 3);
      if !ok {
        return;
      }
      WriteQuoted(s, escapes);
      QuotedHolds(w, s);
    }

    /** The text between the quotes is copied as it is when nothing has to be escaped. */
    method WriteQuoted(s: string, escapes: nat)
      requires Valid() && IsCString(s) && |s| + escapes == |Escaped(s)| && offset + |Escaped(s)| + 3 < buffer.Length
      modifies buffer
      ensures buffer[..offset + |Escaped(s)| + 3] == old(Written()) + "\"" + Escaped(s) + "\"" + [NUL]
    {
      hide Escaped;
      ghost var w := Written();
      var length := |s| + escapes;
      buffer[offset] := '"';
      assert buffer[..offset + 1] == w + "\"";
      if escapes == 0 {
        NothingToEscape(s);
        Store(offset + 1, s);
      } else {
        WriteEscaped(s, offset + 1);
      }
      ghost var before := buffer[..offset + 1 + length];
      assert before == w + "\"" + Escaped(s);
      var at := offset + length + 1;
      Store(at, "\"" + [NUL]);
      assert buffer[..at + 2] == buffer[..][..at + 2] == before + ("\"" + [NUL]);
    }

    lemma QuotedHolds(w: string, s: string)
      requires Valid() && IsCString(s) && offset == |w| && |w| + |Escaped(s)| + 2 < buffer.Length
      requires buffer[..|w| + |Escaped(s)| + 3] == w + "\"" + Escaped(s) + "\"" + [NUL]
      ensures Holds(w + PrintedString(s))
    {
      EscapedHasNoNul(s);
      hide Escaped, IsCString;
      var q := PrintedString(s);
      var t := w + q;
      assert w + "\"" + Escaped(s) + "\"" + [NUL] == t + [NUL];
      assert t[offset..] == q;
      hide PrintedString, Holds;
      EndsInNul(t);
    }

    lemma EndsInNul(t: string)
      requires Valid() && |t| < buffer.Length && offset <= |t| && buffer[..|t| + 1] == t + [NUL]
      requires NoNul(t[offset..])
      ensures Holds(t)
    {
      assert buffer[..|t|] == buffer[..|t| + 1][..|t|] && buffer[|t|] == buffer[..|t| + 1][|t|];
    }

    /** The second loop of `print_string_ptr`. */
    method WriteEscaped(s: string, start: nat)
      requires Valid() && IsCString(s) && start + |Escaped(s)| < buffer.Length
      modifies buffer
      ensures buffer[..start + |Escaped(s)|] == old(buffer[..start]) + Escaped(s)
    {
      hide EscapedChar;
      var p := start;
      assert s[0..] == s;
      for i := 0 to |s|
        invariant p + |Escaped(s[i..])| == start + |Escaped(s)| && start <= p
        invariant buffer[..p] + Escaped(s[i..]) == old(buffer[..start]) + Escaped(s)
      {
        EscapedMore(s, i);
        assert s[i] in s;
        ghost var done := buffer[..p];
        p := WriteChar(s[i], p);
        assert (done + EscapedChar(s[i])) + Escaped(s[i + 1..]) == done + (EscapedChar(s[i]) + Escaped(s[i + 1..]));
      }
      assert s[|s|..] == "" && Escaped("") == "";
    }

    method WriteChar(c: char, p: nat) returns (q: nat)
      requires 0 < c as int < 256 && p + |EscapedChar(c)| < buffer.Length
      modifies buffer
      ensures q == p + |EscapedChar(c)| && buffer[..q] == old(buffer[..p]) + EscapedChar(c)
    {
      q := p;
      if c as int > 31 && c != '"' && c != '\\' {
        buffer[q] := c;
      } else {
        buffer[q] := '\\';
        q := q + 1;
        if c == '\\' {
          buffer[q] := '\\';
        } else if c == '"' {
          buffer[q] := '"';
        } else if c == BACKSPACE {
          buffer[q] := 'b';
        } else if c == FORM_FEED {
          buffer[q] := 'f';
        } else if c == '\n' {
          buffer[q] := 'n';
        } else if c == '\r' {
          buffer[q] := 'r';
        } else if c == '\t' {
          buffer[q] := 't';
        } else {
          Store(q, "u00" + [HexChar(c as int / 16), HexChar(c as int % 16)] + [NUL]);
          q := q + 4;
        }
      }
      q := q + 1;
    }

    /** `print_value` */
    method PrintValue(j: Json) returns (ok: bool)
      requires Valid() && Sound(j)
      modifies this, buffer
      ensures Valid() && Kept()
      ensures ok <==> Complete(j) && old(offset) + |Printed(j, old(depth), format)| + 2 <= old(Limit())
      ensures ok ==> depth == old(depth) && offset >= old(offset)
      ensures ok ==> Holds(old(Written()) + Printed(j, old(depth), format))
      decreases j, 4
    {
      match j
      case Invalid => return false;
      case Null => ok := PrintWord("null");
      case False => ok := PrintWord("false");
      case True => ok := PrintWord("true");
      case Number(n) =>
        PrintedNumberHasNoNul(n);
        ok := PrintWord(PrintedNumber(n));
        if ok {
          UpdateOffset(old(Written()) + PrintedNumber(n));
        }
      case String(s) => ok := PrintString(s);
      case Array(items) => ok := PrintArray(j);
      case Object(ms) => ok := PrintObject(j);
    }

    method PrintWord(s: string) returns (ok: bool)
      requires Valid() && NoNul(s)
      modifies this`buffer, buffer
      ensures Valid() && Kept()
      ensures ok <==> old(offset) + |s| + 2 <= old(Limit())
      ensures ok ==> Holds(old(Written()) + s)
    {
      ok := Ensure(|s| + 1);
      if ok {
        Copy(s);
      }
    }

    /** Room for `needed` bytes, and then the bytes of `s`. */
    method PutWithin(s: string, needed: nat) returns (ok: bool)
      requires Valid() && |s| <= needed
      modifies this, buffer
      ensures Valid() && Kept() && depth == old(depth)
      ensures ok <==> old(offset) + needed + 1 <= old(Limit())
      ensures ok ==> Written() == old(Written()) + s && offset == old(offset) + |s|
    {
      ok := Ensure(needed);
      if ok {
        Put(s);
      }
    }

    /** `print_array` */
    method PrintArray(j: Json) returns (ok: bool)
      requires Valid() && j.Array? && Sound(j)
      modifies this, buffer
      ensures Valid() && Kept()
      ensures ok <==> Complete(j) && old(offset) + |Printed(j, old(depth), format)| + 2 <= old(Limit())
      ensures ok ==> depth == old(depth) && offset >= old(offset)
      ensures ok ==> Holds(old(Written()) + Printed(j, old(depth), format))
      decreases j, 3
    {
      hide Holds, PrintedItems;
      ghost var w, text := Written(), PrintedItems(j.items, depth + 1, format);
      ok := PutWithin("[", 1);
      if !ok {
        return;
      }
      depth := depth + 1;
      ok := PrintItems(j.items);
      if ok {
        depth := depth - 1;
      }
      assert (w + "[") + text == w + ("[" + text);
    }

    /** The loop over the items, and the closing bracket. */
    method PrintItems(items: seq<Json>) returns (ok: bool)
      requires Valid() && forall i :: 0 <= i < |items| ==> Sound(items[i])
      modifies this, buffer
      ensures Valid() && Kept()
      ensures ok <==> ((forall i :: 0 <= i < |items| ==> Complete(items[i]))
        && old(offset) + |PrintedItems(items, old(depth), format)| + 2 <= old(Limit()))
      ensures ok ==> depth == old(depth) && offset >= old(offset)
      ensures ok ==> Holds(old(Written()) + PrintedItems(items, old(depth), format))
      decreases items, 3
    {
      hide Holds, Printed, PrintedItems, Sound, Complete;
      ghost var whole := Written() + PrintedItems(items, depth, format);
      var i := 0;
      assert items[0..] == items;
      while i < |items|
        invariant 0 <= i <= |items|
        invariant Valid() && Kept() && depth == old(depth) && offset >= old(offset)
        invariant Written() + PrintedItems(items[i..], depth, format) == whole
        invariant forall k :: 0 <= k < i ==> Complete(items[k])
      {
        ItemsMore(items, i, depth, format);
        ok := PrintItem(items[i], i + 1 == |items|);
        if !ok {
          return;
        }
        i := i + 1;
      }
      NoItemsPrinted(depth, format);
      assert items[i..] == [];
      ok := PrintWord("]");
    }

    /** An item and the comma behind it. */
    method PrintItem(item: Json, last: bool) returns (ok: bool)
      requires Valid() && Sound(item)
      modifies this, buffer
      ensures Valid() && Kept()
      ensures ok <==> (Complete(item)
        && old(offset) + |Printed(item, old(depth), format) + ItemEnd(last, format)| + 2 <= old(Limit()))
      ensures ok ==> depth == old(depth) && offset >= old(offset)
      ensures ok ==> Written() == old(Written()) + (Printed(item, old(depth), format) + ItemEnd(last, format))
      decreases item, 5
    {
      hide Printed;
      ghost var w, text := Written(), Printed(item, depth, format);
      ok := PrintValue(item);
      if !ok {
        return;
      }
      UpdateOffset(w + text);
      if !last {
        var end := if format then ", " else ",";
        ok := PutWithin(end, |end| + 1);
        assert (w + text) + end == w + (text + end);
      } else {
        assert text + "" == text;
      }
    }

    /** `print_object` */
    method PrintObject(j: Json) returns (ok: bool)
      requires Valid() && j.Object? && Sound(j)
      modifies this, buffer
      ensures Valid() && Kept()
      ensures ok <==> Complete(j) && old(offset) + |Printed(j, old(depth), format)| + 2 <= old(Limit())
      ensures ok ==> depth == old(depth) && offset >= old(offset)
      ensures ok ==> Holds(old(Written()) + Printed(j, old(depth), format))
      decreases j, 3
    {
      hide Holds, PrintedMembers;
      ghost var w, text := Written(), PrintedMembers(j.members, depth + 1, format);
      var opening := if format then "{\n" else "{";
      MembersTextNotEmpty(j.members, depth + 1, format);
      ok := PutWithin(opening, |opening| + 1);
      if !ok {
        return;
      }
      depth := depth + 1;
      ok := PrintMembers(j.members);
      if ok {
        depth := depth - 1;
      }
      assert (w + opening) + text == w + (opening + text);
    }

    /** The loop over the members, and the closing brace. */
    method PrintMembers(ms: seq<Member>) returns (ok: bool)
      requires Valid() && depth > 0 && forall i :: 0 <= i < |ms| ==> IsCString(ms[i].key) && Sound(ms[i].value)
      modifies this, buffer
      ensures Valid() && Kept()
      ensures ok <==> ((forall i :: 0 <= i < |ms| ==> Complete(ms[i].value))
        && old(offset) + |PrintedMembers(ms, old(depth), format)| + 2 <= old(Limit()))
      ensures ok ==> depth == old(depth) && offset >= old(offset)
      ensures ok ==> Holds(old(Written()) + PrintedMembers(ms, old(depth), format))
      decreases ms, 3
    {
      hide Holds, PrintedMember, PrintedMembers, Sound, Complete, IsCString;
      ghost var whole := Written() + PrintedMembers(ms, depth, format);
      var i := 0;
      assert ms[0..] == ms;
      while i < |ms|
        invariant 0 <= i <= |ms|
        invariant Valid() && Kept() && depth == old(depth) && offset >= old(offset)
        invariant Written() + PrintedMembers(ms[i..], depth, format) == whole
        invariant forall k :: 0 <= k < i ==> Complete(ms[k].value)
      {
        MembersMore(ms, i, depth, format);
        ok := PrintMember(ms[i], i + 1 == |ms|);
        if !ok {
          return;
        }
        i := i + 1;
      }
      NoMembersPrinted(depth, format);
      assert ms[i..] == [];
      ok := PrintClosing();
    }

    /** Indentation and the closing brace. */
    method PrintClosing() returns (ok: bool)
      requires Valid() && depth > 0
      modifies this`buffer, buffer
      ensures Valid() && Kept()
      ensures ok <==> old(offset) + |ObjectClosing(depth, format)| + 2 <= old(Limit())
      ensures ok ==> Holds(old(Written()) + ObjectClosing(depth, format))
    {
      ok := Ensure(if format then depth + 1 else 2);
      if ok {
        Copy(if format then Tabs(depth - 1) + "}" else "}");
      }
    }

    /** One member with what is before and behind it. */
    method PrintMember(m: Member, last: bool) returns (ok: bool)
      requires Valid() && IsCString(m.key) && Sound(m.value)
      modifies this, buffer
      ensures Valid() && Kept()
      ensures ok <==> Complete(m.value) && old(offset) + |PrintedMember(m, last, old(depth), format)| + 2 <= old(Limit())
      ensures ok ==> depth == old(depth) && offset >= old(offset)
      ensures ok ==> Written() == old(Written()) + PrintedMember(m, last, old(depth), format)
      decreases m.value, 5
    {
      hide Printed, MemberStart, Holds, IsCString, Sound, Complete;
      ghost var w := Written();
      ghost var start, text := MemberStart(m.key, depth, format), Printed(m.value, depth, format);
      ok := PrintKey(m.key);
      if !ok {
        return;
      }
      ok := PrintValue(m.value);
      if !ok {
        return;
      }
      UpdateOffset((w + start) + text);
      var end := (if last then "" else ",") + (if format then "\n" else "");
      ok := PutWithin(end, |end| + 1);
      assert ((w + start) + text) + end == w + (start + (text + end));
    }

    /** Indentation, key, and colon of a member. */
    method PrintKey(key: string) returns (ok: bool)
      requires Valid() && IsCString(key)
      modifies this, buffer
      ensures Valid() && Kept() && depth == old(depth)
      ensures ok <==> old(offset) + |MemberStart(key, old(depth), format)| + 1 <= old(Limit())
      ensures ok ==> Written() == old(Written()) + MemberStart(key, old(depth), format)
    {
      hide Tabs, PrintedString, MemberStart, Holds, IsCString;
      ghost var w, tabs := Written(), if format then Tabs(depth) else "";
      MemberStartParts(key, depth, format);
      if format {
        ok := PutWithin(Tabs(depth), depth);
        if !ok {
          return;
        }
      }
      ghost var v := Written();
      assert v == w + tabs;
      ok := PrintString(key);
      if !ok {
        return;
      }
      UpdateOffset(v + PrintedString(key));
      var colon := if format then ":\t" else ":";
      ok := PutWithin(colon, |colon|);
      Regroup(w, tabs, PrintedString(key));
      Regroup(w, tabs + PrintedString(key), colon);
    }
  }

  // ----- the entry points

  /** `cJSON_PrintPreallocated`: two bytes more than the text are needed, whatever the text is.  The
      buffer is an array of exactly `len` bytes, so nothing is written past them. */
  method PrintPreallocated(j: Json, buf: array?<char>, len: int, format: bool) returns (ok: bool)
    requires Sound(j) && len <= 0x7FFF_FFFF && (buf != null && len >= 0 ==> buf.Length == len)
    modifies if buf == null then {} else {buf}
    ensures ok <==> buf != null && Complete(j) && len >= |Printed(j, 0, format)| + 2
    ensures ok ==> buf[..|Printed(j, 0, format)| + 1] == Printed(j, 0, format) + [NUL]
  {
    if len < 0 || buf == null {
      return false;
    }
    var p := new Printer(buf, true, format);
    ok := p.PrintValue(j);
    ghost var t := Printed(j, 0, format);
    if ok {
      assert p.Holds([] + t) && [] + t == t;
      assert buf[..|t| + 1] == buf[..|t|] + [buf[|t|]];
    }
  }

  /** `print`, behind `cJSON_Print` and `cJSON_PrintUnformatted`. */
  method Print(j: Json, format: bool) returns (text: Option<string>)
    requires Sound(j)
    ensures text == if Complete(j) && |Printed(j, 0, format)| + 2 <= 0x7FFF_FFFF then Some(Printed(j, 0, format)) else None
  {
    var buffer := new char[256];
    var p := new Printer(buffer, false, format);
    var ok := p.PrintValue(j);
    if !ok {
      return None;
    }
    assert [] + Printed(j, 0, format) == Printed(j, 0, format);
    p.UpdateOffset(Printed(j, 0, format));
    text := Some(p.buffer[..p.offset]);
  }

  /** `cJSON_PrintBuffered`: the buffer itself is returned. */
  method PrintBuffered(j: Json, prebuffer: int, format: bool) returns (buffer: Option<array<char>>)
    requires Sound(j) && prebuffer <= 0x7FFF_FFFF
    ensures buffer.Some? <==> prebuffer >= 0 && Complete(j) && |Printed(j, 0, format)| + 2 <= 0x7FFF_FFFF
    ensures buffer.Some? ==> fresh(buffer.value) && |Printed(j, 0, format)| < buffer.value.Length
    ensures buffer.Some? ==> buffer.value[..|Printed(j, 0, format)| + 1] == Printed(j, 0, format) + [NUL]
  {
    if prebuffer < 0 {
      return None;
    }
    var buf := new char[prebuffer];
    var p := new Printer(buf, false, format);
    var ok := p.PrintValue(j);
    if !ok {
      return None;
    }
    ghost var t := Printed(j, 0, format);
    assert p.Holds([] + t) && [] + t == t;
    assert p.buffer[..|t| + 1] == p.buffer[..|t|] + [p.buffer[|t|]];
    buffer := Some(p.buffer);
  }
}
