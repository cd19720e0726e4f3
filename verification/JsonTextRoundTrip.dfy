/** What is printed is a text of the grammar in the printer's style, so it is read back. */
module JsonTextRoundTrip {
  import opened Text
  import opened Sequences
  import opened Json
  import opened StringLiteral
  import opened JsonText
  import opened JsonGrammar
  import opened JsonReading
  import Pointer

  // ----- strings

  /** The unit that prints a character. */
  function UnitOf(c: char): Unit {
    if c == '"' || c == '\\' then Short(c)
    else if c == BACKSPACE then Short('b') else if c == FORM_FEED then Short('f')
    else if c == '\n' then Short('n') else if c == '\r' then Short('r') else if c == '\t' then Short('t')
    else if c as int < 32 then Code("00" + [HexChar(c as int / 16), HexChar(c as int % 16)])
    else Plain(c)
  }

  function UnitsOf(s: string): seq<Unit> {
    if s == "" then [] else [UnitOf(s[0])] + UnitsOf(s[1..])
  }

  lemma ControlDigits(c: char)
    requires 0 < c as int < 32
    ensures var d := "00" + [HexChar(c as int / 16), HexChar(c as int % 16)];
      FourDigits(d) && CodeUnit(d) == c as int && forall x <- d :: !('A' <= x <= 'F')
  {
    var d := "00" + [HexChar(c as int / 16), HexChar(c as int % 16)];
    assert d == ['0', '0', HexChar(c as int / 16), HexChar(c as int % 16)];
  }

  lemma UnitOfChar(c: char)
    requires 0 < c as int < 256
    ensures UnitText(UnitOf(c)) == EscapedChar(c) && WellFormed(UnitOf(c)) && UnitStyled(UnitOf(c))
  {
    if UnitOf(c).Code? {
      ControlDigits(c);
      hide CodeUnit, HexChar, FourDigits;
    }
  }

  lemma UnitDenotes(c: char)
    requires 0 < c as int < 256
    ensures Denotes(UnitOf(c), [c])
  {
    if UnitOf(c).Code? {
      ControlDigits(c);
      hide CodeUnit, HexChar;
      assert IsUtf8([c], c as int);
    }
  }

  lemma {:induction false} UnitsOfString(s: string)
    requires IsCString(s)
    ensures LiteralText(UnitsOf(s)) == Escaped(s) && forall u <- UnitsOf(s) :: WellFormed(u) && UnitStyled(u)
  {
    hide UnitOf, WellFormed, UnitText, EscapedChar;
    if s != "" {
      assert s[0] in s && forall c <- s[1..] :: c in s;
      UnitOfChar(s[0]);
      UnitsOfString(s[1..]);
    }
  }

  lemma {:induction false} UnitsDenote(s: string)
    requires IsCString(s)
    ensures LiteralDenotes(UnitsOf(s), s)
  {
    hide UnitOf, Denotes;
    if s != "" {
      assert s[0] in s && forall c <- s[1..] :: c in s;
      var us := UnitsOf(s);
      assert us[1..] == UnitsOf(s[1..]) && us[0] == UnitOf(s[0]);
      UnitDenotes(s[0]);
      UnitsDenote(s[1..]);
      DenotesMore(us, [s[0]], s[1..]);
      assert [s[0]] + s[1..] == s;
    }
  }

  /** The characters between the quotation marks of a printed string. */
  function QuoteFor(s: string): Quote {
    Quote(UnitsOf(s), "")
  }

  lemma PrintedQuote(s: string)
    requires IsCString(s)
    ensures QuoteSays(QuoteFor(s), s, true) && QuoteStyled(QuoteFor(s)) && QuoteText(QuoteFor(s)) == PrintedString(s)
  {
    UnitsOfString(s);
    UnitsDenote(s);
    hide UnitsOf, WellFormed, UnitStyled, LiteralDenotes, LiteralText, Escaped;
    assert LiteralText(UnitsOf(s)) + "" == LiteralText(UnitsOf(s));
    assert Escaped(s) + "" == Escaped(s);
  }

  /** A printed string is read back as itself. */
  lemma StringReadsBack(s: string, rest: string)
    requires IsCString(s)
    ensures ReadLiteral(Escaped(s) + "\"" + rest) == Some(Literal(s, rest))
  {
    hide *;
    PrintedQuote(s);
    QuoteIsRead(QuoteFor(s), s, rest);
    BehindQuote(s, rest);
  }

  lemma BehindQuote(s: string, rest: string)
    ensures (PrintedString(s) + rest)[1..] == Escaped(s) + "\"" + rest
  {
    hide Escaped;
  }

  // ----- numbers

  function Pow10(k: nat): nat {
    if k == 0 then 1 else 10 * Pow10(k - 1)
  }

  lemma {:induction false} DecimalLength(n: nat, k: nat)
    requires k >= 1 && n < Pow10(k)
    ensures |Pointer.Decimal(n)| <= k
  {
    if n >= 10 {
      assert Pow10(k) == 10 * Pow10(k - 1);
      assert Pow10(0) == 1 && k != 1;
      DecimalLength(n / 10, k - 1);
    }
  }

  lemma {:induction false} DecimalDenotes(n: nat)
    ensures Digits(Pointer.Decimal(n)) && DigitsValue(Pointer.Decimal(n)) == n
  {
    if n >= 10 {
      var d := Pointer.Decimal(n);
      DecimalDenotes(n / 10);
      assert d[..|d| - 1] == Pointer.Decimal(n / 10);
    } else {
      var d := Pointer.Decimal(n);
      assert d[..0] == "" && DigitsValue(d) == 10 * DigitsValue(d[..0]) + (d[0] as int - 48);
    }
  }

  /** A printed integer of at most 15 digits is a text for that integer, with no zero in front and no sign for
      zero. */
  lemma PrintedNumberDenotes(n: int)
    requires -1_000_000_000_000_000 < n < 1_000_000_000_000_000
    ensures var s := PrintedNumber(n); IntegerText(s) && IntegerValue(s) == n && NumeralStyled(s)
  {
    var m: nat := if n < 0 then -n else n;
    assert Pow10(15) == 1_000_000_000_000_000 by {
      assert Pow10(5) == 100_000;
      assert Pow10(10) == 10_000_000_000;
    }
    DecimalLength(m, 15);
    Pointer.DecimalDigits(m);
    DecimalDenotes(m);
    hide Pointer.Decimal, DigitsValue, Digits;
    DigitFirst(Pointer.Decimal(m));
    if n < 0 { assert ("-" + Pointer.Decimal(m))[1..] == Pointer.Decimal(m); }
  }

  lemma DigitFirst(d: string)
    requires Digits(d) && d != ""
    ensures 48 <= d[0] as int <= 57
  {
    assert d[0] in d;
  }

  lemma NumberReadsBack(n: int, tail: string, strtod: Strtod)
    requires -DECIMAL_LIMIT < n < DECIMAL_LIMIT && ReadsIntegers(strtod) && EndsNumeral(tail)
    ensures ReadNumber(PrintedNumber(n) + tail, strtod) == Done(Number(n), tail)
  {
    var s := PrintedNumber(n);
    PrintedNumberDenotes(n);
    assert forall c <- s :: c == s[0] || c in Unsigned(s);
    RunOfDigits(s, tail, 63);
    assert (s + tail)[|s|..] == tail;
  }

  // ----- the printer's style

  predicate NumeralStyled(s: string) {
    && IntegerText(s) && (s[0] as int == 45 ==> IntegerValue(s) != 0)
    && (Unsigned(s)[0] as int == 48 ==> |Unsigned(s)| == 1)
  }

  /** Only what has to be escaped is, with a letter where there is one, and never the slash; the digits of other
      codes below 32 are in lower case. */
  predicate UnitStyled(u: Unit) {
    match u
    case Plain(c) => c as int >= 32
    case Short(letter) => letter as int != 47
    case Code(digits) =>
      |digits| == 4 && CodeUnit(digits) < 32 && CodeUnit(digits) !in {8, 9, 10, 12, 13}
      && forall x <- digits :: !('A' <= x <= 'F')
    case Pair(_, _) => false
  }

  predicate QuoteStyled(q: Quote) {
    forall u <- q.units :: UnitStyled(u)
  }

  /** A line feed and `n` tabs. */
  predicate NewLine(s: string, n: nat) {
    |s| == n + 1 && s[0] as int == 10 && forall i :: 1 <= i <= n ==> s[i] as int == 9
  }

  predicate IsChar(s: string, code: int) {
    |s| == 1 && s[0] as int == code
  }

  /** Without formatting nothing stands between tokens.  With it, every member has a line of its own, indented by
      its depth, and a tab behind its colon, and a space stands before every element but the first. */
  ghost predicate Styled(t: Syntax, depth: nat, format: bool)
    decreases t
  {
    match t
    case Word(_) => true
    case Numeral(s) => NumeralStyled(s)
    case Quoted(q) => QuoteStyled(q)
    case List(gap, es) => gap == "" && ElementsStyled(es, depth + 1, format, true)
    case Record(gap, fs) =>
      (fs == [] ==> if format then NewLine(gap, depth) else gap == "") && FieldsStyled(fs, depth + 1, format)
  }

  ghost predicate ElementsStyled(es: seq<Element>, depth: nat, format: bool, first: bool)
    decreases es
  {
    es != [] ==>
      && (if first || !format then es[0].before == "" else IsChar(es[0].before, 32)) && es[0].after == ""
      && Styled(es[0].value, depth, format) && ElementsStyled(es[1..], depth, format, false)
  }

  ghost predicate FieldsStyled(fs: seq<Field>, depth: nat, format: bool)
    requires depth > 0
    decreases fs
  {
    fs != [] ==>
      && (if format then NewLine(fs[0].before, depth) else fs[0].before == "")
      && QuoteStyled(fs[0].key) && fs[0].colon == "" && (if format then IsChar(fs[0].space, 9) else fs[0].space == "")
      && Styled(fs[0].value, depth, format)
      && (if format && |fs| == 1 then NewLine(fs[0].after, depth - 1) else fs[0].after == "")
      && FieldsStyled(fs[1..], depth, format)
  }

  // ----- what is printed

  function Line(depth: nat, format: bool): string {
    if format then "\n" + Tabs(depth) else ""
  }

  /** The syntax of a printed value. */
  function LaidOut(j: Json, depth: nat, format: bool): Syntax
    decreases j, 1
  {
    match j
    case Null => Word("null")
    case False => Word("false")
    case True => Word("true")
    case Number(n) => Numeral(PrintedNumber(n))
    case String(s) => Quoted(QuoteFor(s))
    case Array(items) => List("", ElementsFor(items, depth + 1, format, true))
    case Object(ms) => Record(Line(depth, format), FieldsFor(ms, depth + 1, format))
    case Invalid => Word("")
  }

  function ElementsFor(items: seq<Json>, depth: nat, format: bool, first: bool): (es: seq<Element>)
    ensures |es| == |items|
    decreases items, 0
  {
    if items == [] then []
    else [Element(if first || !format then "" else " ", LaidOut(items[0], depth, format), "")]
         + ElementsFor(items[1..], depth, format, false)
  }

  function FieldsFor(ms: seq<Member>, depth: nat, format: bool): (fs: seq<Field>)
    requires depth > 0
    ensures |fs| == |ms|
    decreases ms, 0
  {
    if ms == [] then []
    else [FieldFor(ms[0].key, LaidOut(ms[0].value, depth, format), depth, format, |ms| == 1)]
         + FieldsFor(ms[1..], depth, format)
  }

  function FieldFor(key: string, value: Syntax, depth: nat, format: bool, last: bool): Field
    requires depth > 0
  {
    Field(Line(depth, format), QuoteFor(key), "", if format then "\t" else "", value,
          if last then Line(depth - 1, format) else "")
  }

  lemma LineIsNew(depth: nat, format: bool)
    ensures if format then NewLine(Line(depth, format), depth) else Line(depth, format) == ""
    ensures Gap(Line(depth, format))
  {
  }

  /** The text is the printed one. */
  lemma {:induction false} LaidOutIsPrinted(j: Json, depth: nat, format: bool)
    requires Printable(j)
    ensures Layout(LaidOut(j, depth, format)) == Printed(j, depth, format)
    decreases j, 1
  {
    hide ElementsText, FieldsText, PrintedItems, PrintedMembers, ElementsFor, FieldsFor, PrintedString, PrintedNumber,
      QuoteText;
    match j {
      case String(s) => PrintedQuote(s);
      case Array(items) =>
        if items == [] { NoItems(depth + 1, format); } else { ItemsLaidOut(items, depth + 1, format, true); }
      case Object(ms) =>
        if ms == [] { NoMembers(depth + 1, format); } else { MembersLaidOut(ms, depth + 1, format); }
      case _ =>
    }
  }

  lemma NoItems(depth: nat, format: bool)
    ensures "" + "]" == PrintedItems([], depth, format)
  {
  }

  lemma NoMembers(depth: nat, format: bool)
    requires depth > 0
    ensures "{" + (Line(depth - 1, format) + "}") == ObjectOpening(format) + PrintedMembers([], depth, format)
  {
  }

  lemma {:induction false} ItemsLaidOut(items: seq<Json>, depth: nat, format: bool, first: bool)
    requires items != [] && forall i :: 0 <= i < |items| ==> Printable(items[i])
    ensures ElementsText(ElementsFor(items, depth, format, first))
         == (if first || !format then "" else " ") + PrintedItems(items, depth, format)
    decreases items, 0
  {
    hide *;
    var es := ElementsFor(items, depth, format, first);
    FirstPrintable(items);
    LaidOutIsPrinted(items[0], depth, format);
    ElementsForParts(items, depth, format, first);
    ElementsTextIs(es);
    var value := Printed(items[0], depth, format);
    assert "" + "]" == "]";
    if |items| == 1 {
      OneItem(items, depth, format);
    } else {
      ItemsLaidOut(items[1..], depth, format, false);
      FirstItem(items, depth, format);
      var more := PrintedItems(items[1..], depth, format);
      assert "," + ((if format then " " else "") + more) == (if format then ", " else ",") + more;
      assert "" + ("," + ElementsText(es[1..])) == "," + ElementsText(es[1..]);
    }
  }

  lemma FirstPrintable(items: seq<Json>)
    requires items != [] && forall i :: 0 <= i < |items| ==> Printable(items[i])
    ensures Printable(items[0])
  {
  }

  lemma ElementsForParts(items: seq<Json>, depth: nat, format: bool, first: bool)
    requires items != []
    ensures var es := ElementsFor(items, depth, format, first);
      && es[1..] == ElementsFor(items[1..], depth, format, false)
      && es[0] == Element(if first || !format then "" else " ", LaidOut(items[0], depth, format), "")
  {
    hide LaidOut;
  }

  lemma OneItem(items: seq<Json>, depth: nat, format: bool)
    requires |items| == 1
    ensures PrintedItems(items, depth, format) == Printed(items[0], depth, format) + "]"
  {
    hide Printed;
    assert "" + "]" == "]" && PrintedItems(items[1..], depth, format) == "]";
  }

  lemma FirstItem(items: seq<Json>, depth: nat, format: bool)
    requires |items| > 1
    ensures PrintedItems(items, depth, format)
         == Printed(items[0], depth, format) + ((if format then ", " else ",") + PrintedItems(items[1..], depth, format))
  {
    hide Printed;
  }

  lemma ElementsTextIs(es: seq<Element>)
    requires es != []
    ensures ElementsText(es) == es[0].before
      + (Layout(es[0].value) + (es[0].after + (if |es| == 1 then "]" else "," + ElementsText(es[1..]))))
  {
  }

  lemma {:induction false} MembersLaidOut(ms: seq<Member>, depth: nat, format: bool)
    requires depth > 0 && ms != [] && forall i :: 0 <= i < |ms| ==> IsCString(ms[i].key) && Printable(ms[i].value)
    ensures "{" + FieldsText(FieldsFor(ms, depth, format)) == ObjectOpening(format) + PrintedMembers(ms, depth, format)
    decreases ms, 0
  {
    hide *;
    FieldsForParts(ms, depth, format);
    var fs := FieldsFor(ms, depth, format);
    PrintedQuote(ms[0].key);
    LaidOutIsPrinted(ms[0].value, depth, format);
    FieldsTextIs(fs);
    var quote, value := PrintedString(ms[0].key), Printed(ms[0].value, depth, format);
    if |ms| == 1 {
      LastMember(ms, quote, value, depth, format);
    } else {
      MembersLaidOut(ms[1..], depth, format);
      OtherMember(ms, quote, value, FieldsText(fs[1..]), depth, format);
    }
  }

  lemma FieldsForParts(ms: seq<Member>, depth: nat, format: bool)
    requires depth > 0 && ms != []
    ensures var fs := FieldsFor(ms, depth, format);
      && |fs| == |ms| && fs[1..] == FieldsFor(ms[1..], depth, format)
      && fs[0] == Field(Line(depth, format), QuoteFor(ms[0].key), "", if format then "\t" else "",
                        LaidOut(ms[0].value, depth, format), if |ms| == 1 then Line(depth - 1, format) else "")
  {
    hide Line, LaidOut, QuoteFor;
  }

  /** The last line of an object and the closing brace. */
  lemma LastMember(ms: seq<Member>, quote: string, value: string, depth: nat, format: bool)
    requires depth > 0 && |ms| == 1 && quote == PrintedString(ms[0].key) && value == Printed(ms[0].value, depth, format)
    ensures "{" + (Line(depth, format) + (quote + ("" + (":" + ((if format then "\t" else "")
              + (value + (Line(depth - 1, format) + "}")))))))
         == ObjectOpening(format) + PrintedMembers(ms, depth, format)
  {
    hide PrintedString, Printed;
    assert ms[1..] == [];
    assert PrintedMembers(ms[1..], depth, format) == ObjectClosing(depth, format);
    assert PrintedMembers(ms, depth, format)
        == MemberStart(ms[0].key, depth, format) + (value + (MemberEnd(true, format) + ObjectClosing(depth, format)));
    hide PrintedMembers;
    assert MemberEnd(true, format) + ObjectClosing(depth, format) == Line(depth - 1, format) + "}";
    StartOfLine(ms[0].key, quote, value + (Line(depth - 1, format) + "}"), depth, format);
  }

  lemma StartOfLine(key: string, quote: string, behind: string, depth: nat, format: bool)
    requires quote == PrintedString(key)
    ensures "{" + (Line(depth, format) + (quote + ("" + (":" + ((if format then "\t" else "") + behind)))))
         == ObjectOpening(format) + (MemberStart(key, depth, format) + behind)
  {
    hide PrintedString, Tabs;
    if format {
      assert ":" + ("\t" + behind) == ":\t" + behind;
      assert "{" + (("\n" + Tabs(depth)) + (quote + (":\t" + behind)))
          == "{\n" + ((Tabs(depth) + quote + ":\t") + behind);
    } else {
      assert quote + (":" + behind) == ("" + quote + ":") + behind;
    }
  }

  lemma OtherMember(ms: seq<Member>, quote: string, value: string, more: string, depth: nat, format: bool)
    requires depth > 0 && |ms| > 1 && quote == PrintedString(ms[0].key) && value == Printed(ms[0].value, depth, format)
    requires "{" + more == ObjectOpening(format) + PrintedMembers(ms[1..], depth, format)
    ensures "{" + (Line(depth, format) + (quote + ("" + (":" + ((if format then "\t" else "")
              + (value + ("" + ("," + more))))))))
         == ObjectOpening(format) + PrintedMembers(ms, depth, format)
  {
    hide *;
    FirstMember(ms, depth, format);
    BehindComma(more, PrintedMembers(ms[1..], depth, format), format);
    StartOfLine(ms[0].key, quote, value + ("," + more), depth, format);
    assert "" + ("," + more) == "," + more;
  }

  lemma FirstMember(ms: seq<Member>, depth: nat, format: bool)
    requires |ms| > 1
    ensures PrintedMembers(ms, depth, format) == MemberStart(ms[0].key, depth, format)
      + (Printed(ms[0].value, depth, format) + (MemberEnd(false, format) + PrintedMembers(ms[1..], depth, format)))
  {
    hide Printed, MemberStart, MemberEnd;
  }

  lemma BehindComma(more: string, rest: string, format: bool)
    requires "{" + more == ObjectOpening(format) + rest
    ensures MemberEnd(false, format) + rest == "," + more
  {
    assert more == ("{" + more)[1..] == (if format then "\n" else "") + rest;
  }

  /** It says the value. */
  lemma {:induction false} LaidOutSays(j: Json, depth: nat, format: bool, strtod: Strtod)
    requires Printable(j) && ReadsIntegers(strtod)
    ensures var t := LaidOut(j, depth, format);
      Says(t, j, true, strtod) && Levels(t) == Depth(j) && Styled(t, depth, format)
    decreases j, 1
  {
    hide ElementsFor, FieldsFor, Line, QuoteFor, PrintedNumber, ElementLevels, FieldLevels, IntegerText, IntegerValue,
      Gap, ElementsStyled, FieldsStyled, QuoteSays, QuoteStyled, NumeralStyled, ReadsIntegers, Printable, IsCString,
      TakenFor, NewLine, ItemsDepth, MembersDepth;
    PartsArePrintable(j);
    LineIsNew(depth, format);
    assert Gap("") by { GapIsEmpty(); }
    match j {
      case Number(n) =>
        PrintedNumberDenotes(n);
        IntegerIsNumeral(PrintedNumber(n), true, strtod);
      case String(s) => PrintedQuote(s);
      case Array(items) => ItemsSay(items, depth + 1, format, true, strtod);
      case Object(ms) =>
        MembersSay(ms, depth + 1, format, strtod);
      case _ =>
    }
  }

  lemma PartsArePrintable(j: Json)
    requires Printable(j)
    ensures !j.Invalid? && (j.Number? ==> -DECIMAL_LIMIT < j.n < DECIMAL_LIMIT) && (j.String? ==> IsCString(j.text))
    ensures j.Array? ==> forall i :: 0 <= i < |j.items| ==> Printable(j.items[i])
    ensures j.Object? ==> forall i :: 0 <= i < |j.members| ==> IsCString(j.members[i].key) && Printable(j.members[i].value)
  {
    hide IsCString;
  }

  lemma GapIsEmpty()
    ensures Gap("")
  {
  }

  lemma {:induction false} ItemsSay(items: seq<Json>, depth: nat, format: bool, first: bool, strtod: Strtod)
    requires (forall i :: 0 <= i < |items| ==> Printable(items[i])) && ReadsIntegers(strtod)
    ensures var es := ElementsFor(items, depth, format, first);
      && ElementsSay(es, items, true, strtod) && ElementLevels(es) == ItemsDepth(items)
      && ElementsStyled(es, depth, format, first)
    decreases items, 0
  {
    hide Printable, LaidOut, Says, Levels, Styled, ReadsIntegers, Depth;
    if items != [] {
      LaidOutSays(items[0], depth, format, strtod);
      ItemsSay(items[1..], depth, format, false, strtod);
      var es := ElementsFor(items, depth, format, first);
      assert es[1..] == ElementsFor(items[1..], depth, format, false);
      assert forall i :: 0 < i < |es| ==> es[i] == es[1..][i - 1] && items[i] == items[1..][i - 1];
      hide ElementsFor;
      ItemsDepthMore(items);
    }
  }

  lemma {:induction false} MembersSay(ms: seq<Member>, depth: nat, format: bool, strtod: Strtod)
    requires (forall i :: 0 <= i < |ms| ==> IsCString(ms[i].key) && Printable(ms[i].value)) && ReadsIntegers(strtod)
    requires depth > 0
    ensures var fs := FieldsFor(ms, depth, format);
      && FieldsSay(fs, ms, true, strtod) && FieldLevels(fs) == MembersDepth(ms) && FieldsStyled(fs, depth, format)
    decreases ms, 0
  {
    hide Printable, LaidOut, Says, Levels, Styled, ReadsIntegers, Depth, Line, QuoteFor, QuoteSays, QuoteStyled;
    if ms != [] {
      LaidOutSays(ms[0].value, depth, format, strtod);
      MembersSay(ms[1..], depth, format, strtod);
      PrintedQuote(ms[0].key);
      LineIsNew(depth, format);
      LineIsNew(depth - 1, format);
      FieldsForParts(ms, depth, format);
      var fs := FieldsFor(ms, depth, format);
      assert forall i :: 0 < i < |fs| ==> fs[i] == fs[1..][i - 1] && ms[i] == ms[1..][i - 1];
      hide FieldsFor;
      MembersDepthMore(ms);
    }
  }

  /** What is printed is a text of the value in the printer's style. */
  lemma PrintedIsText(j: Json, depth: nat, format: bool, strtod: Strtod)
    requires Printable(j) && ReadsIntegers(strtod)
    ensures exists t :: Layout(t) == Printed(j, depth, format) && Says(t, j, true, strtod)
                        && Styled(t, depth, format) && Levels(t) == Depth(j)
  {
    LaidOutIsPrinted(j, depth, format);
    LaidOutSays(j, depth, format, strtod);
    hide LaidOut;
    assert Layout(LaidOut(j, depth, format)) == Printed(j, depth, format);
  }

  lemma ItemsDepthMore(items: seq<Json>)
    requires items != []
    ensures ItemsDepth(items) == if Depth(items[0]) < ItemsDepth(items[1..]) then ItemsDepth(items[1..]) else Depth(items[0])
    ensures |items| == 1 ==> ItemsDepth(items) == Depth(items[0])
  {
  }

  /** A printed value is read back as itself, whatever follows, unless it nests too deeply. */
  lemma ValueReadsBack(j: Json, indent: nat, format: bool, depth: nat, strtod: Strtod, tail: string)
    requires Printable(j) && ReadsIntegers(strtod) && EndsNumeral(tail) && depth <= NESTING_LIMIT
    ensures ReadValue(Printed(j, indent, format) + tail, depth, strtod)
         == if depth + Depth(j) <= NESTING_LIMIT then Done(j, tail) else Fail
  {
    hide LaidOut, Printed, ReadValue, ReadsIntegers, Says, Layout, Styled, Levels, Depth;
    LaidOutIsPrinted(j, indent, format);
    LaidOutSays(j, indent, format, strtod);
    ValueIsRead(LaidOut(j, indent, format), j, depth, strtod, tail);
  }

  /** Printing and parsing again gives the same tree, with the members in the same order, exactly when
      it nests at most 1000 levels; deeper trees are printed but refused. */
  lemma PrintedTextParses(j: Json, format: bool, requireEnd: bool, strtod: Strtod)
    requires Printable(j) && ReadsIntegers(strtod)
    ensures Parse(Printed(j, 0, format), requireEnd, strtod) == if Depth(j) <= NESTING_LIMIT then Some(j) else None
  {
    hide LaidOut, Printed, ReadsIntegers, Says, Layout, Styled, Levels, Depth, Parse;
    LaidOutIsPrinted(j, 0, format);
    LaidOutSays(j, 0, format, strtod);
    var t, text := LaidOut(j, 0, format), Printed(j, 0, format);
    assert text == "" + ("" + (text + "")) && "" + "" == "";
    TextIsRead(text, "", "", t, j, "", "", requireEnd, strtod);
  }

  // ----- what the parser accepts

  predicate SmallNumbers(j: Json)
    decreases j
  {
    match j
    case Number(n) => -DECIMAL_LIMIT < n < DECIMAL_LIMIT
    case Array(items) => forall i :: 0 <= i < |items| ==> SmallNumbers(items[i])
    case Object(ms) => forall i :: 0 <= i < |ms| ==> SmallNumbers(ms[i].value)
    case _ => true
  }

  /** What the parser may leave behind: no deeper than the limit, and printable again. */
  predicate Acceptable(j: Json, depth: nat) {
    depth + Depth(j) <= NESTING_LIMIT && (SmallNumbers(j) ==> Printable(j))
  }

  predicate Bytes(s: string) {
    forall c <- s :: c as int < 256
  }

  lemma BytesOfSuffix(s: string, i: nat)
    requires Bytes(s) && i <= |s|
    ensures Bytes(s[i..])
  {
    forall c <- s[i..] ensures c in s {}
  }

  lemma BytesOfSkip(s: string)
    requires Bytes(s)
    ensures Bytes(Skip(s))
  {
    SkipIsSuffix(s);
    BytesOfSuffix(s, |s| - |Skip(s)|);
  }

  lemma TokenBytes(s: string, i: nat, k: nat)
    requires Bytes(s) && i < k < |s| && NextToken(s, i, k).Some?
    ensures Bytes(NextToken(s, i, k).value.bytes)
  {
    hide EncodeBytes;
    if s[i] == '\\' && s[i + 1] == 'u' {
      Hex4Bound(s[i + 2..i + 6]);
      var first := Hex4(s[i + 2..i + 6]);
      if 0xD800 <= first <= 0xDBFF {
        Utf8Bytes(SurrogatePair(first, Hex4(s[i + 8..i + 12])));
      } else {
        Utf8Bytes(first);
      }
    } else {
      assert s[i] in s && s[i + 1] in s;
    }
  }

  lemma Utf8Bytes(cp: nat)
    ensures Bytes(Utf8(cp))
  {
    EncodedBytes(cp, Utf8Length(cp), Utf8Length(cp));
  }

  lemma {:induction false} EncodedBytes(cp: nat, n: nat, length: nat)
    requires n >= 1
    ensures Bytes(EncodeBytes(cp, n, length))
  {
    if n > 1 {
      EncodedBytes(cp / 0x40, n - 1, length);
    }
  }

  lemma {:induction false} DecodedBytes(s: string, i: nat, k: nat)
    requires Bytes(s) && k < |s| && Decode(s, i, k).Some?
    ensures Bytes(Decode(s, i, k).value)
    decreases k - i
  {
    hide NextToken;
    if i < k {
      TokenFits(s, i, k);
      TokenBytes(s, i, k);
      DecodedBytes(s, i + NextToken(s, i, k).value.used, k);
    }
  }

  lemma {:induction false} UntilNulIsCString(s: string)
    requires Bytes(s)
    ensures IsCString(UntilNul(s))
  {
    if s != "" && s[0] != NUL {
      assert s[0] in s;
      BytesOfSuffix(s, 1);
      UntilNulIsCString(s[1..]);
    }
  }

  lemma LiteralIsCString(s: string)
    requires Bytes(s) && ReadLiteral(s).Some?
    ensures IsCString(ReadLiteral(s).value.text) && Bytes(ReadLiteral(s).value.rest)
  {
    var k := Close(s, 0).value;
    DecodedBytes(s, 0, k);
    UntilNulIsCString(Decode(s, 0, k).value);
    BytesOfSuffix(s, k + 1);
  }

  /** Whatever the parser accepts nests at most 1000 levels and has C strings in it. */
  lemma {:induction false} ReadIsAcceptable(s: string, depth: nat, strtod: Strtod)
    requires Bytes(s) && depth <= NESTING_LIMIT && ReadValue(s, depth, strtod).Done?
    ensures var r := ReadValue(s, depth, strtod); Acceptable(r.value, depth) && Bytes(r.rest)
    decreases |s|, 1
  {
    hide ReadItems, ReadMembers, ReadLiteral, NumberRun, Skip;
    if StartsWith(s, "null") {
      BytesOfSuffix(s, 4);
    } else if StartsWith(s, "false") {
      BytesOfSuffix(s, 5);
    } else if StartsWith(s, "true") {
      BytesOfSuffix(s, 4);
    } else if s[0] == '"' {
      BytesOfSuffix(s, 1);
      LiteralIsCString(s[1..]);
    } else if s[0] == '-' || '0' <= s[0] <= '9' {
      BytesOfSuffix(s, strtod(NumberRun(s, 63)).used);
    } else {
      hide ReadValue;
      if s[0] == '[' {
        ArrayIsAcceptable(s, depth, strtod);
      } else {
        ObjectIsAcceptable(s, depth, strtod);
      }
    }
  }

  lemma {:induction false} ArrayIsAcceptable(s: string, depth: nat, strtod: Strtod)
    requires Bytes(s) && s != "" && s[0] == '[' && depth < NESTING_LIMIT && ReadValue(s, depth, strtod).Done?
    ensures var r := ReadValue(s, depth, strtod); Acceptable(r.value, depth) && Bytes(r.rest)
    decreases |s|, 0
  {
    hide ReadItems, ReadValue, Skip;
    var t := Skip(s[1..]);
    BytesOfSuffix(s, 1);
    BytesOfSkip(s[1..]);
    SkipIsSuffix(s[1..]);
    ArrayReads(s, depth, strtod);
    if StartsWith(t, "]") {
      BytesOfSuffix(t, 1);
    } else {
      ItemsAreAcceptable(t, depth + 1, strtod);
    }
  }

  lemma {:induction false} ObjectIsAcceptable(s: string, depth: nat, strtod: Strtod)
    requires Bytes(s) && s != "" && s[0] == '{' && depth < NESTING_LIMIT && ReadValue(s, depth, strtod).Done?
    ensures var r := ReadValue(s, depth, strtod); Acceptable(r.value, depth) && Bytes(r.rest)
    decreases |s|, 0
  {
    hide ReadMembers, ReadValue, Skip;
    var t := Skip(s[1..]);
    BytesOfSuffix(s, 1);
    BytesOfSkip(s[1..]);
    SkipIsSuffix(s[1..]);
    ObjectReads(s, depth, strtod);
    if StartsWith(t, "}") {
      BytesOfSuffix(t, 1);
    } else {
      MembersAreAcceptable(t, depth + 1, strtod);
    }
  }

  lemma {:induction false} ItemsAreAcceptable(s: string, depth: nat, strtod: Strtod)
    requires Bytes(s) && depth <= NESTING_LIMIT && ReadItems(s, depth, strtod).Done?
    ensures var r := ReadItems(s, depth, strtod);
      && Bytes(r.rest) && depth + ItemsDepth(r.value) <= NESTING_LIMIT
      && forall i :: 0 <= i < |r.value| ==> Acceptable(r.value[i], depth)
    decreases |s|, 2
  {
    hide ReadValue, Skip, Depth, Acceptable;
    BytesOfSkip(s);
    SkipIsSuffix(s);
    var v := ReadValue(Skip(s), depth, strtod);
    AfterItem(s, depth, strtod, v);
    ReadIsAcceptable(Skip(s), depth, strtod);
    AcceptableDepth(v.value, depth);
    BytesOfSkip(v.rest);
    SkipIsSuffix(v.rest);
    var t := Skip(v.rest);
    BytesOfSuffix(t, 1);
    var r := ReadItems(s, depth, strtod);
    hide ReadItems;
    ItemsDepthMore(r.value);
    if StartsWith(t, ",") {
      ItemsAreAcceptable(t[1..], depth, strtod);
      assert r.value[1..] == ReadItems(t[1..], depth, strtod).value;
    } else {
      assert r.value == [v.value];
    }
  }

  lemma AcceptableDepth(j: Json, depth: nat)
    requires Acceptable(j, depth)
    ensures depth + Depth(j) <= NESTING_LIMIT
  {
  }

  lemma MembersDepthMore(ms: seq<Member>)
    requires ms != []
    ensures MembersDepth(ms)
         == if Depth(ms[0].value) < MembersDepth(ms[1..]) then MembersDepth(ms[1..]) else Depth(ms[0].value)
    ensures |ms| == 1 ==> MembersDepth(ms) == Depth(ms[0].value)
  {
  }

  lemma {:induction false} MembersAreAcceptable(s: string, depth: nat, strtod: Strtod)
    requires Bytes(s) && depth <= NESTING_LIMIT && ReadMembers(s, depth, strtod).Done?
    ensures var r := ReadMembers(s, depth, strtod);
      && Bytes(r.rest) && depth + MembersDepth(r.value) <= NESTING_LIMIT
      && forall i :: 0 <= i < |r.value| ==> IsCString(r.value[i].key) && Acceptable(r.value[i].value, depth)
    decreases |s|, 2
  {
    hide ReadValue, Skip, Depth, Acceptable, ReadKey, IsCString;
    var k := ReadKey(s);
    KeyIsCString(s);
    BytesOfSkip(k.rest);
    SkipIsSuffix(k.rest);
    var v := ReadValue(Skip(k.rest), depth, strtod);
    AfterKey(s, depth, strtod, k.value, k.rest, v);
    ReadIsAcceptable(Skip(k.rest), depth, strtod);
    AcceptableDepth(v.value, depth);
    BytesOfSkip(v.rest);
    SkipIsSuffix(v.rest);
    var t := Skip(v.rest);
    BytesOfSuffix(t, 1);
    var r := ReadMembers(s, depth, strtod);
    hide ReadMembers;
    MembersDepthMore(r.value);
    if StartsWith(t, ",") {
      MembersAreAcceptable(t[1..], depth, strtod);
      assert r.value[1..] == ReadMembers(t[1..], depth, strtod).value;
    } else {
      assert r.value == [Member(k.value, v.value)];
    }
  }

  lemma KeyIsCString(s: string)
    requires Bytes(s) && ReadKey(s).Done?
    ensures IsCString(ReadKey(s).value) && Bytes(ReadKey(s).rest)
  {
    hide Skip, ReadLiteral;
    var t := Skip(s);
    BytesOfSkip(s);
    BytesOfSuffix(t, 1);
    LiteralIsCString(t[1..]);
    var rest := LiteralRest(t[1..]);
    BytesOfSkip(rest);
    BytesOfSuffix(Skip(rest), 1);
  }

  /** Any accepted text, printed again in either style, is read as the same tree: accepted trees are
      never too deep and always printable, as long as their numbers are integers of 15 digits. */
  lemma ReprintedTextParses(
      text: string, requireEnd: bool, strtod: Strtod, j: Json, format: bool)
    requires Bytes(text) && ReadsIntegers(strtod)
    requires Parse(text, requireEnd, strtod) == Some(j) && SmallNumbers(j)
    ensures Printable(j) && Parse(Printed(j, 0, format), true, strtod) == Some(j)
  {
    hide ReadValue, Printed, Printable, ReadsIntegers;
    var s := if |text| >= 4 && StartsWith(text, BOM) then text[3..] else text;
    if |text| >= 3 { BytesOfSuffix(text, 3); }
    BytesOfSkip(s);
    ReadIsAcceptable(Skip(s), 0, strtod);
    PrintedTextParses(j, format, true, strtod);
  }
}
