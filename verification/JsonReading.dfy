/** The reader against the grammar: it reads every text to what that says, and whatever it reads is a text. */
module JsonReading {
  import opened Text
  import opened Sequences
  import opened Json
  import opened StringLiteral
  import opened JsonText
  import opened JsonGrammar

  // ----- white space

  lemma {:induction false} SkipSpaces(ws: string, s: string)
    requires Gap(ws)
    ensures Skip(ws + s) == Skip(s)
  {
    if ws == "" {
      assert ws + s == s;
    } else {
      assert ws[0] in ws && forall c <- ws[1..] :: c in ws;
      assert (ws + s)[1..] == ws[1..] + s;
      SkipSpaces(ws[1..], s);
    }
  }

  /** The start of a token. */
  predicate NoGap(s: string) {
    s == "" || s[0] as int > 32
  }

  lemma SkipNothing(s: string)
    requires NoGap(s)
    ensures Skip(s) == s
  {
  }

  lemma SkipTo(ws: string, s: string)
    requires Gap(ws) && NoGap(s)
    ensures Skip(ws + s) == s
  {
    SkipSpaces(ws, s);
    SkipNothing(s);
  }

  lemma SkipTwice(s: string)
    ensures Skip(Skip(s)) == Skip(s)
  {
    SkipIsSuffix(s);
  }

  /** What is skipped is a gap, and nothing more could be. */
  lemma {:induction false} Skipped(s: string) returns (gap: string)
    ensures Gap(gap) && s == gap + Skip(s) && NoGap(Skip(s))
  {
    gap := "";
    if s != "" && IsSpace(s[0]) {
      gap := Skipped(s[1..]);
      gap := [s[0]] + gap;
      assert s == [s[0]] + s[1..];
    }
  }

  lemma {:induction false} RunOfDigits(s: string, tail: string, limit: nat)
    requires (forall c <- s :: NumberChar(c)) && |s| <= limit && (EndsNumeral(tail) || |s| == limit)
    ensures NumberRun(s + tail, limit) == s
  {
    if s == "" {
      assert s + tail == tail;
    } else {
      assert s[0] in s && forall c <- s[1..] :: c in s;
      assert (s + tail)[1..] == s[1..] + tail;
      RunOfDigits(s[1..], tail, limit - 1);
    }
  }

  lemma {:induction false} RunIsNumeric(s: string, limit: nat)
    ensures var r := NumberRun(s, limit); |r| <= limit && forall c <- r :: NumberChar(c)
  {
    if !(limit == 0 || s == "" || !InNumber(s[0])) {
      RunIsNumeric(s[1..], limit - 1);
    }
  }

  // ----- every text is read

  /** The outcome of reading something whose deepest part is `need` levels down. */
  function IfShallow<T>(need: nat, value: T, rest: string): Parsed<T> {
    if need <= 1000 then Done(value, rest) else Fail
  }

  /** A number has to be told from what follows it. */
  predicate Apart(t: Syntax, tail: string) {
    t.Numeral? ==> EndsNumeral(tail) || |t.text| == 63
  }

  lemma OtherStart(s: string, p: string)
    requires s != "" && p != "" && s[0] != p[0]
    ensures !StartsWith(s, p)
  {
    if |p| <= |s| {
      assert s[..|p|][0] == s[0];
    }
  }

  lemma WordIsRead(word: string, tail: string, depth: nat, strtod: Strtod)
    requires word == "null" || word == "false" || word == "true"
    ensures ReadValue(word + tail, depth, strtod)
         == Done(if word == "null" then Null else if word == "false" then False else True, tail)
  {
    var s := word + tail;
    assert s[..|word|] == word && s[|word|..] == tail;
    if word != "null" { OtherStart(s, "null"); }
    if word == "true" { OtherStart(s, "false"); }
  }

  lemma NumeralIsRead(s: string, n: int, tail: string, depth: nat, strtod: Strtod)
    requires TakenFor(s, "", n, strtod) && (EndsNumeral(tail) || |s| == 63)
    ensures ReadValue(s + tail, depth, strtod) == Done(Number(n), tail)
  {
    assert s + "" == s;
    RunOfDigits(s, tail, 63);
    assert (s + tail)[|s|..] == tail && (s + tail)[0] == s[0];
    ReadsByFirst(s + tail, depth, strtod);
    hide ReadValue;
  }

  lemma QuoteIsRead(q: Quote, text: string, rest: string)
    requires QuoteSays(q, text, true)
    ensures var s := QuoteText(q) + rest;
      s != "" && s[0] == '"' && ReadLiteral(s[1..]) == Some(Literal(text, rest))
  {
    hide *;
    var l := LiteralText(q.units) + "\"" + rest;
    StrictQuote(q, text);
    LiteralIsRead(q.units, rest);
    LiteralMeansOne(q.units, ReadLiteral(l).value.text, text);
    StrictQuoteText(q, rest);
  }

  lemma StrictQuote(q: Quote, text: string)
    requires QuoteSays(q, text, true)
    ensures (forall u <- q.units :: WellFormed(u)) && LiteralDenotes(q.units, text) && q.cut == ""
  {
    hide WellFormed, LiteralDenotes;
  }

  lemma StrictQuoteText(q: Quote, rest: string)
    requires q.cut == ""
    ensures var s := QuoteText(q) + rest;
      s != "" && s[0] == '"' && s[1..] == LiteralText(q.units) + "\"" + rest
  {
    hide LiteralText;
  }

  /** How the text of a value starts. */
  lemma LayoutStarts(t: Syntax, j: Json, strict: bool, strtod: Strtod)
    requires Says(t, j, strict, strtod)
    ensures var s := Layout(t); s != "" && s[0] as int > 32 && s[0] != ']' && s[0] != '}'
  {
    hide ElementsText, FieldsText, LiteralText;
  }

  lemma StartOfSum(a: string, b: string)
    requires a != ""
    ensures (a + b) != "" && (a + b)[0] == a[0] && (a + b)[1..] == a[1..] + b
  {
  }

  /** Any text is read to what it says, whatever follows, unless it nests too deeply. */
  lemma {:induction false} ValueIsRead(t: Syntax, j: Json, depth: nat, strtod: Strtod, tail: string)
    requires Says(t, j, true, strtod) && Apart(t, tail) && depth <= 1000
    ensures ReadValue(Layout(t) + tail, depth, strtod) == IfShallow(depth + Levels(t), j, tail)
    decreases t, 2
  {
    hide ReadValue, ReadItems, ReadMembers, ReadLiteral, TakenFor, QuoteSays, ElementsText, FieldsText, QuoteText, Skip;
    match t
    case Word(word) => WordIsRead(word, tail, depth, strtod);
    case Numeral(text) => NumeralIsRead(text, j.n, tail, depth, strtod);
    case Quoted(q) =>
      QuoteIsRead(q, j.text, tail);
      ReadsByFirst(Layout(t) + tail, depth, strtod);
    case List(_, _) => ListIsRead(t, j, depth, strtod, tail);
    case Record(_, _) => RecordIsRead(t, j, depth, strtod, tail);
  }

  lemma {:induction false} ListIsRead(t: Syntax, j: Json, depth: nat, strtod: Strtod, tail: string)
    requires t.List? && Says(t, j, true, strtod) && depth <= 1000
    ensures ReadValue(Layout(t) + tail, depth, strtod) == IfShallow(depth + Levels(t), j, tail)
    decreases t, 1
  {
    hide ReadValue, ReadItems, Skip, ElementsText, ElementLevels, Gap;
    var es := t.elements;
    var inner := if es == [] then t.gap + "]" else ElementsText(es);
    var s := Layout(t) + tail;
    assert s == "[" + (inner + tail) && s[0] == '[';
    ReadsByFirst(s, depth, strtod);
    if depth < 1000 {
      ArrayReads(s, depth, strtod);
      assert s[1..] == inner + tail;
      if es == [] {
        assert inner + tail == t.gap + ("]" + tail) && ("]" + tail)[1..] == tail;
        SkipTo(t.gap, "]" + tail);
        NoLevels();
      } else {
        ElementsAreRead(es, j.items, depth + 1, strtod, tail);
        SpacedItems(s[1..], depth + 1, strtod);
        ElementsStart(es, j.items, strtod, tail);
      }
    }
  }

  lemma NoLevels()
    ensures ElementLevels([]) == 0 && FieldLevels([]) == 0
  {
  }

  lemma SpacedItems(s: string, depth: nat, strtod: Strtod)
    ensures ReadItems(Skip(s), depth, strtod) == ReadItems(s, depth, strtod)
  {
    SkipTwice(s);
  }

  lemma SpacedMembers(s: string, depth: nat, strtod: Strtod)
    ensures ReadMembers(Skip(s), depth, strtod) == ReadMembers(s, depth, strtod)
  {
    SkipTwice(s);
    assert ReadKey(Skip(s)) == ReadKey(s);
  }

  ghost predicate ElementsSay(es: seq<Element>, items: seq<Json>, strict: bool, strtod: Strtod) {
    && |es| == |items|
    && forall i :: 0 <= i < |es| ==>
         Gap(es[i].before) && Says(es[i].value, items[i], strict, strtod) && Gap(es[i].after)
  }

  /** What stands behind the first element. */
  function BehindElement(es: seq<Element>, tail: string): string
    requires es != []
  {
    if |es| == 1 then "]" + tail else "," + (ElementsText(es[1..]) + tail)
  }

  lemma ElementsUnfold(es: seq<Element>, tail: string)
    requires es != []
    ensures ElementsText(es) + tail
         == es[0].before + (Layout(es[0].value) + (es[0].after + BehindElement(es, tail)))
  {
    hide Layout;
    var end := if |es| == 1 then "]" else "," + ElementsText(es[1..]);
    assert end + tail == BehindElement(es, tail);
    assert ElementsText(es) == es[0].before + (Layout(es[0].value) + (es[0].after + end));
    hide ElementsText, BehindElement;
    Regroup(es[0].before, Layout(es[0].value) + (es[0].after + end), tail);
    Regroup(Layout(es[0].value), es[0].after + end, tail);
    Regroup(es[0].after, end, tail);
  }

  lemma BehindStarts(es: seq<Element>, tail: string)
    requires es != []
    ensures var b := BehindElement(es, tail);
      && NoGap(b) && EndsNumeral(b)
      && (StartsWith(b, ",") <==> |es| > 1) && (StartsWith(b, "]") <==> |es| == 1)
      && (|es| == 1 ==> b[1..] == tail) && (|es| > 1 ==> b[1..] == ElementsText(es[1..]) + tail)
  {
    hide ElementsText;
  }

  lemma GapEndsNumeral(gap: string, b: string)
    requires Gap(gap) && EndsNumeral(b)
    ensures EndsNumeral(gap + b)
  {
    if gap != "" { assert gap[0] in gap; } else { assert gap + b == b; }
  }

  lemma ElementsStart(es: seq<Element>, items: seq<Json>, strtod: Strtod, tail: string)
    requires es != [] && ElementsSay(es, items, true, strtod)
    ensures !StartsWith(Skip(ElementsText(es) + tail), "]")
  {
    hide Layout, ElementsText, BehindElement, Says, Skip;
    ElementsUnfold(es, tail);
    LayoutStarts(es[0].value, items[0], true, strtod);
    SkipTo(es[0].before, Layout(es[0].value) + (es[0].after + BehindElement(es, tail)));
  }

  lemma ElementsParts(es: seq<Element>, items: seq<Json>, strict: bool, strtod: Strtod)
    requires es != [] && ElementsSay(es, items, strict, strtod)
    ensures Gap(es[0].before) && Says(es[0].value, items[0], strict, strtod) && Gap(es[0].after)
    ensures ElementsSay(es[1..], items[1..], strict, strtod)
    ensures ElementLevels(es) == Max(Levels(es[0].value), ElementLevels(es[1..]))
    ensures |es| == |items| && items == [items[0]] + items[1..]
    ensures |es| == 1 ==> items == [items[0]] && ElementLevels(es[1..]) == 0
  {
    hide Says, Gap, Levels;
  }

  lemma {:induction false} ElementsAreRead(es: seq<Element>, items: seq<Json>, depth: nat, strtod: Strtod, tail: string)
    requires es != [] && |es| == |items| && ElementsSay(es, items, true, strtod) && depth <= 1000
    ensures ReadItems(ElementsText(es) + tail, depth, strtod) == IfShallow(depth + ElementLevels(es), items, tail)
    decreases es
  {
    hide *;
    var t, j := es[0].value, items[0];
    var s, behind := ElementsText(es) + tail, BehindElement(es, tail);
    ElementsParts(es, items, true, strtod);
    ElementsUnfold(es, tail);
    LayoutStarts(t, j, true, strtod);
    StartOfSum(Layout(t), es[0].after + behind);
    NoGapIs(Layout(t) + (es[0].after + behind));
    SkipTo(es[0].before, Layout(t) + (es[0].after + behind));
    BehindStarts(es, tail);
    GapEndsNumeral(es[0].after, behind);
    ApartIs(t, es[0].after + behind);
    ValueIsRead(t, j, depth, strtod, es[0].after + behind);
    SkipTo(es[0].after, behind);
    Shallow(depth + Levels(t), j, es[0].after + behind);
    MaxIs(Levels(t), ElementLevels(es[1..]));
    Shallow(depth + ElementLevels(es), items, tail);
    AfterItem(s, depth, strtod, IfShallow(depth + Levels(t), j, es[0].after + behind));
    if |es| > 1 {
      ElementsAreRead(es[1..], items[1..], depth, strtod, tail);
      Shallow(depth + ElementLevels(es[1..]), items[1..], tail);
    }
  }

  lemma NoGapIs(s: string)
    ensures NoGap(s) <==> s == "" || s[0] as int > 32
  {
  }

  lemma ApartIs(t: Syntax, tail: string)
    requires EndsNumeral(tail)
    ensures Apart(t, tail)
  {
  }

  lemma Shallow<T>(need: nat, value: T, rest: string)
    ensures IfShallow(need, value, rest) == if need <= 1000 then Done(value, rest) else Fail
  {
  }

  lemma MaxIs(a: nat, b: nat)
    ensures Max(a, b) == if a < b then b else a
  {
  }

  // ----- objects

  lemma {:induction false} RecordIsRead(t: Syntax, j: Json, depth: nat, strtod: Strtod, tail: string)
    requires t.Record? && Says(t, j, true, strtod) && depth <= 1000
    ensures ReadValue(Layout(t) + tail, depth, strtod) == IfShallow(depth + Levels(t), j, tail)
    decreases t, 1
  {
    hide ReadValue, ReadMembers, Skip, FieldsText, FieldLevels, Gap, QuoteSays;
    var fs := t.fields;
    var inner := if fs == [] then t.gap + "}" else FieldsText(fs);
    var s := Layout(t) + tail;
    assert s == "{" + (inner + tail) && s[0] == '{';
    ReadsByFirst(s, depth, strtod);
    if depth < 1000 {
      ObjectReads(s, depth, strtod);
      assert s[1..] == inner + tail;
      if fs == [] {
        assert inner + tail == t.gap + ("}" + tail) && ("}" + tail)[1..] == tail;
        SkipTo(t.gap, "}" + tail);
        NoLevels();
      } else {
        FieldsAreRead(fs, j.members, depth + 1, strtod, tail);
        SpacedMembers(s[1..], depth + 1, strtod);
        FieldsStart(fs, j.members, strtod, tail);
      }
    }
  }

  ghost predicate FieldsSay(fs: seq<Field>, ms: seq<Member>, strict: bool, strtod: Strtod) {
    && |fs| == |ms|
    && forall i :: 0 <= i < |fs| ==>
         && Gap(fs[i].before) && QuoteSays(fs[i].key, ms[i].key, strict) && Gap(fs[i].colon)
         && Gap(fs[i].space) && Says(fs[i].value, ms[i].value, strict, strtod) && Gap(fs[i].after)
  }

  /** What stands behind the first member. */
  function BehindField(fs: seq<Field>, tail: string): string
    requires fs != []
  {
    if |fs| == 1 then "}" + tail else "," + (FieldsText(fs[1..]) + tail)
  }

  /** What stands behind its colon. */
  function BehindColon(fs: seq<Field>, tail: string): string
    requires fs != []
  {
    fs[0].space + (Layout(fs[0].value) + (fs[0].after + BehindField(fs, tail)))
  }

  lemma FieldsUnfold(fs: seq<Field>, tail: string)
    requires fs != []
    ensures FieldsText(fs) + tail
         == fs[0].before + (QuoteText(fs[0].key) + (fs[0].colon + (":" + BehindColon(fs, tail))))
  {
    var f, end := fs[0], if |fs| == 1 then "}" else "," + FieldsText(fs[1..]);
    FieldsTextIs(fs);
    EndOfField(fs, tail);
    BehindColonIs(fs, tail);
    hide *;
    var v := f.space + (Layout(f.value) + (f.after + end));
    Regroup(f.before, QuoteText(f.key) + (f.colon + (":" + v)), tail);
    Regroup(QuoteText(f.key), f.colon + (":" + v), tail);
    Regroup(f.colon, ":" + v, tail);
    Regroup(":", v, tail);
    Regroup(f.space, Layout(f.value) + (f.after + end), tail);
    Regroup(Layout(f.value), f.after + end, tail);
    Regroup(f.after, end, tail);
  }

  lemma FieldsTextIs(fs: seq<Field>)
    requires fs != []
    ensures var f, end := fs[0], if |fs| == 1 then "}" else "," + FieldsText(fs[1..]);
      FieldsText(fs) == f.before + (QuoteText(f.key) + (f.colon + (":" + (f.space + (Layout(f.value) + (f.after + end))))))
  {
    hide Layout, QuoteText;
  }

  lemma EndOfField(fs: seq<Field>, tail: string)
    requires fs != []
    ensures (if |fs| == 1 then "}" else "," + FieldsText(fs[1..])) + tail == BehindField(fs, tail)
  {
    hide FieldsText;
  }

  lemma BehindFieldStarts(fs: seq<Field>, tail: string)
    requires fs != []
    ensures var b := BehindField(fs, tail);
      && NoGap(b) && EndsNumeral(b)
      && (StartsWith(b, ",") <==> |fs| > 1) && (StartsWith(b, "}") <==> |fs| == 1)
      && (|fs| == 1 ==> b[1..] == tail) && (|fs| > 1 ==> b[1..] == FieldsText(fs[1..]) + tail)
  {
    hide FieldsText;
  }

  lemma QuoteStarts(q: Quote, rest: string)
    ensures var s := QuoteText(q) + rest;
      s != "" && s[0] == '"' && NoGap(s) && StartsWith(s, "\"") && !StartsWith(s, "}") && !StartsWith(s, ":")
  {
    hide LiteralText;
    var s := QuoteText(q) + rest;
    assert s[..1] == "\"";
  }

  lemma FieldsStart(fs: seq<Field>, ms: seq<Member>, strtod: Strtod, tail: string)
    requires fs != [] && FieldsSay(fs, ms, true, strtod)
    ensures !StartsWith(Skip(FieldsText(fs) + tail), "}")
  {
    hide *;
    FieldsParts(fs, ms, true, strtod);
    FieldsUnfold(fs, tail);
    var rest := fs[0].colon + (":" + BehindColon(fs, tail));
    QuoteStarts(fs[0].key, rest);
    SkipTo(fs[0].before, QuoteText(fs[0].key) + rest);
  }

  lemma FieldsParts(fs: seq<Field>, ms: seq<Member>, strict: bool, strtod: Strtod)
    requires fs != [] && FieldsSay(fs, ms, strict, strtod)
    ensures Gap(fs[0].before) && QuoteSays(fs[0].key, ms[0].key, strict) && Gap(fs[0].colon)
    ensures Gap(fs[0].space) && Says(fs[0].value, ms[0].value, strict, strtod) && Gap(fs[0].after)
    ensures FieldsSay(fs[1..], ms[1..], strict, strtod)
    ensures FieldLevels(fs) == Max(Levels(fs[0].value), FieldLevels(fs[1..]))
    ensures |fs| == |ms| && ms == [Member(ms[0].key, ms[0].value)] + ms[1..]
    ensures |fs| == 1 ==> ms == [Member(ms[0].key, ms[0].value)] && FieldLevels(fs[1..]) == 0
  {
    hide Says, Gap, Levels, QuoteSays;
  }

  /** A key with its colon and the white space around both. */
  lemma KeyIsRead(before: string, q: Quote, key: string, colon: string, rest: string)
    requires Gap(before) && QuoteSays(q, key, true) && Gap(colon)
    ensures ReadKey(before + (QuoteText(q) + (colon + (":" + rest)))) == Done(key, rest)
  {
    var t, end := QuoteText(q) + (colon + (":" + rest)), ":" + rest;
    QuoteIsRead(q, key, colon + end);
    QuoteStarts(q, colon + end);
    SkipTo(before, t);
    SkipTo(colon, end);
    hide QuoteText, QuoteSays, Gap, Skip, ReadLiteral;
    assert StartsWith(end, ":") && end[1..] == rest;
  }

  lemma {:induction false} FieldsAreRead(fs: seq<Field>, ms: seq<Member>, depth: nat, strtod: Strtod, tail: string)
    requires fs != [] && |fs| == |ms| && FieldsSay(fs, ms, true, strtod) && depth <= 1000
    ensures ReadMembers(FieldsText(fs) + tail, depth, strtod) == IfShallow(depth + FieldLevels(fs), ms, tail)
    decreases fs
  {
    hide *;
    var f, t, j := fs[0], fs[0].value, ms[0].value;
    var s, behind := FieldsText(fs) + tail, BehindField(fs, tail);
    FieldsParts(fs, ms, true, strtod);
    FieldsUnfold(fs, tail);
    KeyIsRead(f.before, f.key, ms[0].key, f.colon, BehindColon(fs, tail));
    BehindColonIs(fs, tail);
    LayoutStarts(t, j, true, strtod);
    StartOfSum(Layout(t), f.after + behind);
    NoGapIs(Layout(t) + (f.after + behind));
    SkipTo(f.space, Layout(t) + (f.after + behind));
    BehindFieldStarts(fs, tail);
    GapEndsNumeral(f.after, behind);
    ApartIs(t, f.after + behind);
    ValueIsRead(t, j, depth, strtod, f.after + behind);
    SkipTo(f.after, behind);
    Shallow(depth + Levels(t), j, f.after + behind);
    MaxIs(Levels(t), FieldLevels(fs[1..]));
    Shallow(depth + FieldLevels(fs), ms, tail);
    AfterKey(s, depth, strtod, ms[0].key, BehindColon(fs, tail), IfShallow(depth + Levels(t), j, f.after + behind));
    if |fs| > 1 {
      FieldsAreRead(fs[1..], ms[1..], depth, strtod, tail);
      Shallow(depth + FieldLevels(fs[1..]), ms[1..], tail);
    }
  }

  lemma BehindColonIs(fs: seq<Field>, tail: string)
    requires fs != []
    ensures BehindColon(fs, tail) == fs[0].space + (Layout(fs[0].value) + (fs[0].after + BehindField(fs, tail)))
  {
  }

  // ----- whole texts

  /** Every text of a value, behind an optional byte order mark and white space, is parsed to what it says if it nests
      at most 1000 levels; what stands behind its white space is refused exactly if nothing may stand there. */
  lemma TextIsRead(
      text: string, mark: string, before: string, t: Syntax, j: Json, after: string, rest: string,
      requireEnd: bool, strtod: Strtod)
    requires Says(t, j, true, strtod) && Opens(text, mark, before, t, after + rest)
    requires Gap(after) && NoGap(rest) && Apart(t, after + rest)
    ensures Parse(text, requireEnd, strtod) == if Levels(t) <= 1000 && (requireEnd ==> rest == "") then Some(j) else None
  {
    hide Says, Layout, Skip, ReadValue, Apart, Gap;
    MarkIsPassed(text, mark, before, t, j, after + rest, strtod);
    ValueIsRead(t, j, 0, strtod, after + rest);
    SkipTo(after, rest);
  }

  lemma MarkIsPassed(text: string, mark: string, before: string, t: Syntax, j: Json, behind: string, strtod: Strtod)
    requires Says(t, j, true, strtod) && Opens(text, mark, before, t, behind)
    ensures Skip(BehindBom(text)) == Layout(t) + behind
  {
    hide Layout, Skip, Says;
    var s := before + (Layout(t) + behind);
    LayoutStarts(t, j, true, strtod);
    SayAscii(t, j, strtod);
    SkipTo(before, Layout(t) + behind);
    if mark == "" {
      assert text == s;
      if before != "" { assert before[0] in before && s[0] == before[0]; } else { assert s[0] == Layout(t)[0]; }
      OtherStart(s, BOM);
    } else {
      assert text[..3] == mark && mark == BOM && text[3..] == s && |s| > 0;
    }
  }

  /** No value starts like the mark. */
  lemma SayAscii(t: Syntax, j: Json, strtod: Strtod)
    requires Says(t, j, true, strtod)
    ensures Layout(t) != "" && (Layout(t)[0] as int) < 128
  {
    hide ElementsText, FieldsText, LiteralText;
  }

  // ----- whatever is read is a text

  lemma PrefixOf(s: string, p: string)
    requires StartsWith(s, p)
    ensures s == p + s[|p|..]
  {
  }

  /** What `ReadValue` took was the text of the value that it returned. */
  lemma {:induction false} ReadIsText(s: string, depth: nat, strtod: Strtod) returns (t: Syntax)
    requires ReadValue(s, depth, strtod).Done? && depth <= 1000
    ensures var r := ReadValue(s, depth, strtod);
      Says(t, r.value, false, strtod) && s == Layout(t) + r.rest && depth + Levels(t) <= 1000
    decreases |s|, 1
  {
    hide ReadItems, ReadMembers, ReadLiteral, NumberRun, Skip, TakenFor, QuoteSays;
    if StartsWith(s, "null") {
      PrefixOf(s, "null");
      t := Word("null");
    } else if StartsWith(s, "false") {
      PrefixOf(s, "false");
      t := Word("false");
    } else if StartsWith(s, "true") {
      PrefixOf(s, "true");
      t := Word("true");
    } else if s[0] == '"' {
      var q := QuoteOf(s);
      t := Quoted(q);
    } else if s[0] == '-' || '0' <= s[0] <= '9' {
      t := NumeralOf(s, depth, strtod);
    } else if s[0] == '[' {
      t := ListOf(s, depth, strtod);
    } else {
      OnlyBrace(s, depth, strtod);
      t := RecordOf(s, depth, strtod);
    }
  }

  lemma NumeralOf(s: string, depth: nat, strtod: Strtod) returns (t: Syntax)
    requires s != "" && (s[0] == '-' || '0' <= s[0] <= '9') && ReadNumber(s, strtod).Done?
    ensures var r := ReadNumber(s, strtod);
      Says(t, r.value, false, strtod) && s == Layout(t) + r.rest && Levels(t) == 0
  {
    hide NumberRun;
    var run := NumberRun(s, 63);
    RunIsNumeric(s, 63);
    var used, n := strtod(run).used, strtod(run).n;
    RunSplits(s, run, used);
    assert TakenFor(s[..used], run[used..], n, strtod);
    t := Numeral(s[..used]);
    assert Says(t, Number(n), false, strtod);
  }

  lemma RunSplits(s: string, run: string, used: nat)
    requires |run| <= |s| && run == s[..|run|] && 0 < used <= |run|
    ensures s[..used] + run[used..] == run && s == s[..used] + s[used..] && s[..used][0] == s[0]
  {
  }

  lemma QuoteOf(s: string) returns (q: Quote)
    requires s != "" && s[0] == '"' && ReadLiteral(s[1..]).Some?
    ensures var l := ReadLiteral(s[1..]).value; QuoteSays(q, l.text, false) && s == QuoteText(q) + l.rest
  {
    hide *;
    var u := s[1..];
    AcceptedIsDecoded(u);
    var k := Close(u, 0).value;
    var us, n := CleanPrefix(u, 0, k);
    ReadUpToDenotes(u, 0, k, us, n);
    ReadUpToWhole(u, k, us, n);
    UncleanAt(u, k, us, n);
    q := Quote(us, u[n..k]);
    QuoteSaysCut(us, u[n..k], ReadLiteral(u).value.text);
    LiteralRestIs(u);
    WholeQuote(s, us, n, k);
  }

  lemma QuoteSaysCut(us: seq<Unit>, cut: string, text: string)
    requires (forall u <- us :: WellFormed(u)) && LiteralDenotes(us, text) && CutOff(cut)
    ensures QuoteSays(Quote(us, cut), text, false)
  {
    hide WellFormed, LiteralDenotes, CutOff;
  }

  lemma LiteralRestIs(u: string)
    requires ReadLiteral(u).Some?
    ensures Close(u, 0).Some? && Close(u, 0).value < |u| && ReadLiteral(u).value.rest == u[Close(u, 0).value + 1..]
  {
    hide Close, Decode, UntilNul;
  }

  lemma WholeQuote(s: string, us: seq<Unit>, n: nat, k: nat)
    requires s != "" && s[0] == '"' && n <= k < |s[1..]| && s[1..][k] == '"' && LiteralText(us) == s[1..][..n]
    ensures s == QuoteText(Quote(us, s[1..][n..k])) + s[1..][k + 1..]
  {
    hide LiteralText;
    var u := s[1..];
    assert LiteralText(us) + u[n..k] == u[..k];
    assert u == u[..k] + (['"'] + u[k + 1..]);
    assert s == ['"'] + u;
  }

  lemma UncleanAt(u: string, k: nat, us: seq<Unit>, n: nat)
    requires ReadUpTo(u, 0, k, us, n) && k < |u| && u[k] == '"'
    ensures n <= k && CutOff(u[n..k])
  {
    hide Decode, WellFormed, LiteralText, LiteralDenotes, CodeUnit, FourDigits, Clean, UntilNul;
    if n < k {
      var cut := u[n..k];
      if |cut| >= 6 { PartOfPart(u, n, k); }
    }
  }

  lemma PartOfPart(u: string, n: nat, k: nat)
    requires n + 6 <= k <= |u|
    ensures u[n..k][2..6] == u[n + 2..n + 6]
  {
    forall i | 0 <= i < 4 ensures u[n..k][2..6][i] == u[n + 2..n + 6][i] {
      assert u[n..k][2 + i] == u[n + 2 + i];
    }
  }

  lemma {:induction false} ListOf(s: string, depth: nat, strtod: Strtod) returns (t: Syntax)
    requires s != "" && s[0] == '[' && ReadValue(s, depth, strtod).Done? && depth <= 1000
    ensures var r := ReadValue(s, depth, strtod);
      Says(t, r.value, false, strtod) && s == Layout(t) + r.rest && depth + Levels(t) <= 1000
    decreases |s|, 0
  {
    hide *;
    BracketIsShallow(s, depth, strtod);
    ArrayReads(s, depth, strtod);
    assert s == "[" + s[1..];
    var gap := Skipped(s[1..]);
    var u := Skip(s[1..]);
    if StartsWith(u, "]") {
      PrefixOf(u, "]");
      EmptyList(gap, u[1..], strtod);
      t := List(gap, []);
    } else {
      SpacedItems(s[1..], depth + 1, strtod);
      var es := ElementsOf(s[1..], depth + 1, strtod);
      var r := ReadItems(s[1..], depth + 1, strtod);
      FilledList(es, r.value, r.rest, strtod);
      t := List("", es);
    }
  }

  lemma BracketIsShallow(s: string, depth: nat, strtod: Strtod)
    requires s != "" && s[0] == '[' && ReadValue(s, depth, strtod).Done?
    ensures depth < 1000 && depth < NESTING_LIMIT
  {
    hide ReadValue;
    ReadsByFirst(s, depth, strtod);
  }

  lemma EmptyList(gap: string, tail: string, strtod: Strtod)
    requires Gap(gap)
    ensures Says(List(gap, []), Array([]), false, strtod) && Levels(List(gap, [])) == 1
    ensures Layout(List(gap, [])) + tail == "[" + (gap + ("]" + tail))
  {
    NoLevels();
  }

  lemma FilledList(es: seq<Element>, items: seq<Json>, tail: string, strtod: Strtod)
    requires es != [] && ElementsSay(es, items, false, strtod)
    ensures Says(List("", es), Array(items), false, strtod) && Levels(List("", es)) == 1 + ElementLevels(es)
    ensures Layout(List("", es)) + tail == "[" + (ElementsText(es) + tail)
  {
    hide ElementsText, ElementLevels;
  }

  lemma {:induction false} ElementsOf(s: string, depth: nat, strtod: Strtod) returns (es: seq<Element>)
    requires ReadItems(s, depth, strtod).Done? && depth <= 1000
    ensures var r := ReadItems(s, depth, strtod);
      && es != [] && ElementsSay(es, r.value, false, strtod)
      && s == ElementsText(es) + r.rest && depth + ElementLevels(es) <= 1000
    decreases |s|, 2
  {
    hide *;
    var before := Skipped(s);
    var v := ReadValue(Skip(s), depth, strtod);
    AfterItem(s, depth, strtod, v);
    var t := ReadIsText(Skip(s), depth, strtod);
    var after := Skipped(v.rest);
    var u := Skip(v.rest);
    var e := Element(before, t, after);
    if StartsWith(u, ",") {
      PrefixOf(u, ",");
      var more := ElementsOf(u[1..], depth, strtod);
      es := [e] + more;
      MaxIs(Levels(t), ElementLevels(more));
      ElementAndMore(e, more, v.value, ReadItems(u[1..], depth, strtod).value, strtod, ReadItems(s, depth, strtod).rest);
    } else {
      PrefixOf(u, "]");
      es := [e];
      OnlyElement(e, v.value, strtod, u[1..]);
    }
  }

  lemma OnlyElement(e: Element, j: Json, strtod: Strtod, tail: string)
    requires Gap(e.before) && Says(e.value, j, false, strtod) && Gap(e.after)
    ensures ElementsSay([e], [j], false, strtod)
    ensures ElementsText([e]) + tail == e.before + (Layout(e.value) + (e.after + ("]" + tail)))
    ensures ElementLevels([e]) == Levels(e.value)
  {
    ElementsUnfold([e], tail);
    hide Layout, Says, Gap, ElementsText;
    assert ElementLevels([e][1..]) == 0;
  }

  lemma ElementAndMore(e: Element, more: seq<Element>, j: Json, items: seq<Json>, strtod: Strtod, tail: string)
    requires Gap(e.before) && Says(e.value, j, false, strtod) && Gap(e.after)
    requires more != [] && ElementsSay(more, items, false, strtod)
    ensures ElementsSay([e] + more, [j] + items, false, strtod)
    ensures ElementsText([e] + more) + tail
         == e.before + (Layout(e.value) + (e.after + ("," + (ElementsText(more) + tail))))
    ensures ElementLevels([e] + more) == Max(Levels(e.value), ElementLevels(more))
  {
    var es := [e] + more;
    assert es[0] == e && es[1..] == more && |es| > 1;
    ElementsUnfold(es, tail);
    MoreElementsSay(e, more, j, items, strtod);
    assert BehindElement(es, tail) == "," + (ElementsText(more) + tail) by { hide ElementsText; }
    hide Layout, Says, Gap, ElementsText, Levels, ElementsSay, BehindElement;
  }

  lemma MoreElementsSay(e: Element, more: seq<Element>, j: Json, items: seq<Json>, strtod: Strtod)
    requires Gap(e.before) && Says(e.value, j, false, strtod) && Gap(e.after) && ElementsSay(more, items, false, strtod)
    ensures ElementsSay([e] + more, [j] + items, false, strtod)
  {
    hide Says, Gap;
  }

  lemma {:induction false} RecordOf(s: string, depth: nat, strtod: Strtod) returns (t: Syntax)
    requires s != "" && s[0] == '{' && ReadValue(s, depth, strtod).Done? && depth <= 1000
    ensures var r := ReadValue(s, depth, strtod);
      Says(t, r.value, false, strtod) && s == Layout(t) + r.rest && depth + Levels(t) <= 1000
    decreases |s|, 0
  {
    hide *;
    BraceIsShallow(s, depth, strtod);
    ObjectReads(s, depth, strtod);
    assert s == "{" + s[1..];
    var gap := Skipped(s[1..]);
    var u := Skip(s[1..]);
    if StartsWith(u, "}") {
      PrefixOf(u, "}");
      EmptyRecord(gap, u[1..], strtod);
      t := Record(gap, []);
    } else {
      SpacedMembers(s[1..], depth + 1, strtod);
      var fs := FieldsOf(s[1..], depth + 1, strtod);
      var r := ReadMembers(s[1..], depth + 1, strtod);
      FilledRecord(fs, r.value, r.rest, strtod);
      t := Record("", fs);
    }
  }

  lemma EmptyRecord(gap: string, tail: string, strtod: Strtod)
    requires Gap(gap)
    ensures Says(Record(gap, []), Object([]), false, strtod) && Levels(Record(gap, [])) == 1
    ensures Layout(Record(gap, [])) + tail == "{" + (gap + ("}" + tail))
  {
    NoLevels();
  }

  lemma FilledRecord(fs: seq<Field>, ms: seq<Member>, tail: string, strtod: Strtod)
    requires fs != [] && FieldsSay(fs, ms, false, strtod)
    ensures Says(Record("", fs), Object(ms), false, strtod) && Levels(Record("", fs)) == 1 + FieldLevels(fs)
    ensures Layout(Record("", fs)) + tail == "{" + (FieldsText(fs) + tail)
  {
    hide FieldsText, FieldLevels, QuoteSays;
  }

  lemma BraceIsShallow(s: string, depth: nat, strtod: Strtod)
    requires s != "" && s[0] == '{' && ReadValue(s, depth, strtod).Done?
    ensures depth < 1000 && depth < NESTING_LIMIT
  {
    hide ReadValue;
    ReadsByFirst(s, depth, strtod);
  }

  lemma OnlyBrace(s: string, depth: nat, strtod: Strtod)
    requires s != "" && s[0] != '"' && s[0] != '[' && s[0] != '-' && !('0' <= s[0] <= '9')
    requires !StartsWith(s, "null") && !StartsWith(s, "false") && !StartsWith(s, "true")
    requires ReadValue(s, depth, strtod).Done?
    ensures s[0] == '{'
  {
    hide ReadMembers, ReadItems, ReadLiteral, Skip;
  }

  lemma KeyOf(s: string) returns (before: string, q: Quote, colon: string)
    requires ReadKey(s).Done?
    ensures var k := ReadKey(s);
      && Gap(before) && QuoteSays(q, k.value, false) && Gap(colon)
      && s == before + (QuoteText(q) + (colon + (":" + k.rest)))
  {
    hide Skip, ReadLiteral, QuoteText, QuoteSays, Gap;
    before := Skipped(s);
    var u := Skip(s);
    PrefixOf(u, "\"");
    q := QuoteOf(u);
    var rest := ReadLiteral(u[1..]).value.rest;
    colon := Skipped(rest);
    PrefixOf(Skip(rest), ":");
  }

  lemma {:induction false} FieldsOf(s: string, depth: nat, strtod: Strtod) returns (fs: seq<Field>)
    requires ReadMembers(s, depth, strtod).Done? && depth <= 1000
    ensures var r := ReadMembers(s, depth, strtod);
      && fs != [] && FieldsSay(fs, r.value, false, strtod)
      && s == FieldsText(fs) + r.rest && depth + FieldLevels(fs) <= 1000
    decreases |s|, 2
  {
    HasKey(s, depth, strtod);
    hide *;
    var k := ReadKey(s);
    var before, q, colon := KeyOf(s);
    var space := Skipped(k.rest);
    var v := ReadValue(Skip(k.rest), depth, strtod);
    AfterKey(s, depth, strtod, k.value, k.rest, v);
    var t := ReadIsText(Skip(k.rest), depth, strtod);
    var after := Skipped(v.rest);
    var u := Skip(v.rest);
    var f := Field(before, q, colon, space, t, after);
    if StartsWith(u, ",") {
      PrefixOf(u, ",");
      var more := FieldsOf(u[1..], depth, strtod);
      fs := [f] + more;
      var r := ReadMembers(u[1..], depth, strtod);
      MaxIs(Levels(t), FieldLevels(more));
      FieldAndMore(f, more, Member(k.value, v.value), r.value, strtod, r.rest);
    } else {
      PrefixOf(u, "}");
      fs := [f];
      OnlyField(f, Member(k.value, v.value), strtod, u[1..]);
    }
  }

  lemma HasKey(s: string, depth: nat, strtod: Strtod)
    requires ReadMembers(s, depth, strtod).Done?
    ensures ReadKey(s).Done?
  {
    hide ReadKey;
  }


  lemma OnlyField(f: Field, m: Member, strtod: Strtod, tail: string)
    requires Gap(f.before) && QuoteSays(f.key, m.key, false) && Gap(f.colon)
    requires Gap(f.space) && Says(f.value, m.value, false, strtod) && Gap(f.after)
    ensures FieldsSay([f], [m], false, strtod)
    ensures FieldsText([f]) + tail
         == f.before + (QuoteText(f.key) + (f.colon + (":" + (f.space + (Layout(f.value) + (f.after + ("}" + tail)))))))
    ensures FieldLevels([f]) == Levels(f.value)
  {
    FieldsUnfold([f], tail);
    hide Layout, Says, Gap, QuoteSays, QuoteText, FieldsText;
    assert FieldLevels([f][1..]) == 0;
  }

  lemma FieldAndMore(f: Field, more: seq<Field>, m: Member, ms: seq<Member>, strtod: Strtod, tail: string)
    requires Gap(f.before) && QuoteSays(f.key, m.key, false) && Gap(f.colon)
    requires Gap(f.space) && Says(f.value, m.value, false, strtod) && Gap(f.after)
    requires more != [] && FieldsSay(more, ms, false, strtod)
    ensures FieldsSay([f] + more, [m] + ms, false, strtod)
    ensures FieldsText([f] + more) + tail
         == f.before + (QuoteText(f.key) + (f.colon + (":" + (f.space
            + (Layout(f.value) + (f.after + ("," + (FieldsText(more) + tail))))))))
    ensures FieldLevels([f] + more) == Max(Levels(f.value), FieldLevels(more))
  {
    var fs := [f] + more;
    assert fs[0] == f && fs[1..] == more && |fs| > 1;
    FieldsUnfold(fs, tail);
    MoreFieldsSay(f, more, m, ms, strtod);
    BehindColonIs(fs, tail);
    assert BehindField(fs, tail) == "," + (FieldsText(more) + tail) by { hide FieldsText; }
    hide Layout, Says, Gap, QuoteSays, QuoteText, FieldsText, Levels, FieldsSay, BehindField, BehindColon;
  }

  lemma MoreFieldsSay(f: Field, more: seq<Field>, m: Member, ms: seq<Member>, strtod: Strtod)
    requires Gap(f.before) && QuoteSays(f.key, m.key, false) && Gap(f.colon)
    requires Gap(f.space) && Says(f.value, m.value, false, strtod) && Gap(f.after) && FieldsSay(more, ms, false, strtod)
    ensures FieldsSay([f] + more, [m] + ms, false, strtod)
  {
    hide Says, Gap, QuoteSays;
  }

  /** Whatever is parsed is the text of the value that is returned, with white space before it; only white space may
      stand behind it if nothing else may. */
  lemma ParsedIsText(text: string, requireEnd: bool, strtod: Strtod)
    requires Parse(text, requireEnd, strtod).Some?
    ensures exists mark, before, t, behind ::
      && Opens(text, mark, before, t, behind) && Says(t, Parse(text, requireEnd, strtod).value, false, strtod)
      && Levels(t) <= 1000 && (requireEnd ==> Gap(behind))
  {
    hide Says, Layout, Skip, ReadValue, Levels, Gap;
    var s := BehindBom(text);
    var mark := text[..|text| - |s|];
    var before := Skipped(s);
    var t := ReadIsText(Skip(s), 0, strtod);
    var rest := ReadValue(Skip(s), 0, strtod).rest;
    var end := Skipped(rest);
    assert end + "" == end;
    assert text == mark + s;
    assert Opens(text, mark, before, t, rest);
  }
}
