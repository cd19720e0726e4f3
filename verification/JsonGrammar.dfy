/** The texts of JSON values, by the grammar of RFC 8259, and what they say. */
module JsonGrammar {
  import opened Text
  import opened Json
  import opened StringLiteral
  import JsonText

  /** A value as it stands in a text, with whatever stands between its tokens. */
  datatype Syntax =
    | Word(word: string)
    | Numeral(text: string)
    | Quoted(quote: Quote)
    | List(gap: string, elements: seq<Element>)
    | Record(gap: string, fields: seq<Field>)

  /** The units between the quotation marks.  `cut` is for literals that are accepted and are not well-formed: what
      stands behind the last unit that is read. */
  datatype Quote = Quote(units: seq<Unit>, cut: string)

  datatype Element = Element(before: string, value: Syntax, after: string)

  datatype Field = Field(before: string, key: Quote, colon: string, space: string, value: Syntax, after: string)

  // ----- the text

  function QuoteText(q: Quote): string {
    "\"" + (LiteralText(q.units) + q.cut) + "\""
  }

  function Layout(t: Syntax): string
    decreases t, 1
  {
    match t
    case Word(word) => word
    case Numeral(text) => text
    case Quoted(q) => QuoteText(q)
    case List(gap, es) => "[" + (if es == [] then gap + "]" else ElementsText(es))
    case Record(gap, fs) => "{" + (if fs == [] then gap + "}" else FieldsText(fs))
  }

  /** The text up to the closing bracket. */
  function ElementsText(es: seq<Element>): string
    requires es != []
    decreases es, 0
  {
    es[0].before
    + (Layout(es[0].value) + (es[0].after + (if |es| == 1 then "]" else "," + ElementsText(es[1..]))))
  }

  function FieldsText(fs: seq<Field>): string
    requires fs != []
    decreases fs, 0
  {
    fs[0].before
    + (QuoteText(fs[0].key)
       + (fs[0].colon
          + (":" + (fs[0].space
             + (Layout(fs[0].value) + (fs[0].after + (if |fs| == 1 then "}" else "," + FieldsText(fs[1..]))))))))
  }

  // ----- well-formed texts

  /** What may stand between tokens.  Section 2 of RFC 8259 has the codes 9, 10, 13 and 32; the library takes every
      code up to 32. */
  predicate Gap(ws: string) {
    forall c <- ws :: c as int <= 32
  }

  predicate NumberChar(c: char) {
    48 <= c as int <= 57 || c as int in {43, 45, 46, 69, 101}
  }

  /** What stands behind a number. */
  predicate EndsNumeral(tail: string) {
    tail == "" || !NumberChar(tail[0])
  }

  predicate NumberStart(s: string) {
    s != "" && (s[0] as int == 45 || 48 <= s[0] as int <= 57)
  }

  /** `strtod` takes the text, with `more` behind it, for this number. */
  predicate TakenFor(s: string, more: string, n: int, strtod: JsonText.Strtod) {
    && NumberStart(s) && |s + more| <= 63 && (forall c <- s + more :: NumberChar(c))
    && strtod(s + more) == JsonText.Scanned(n, |s|)
  }

  /** What is left of an accepted literal where it is cut off: a zero byte, or an escape without the code of a
      character. */
  predicate CutOff(cut: string) {
    cut == "" || cut[0] as int == 0
    || (|cut| >= 2 && cut[0] as int == 92 && cut[1] as int == 117
        && !(|cut| >= 6 && FourDigits(cut[2..6]) && CodeUnit(cut[2..6]) > 0))
  }

  ghost predicate QuoteSays(q: Quote, text: string, strict: bool) {
    && (forall u <- q.units :: WellFormed(u)) && LiteralDenotes(q.units, text)
    && (if strict then q.cut == "" else CutOff(q.cut))
  }

  /** The text says the value.  Strictly: literals are well-formed, and `strtod` takes every number as a whole. */
  ghost predicate Says(t: Syntax, j: Json, strict: bool, strtod: JsonText.Strtod)
    decreases t
  {
    match t
    case Word(word) => (word == "null" && j.Null?) || (word == "false" && j.False?) || (word == "true" && j.True?)
    case Numeral(text) =>
      j.Number? && exists more :: TakenFor(text, more, j.n, strtod) && (strict ==> more == "")
    case Quoted(q) => j.String? && QuoteSays(q, j.text, strict)
    case List(gap, es) =>
      && Gap(gap) && j.Array? && |es| == |j.items|
      && forall i :: 0 <= i < |es| ==>
           Gap(es[i].before) && Says(es[i].value, j.items[i], strict, strtod) && Gap(es[i].after)
    case Record(gap, fs) =>
      && Gap(gap) && j.Object? && |fs| == |j.members|
      && forall i :: 0 <= i < |fs| ==>
           && Gap(fs[i].before) && QuoteSays(fs[i].key, j.members[i].key, strict) && Gap(fs[i].colon)
           && Gap(fs[i].space) && Says(fs[i].value, j.members[i].value, strict, strtod) && Gap(fs[i].after)
  }

  /** How deep arrays and objects nest. */
  function Levels(t: Syntax): nat
    decreases t, 1
  {
    match t
    case List(_, es) => 1 + ElementLevels(es)
    case Record(_, fs) => 1 + FieldLevels(fs)
    case _ => 0
  }

  function ElementLevels(es: seq<Element>): nat
    decreases es, 0
  {
    if es == [] then 0 else Max(Levels(es[0].value), ElementLevels(es[1..]))
  }

  function FieldLevels(fs: seq<Field>): nat
    decreases fs, 0
  {
    if fs == [] then 0 else Max(Levels(fs[0].value), FieldLevels(fs[1..]))
  }

  function Max(a: nat, b: nat): nat {
    if a < b then b else a
  }

  // ----- integers

  predicate Digits(s: string) {
    forall c <- s :: 48 <= c as int <= 57
  }

  /** An optional minus sign and at most 15 digits. */
  predicate IntegerText(s: string) {
    var d := Unsigned(s);
    Digits(d) && 1 <= |d| <= 15
  }

  function Unsigned(s: string): string {
    if s != "" && s[0] as int == 45 then s[1..] else s
  }

  /** From left to right: ten times the value so far plus the digit. */
  function DigitsValue(d: string): int {
    if d == "" then 0 else 10 * DigitsValue(d[..|d| - 1]) + (d[|d| - 1] as int - 48)
  }

  function IntegerValue(s: string): int {
    if s != "" && s[0] as int == 45 then -DigitsValue(s[1..]) else DigitsValue(s)
  }

  /** All that is asked of `strtod`: it takes such a text as a whole, for the integer that it denotes. */
  ghost predicate ReadsIntegers(strtod: JsonText.Strtod) {
    forall s :: IntegerText(s) ==> strtod(s) == JsonText.Scanned(IntegerValue(s), |s|)
  }

  lemma IntegerIsNumeral(s: string, strict: bool, strtod: JsonText.Strtod)
    requires IntegerText(s) && ReadsIntegers(strtod)
    ensures Says(Numeral(s), Number(IntegerValue(s)), strict, strtod)
  {
    assert s + "" == s;
    assert forall c <- s :: c == s[0] || c in Unsigned(s);
    assert forall c <- Unsigned(s) :: c in s;
    assert Unsigned(s)[0] in Unsigned(s);
    assert TakenFor(s, "", IntegerValue(s), strtod);
  }

  // ----- whole texts

  /** The bytes 239, 187 and 191. */
  predicate IsMark(s: string) {
    |s| == 3 && s[0] as int == 239 && s[1] as int == 187 && s[2] as int == 191
  }

  /** A value with what may stand before it. */
  predicate Opens(text: string, mark: string, before: string, t: Syntax, behind: string) {
    (mark == "" || IsMark(mark)) && Gap(before) && text == mark + (before + (Layout(t) + behind))
  }
}
