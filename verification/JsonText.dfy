/** JSON texts: what the printer writes and what the parser reads. */
module JsonText {
  import opened Text
  import opened Json
  import opened StringLiteral
  import Pointer

  const NESTING_LIMIT: nat := 1000

  /** Below this the format `%1.15g` writes plain decimal digits. */
  const DECIMAL_LIMIT: int := 1_000_000_000_000_000

  // ----- printing

  predicate IsCString(s: string) {
    forall c <- s :: 0 < c as int < 256
  }

  /** What the printer can print here: no invalid items, byte strings, and integers of 15 digits. */
  predicate Printable(j: Json)
    decreases j
  {
    match j
    case Invalid => false
    case Number(n) => -DECIMAL_LIMIT < n < DECIMAL_LIMIT
    case String(s) => IsCString(s)
    case Array(items) => forall i :: 0 <= i < |items| ==> Printable(items[i])
    case Object(ms) => forall i :: 0 <= i < |ms| ==> IsCString(ms[i].key) && Printable(ms[i].value)
    case _ => true
  }

  function PrintedNumber(n: int): string {
    if n < 0 then "-" + Pointer.Decimal(-n) else Pointer.Decimal(n)
  }

  function HexChar(d: nat): char
    requires d < 16
  {
    if d < 10 then ('0' as int + d) as char else ('a' as int + d - 10) as char
  }

  /** One character of a printed string; `%04x` for the other control characters. */
  function EscapedChar(c: char): string {
    if c == '"' then "\\\"" else if c == '\\' then "\\\\"
    else if c == BACKSPACE then "\\b" else if c == FORM_FEED then "\\f"
    else if c == '\n' then "\\n" else if c == '\r' then "\\r" else if c == '\t' then "\\t"
    else if c as int < 32 then "\\u00" + [HexChar(c as int / 16), HexChar(c as int % 16)]
    else [c]
  }

  function Escaped(s: string): string {
    if s == "" then "" else EscapedChar(s[0]) + Escaped(s[1..])
  }

  function PrintedString(s: string): string {
    "\"" + Escaped(s) + "\""
  }

  function Tabs(n: nat): string {
    seq(n, _ => '\t')
  }

  /** The text of an item that is nested `depth` deep; formatting only indents the members of objects. */
  function Printed(j: Json, depth: nat, format: bool): string
    decreases j, 1
  {
    match j
    case Invalid => ""
    case Null => "null"
    case False => "false"
    case True => "true"
    case Number(n) => PrintedNumber(n)
    case String(s) => PrintedString(s)
    case Array(items) => "[" + PrintedItems(items, depth + 1, format)
    case Object(ms) => ObjectOpening(format) + PrintedMembers(ms, depth + 1, format)
  }

  function ObjectOpening(format: bool): string {
    if format then "{\n" else "{"
  }

  function ItemEnd(last: bool, format: bool): string {
    if last then "" else if format then ", " else ","
  }

  function PrintedItems(items: seq<Json>, depth: nat, format: bool): string
    decreases items, 0
  {
    if items == [] then "]"
    else Printed(items[0], depth, format) + (ItemEnd(|items| == 1, format) + PrintedItems(items[1..], depth, format))
  }

  function MemberStart(key: string, depth: nat, format: bool): string {
    (if format then Tabs(depth) else "") + PrintedString(key) + (if format then ":\t" else ":")
  }

  function MemberEnd(last: bool, format: bool): string {
    (if last then "" else ",") + (if format then "\n" else "")
  }

  function ObjectClosing(depth: nat, format: bool): string {
    if format then Tabs(if depth == 0 then 0 else depth - 1) + "}" else "}"
  }

  function PrintedMembers(ms: seq<Member>, depth: nat, format: bool): string
    decreases ms, 0
  {
    if ms == [] then ObjectClosing(depth, format)
    else MemberStart(ms[0].key, depth, format)
         + (Printed(ms[0].value, depth, format)
            + (MemberEnd(|ms| == 1, format) + PrintedMembers(ms[1..], depth, format)))
  }

  // ----- parsing; `s` is the text that is left

  /** What `strtod` makes of the start of a text, and how many characters it takes. */
  datatype Scanned = Scanned(n: int, used: nat)

  type Strtod = string -> Scanned

  datatype Parsed<T> = Fail | Done(value: T, rest: string)

  predicate IsSpace(c: char) {
    c as int <= 32
  }

  function Skip(s: string): string {
    if s != "" && IsSpace(s[0]) then Skip(s[1..]) else s
  }

  lemma SkipIsSuffix(s: string)
    ensures |Skip(s)| <= |s| && Skip(s) == s[|s| - |Skip(s)|..]
    ensures Skip(s) != "" ==> !IsSpace(Skip(s)[0])
  {
  }

  predicate StartsWith(s: string, p: string) {
    |p| <= |s| && s[..|p|] == p
  }

  predicate InNumber(c: char) {
    '0' <= c <= '9' || c in "+-eE."
  }

  /** The characters that are copied out for `strtod`. */
  function NumberRun(s: string, limit: nat): (r: string)
    ensures |r| <= |s| && r == s[..|r|]
  {
    if limit == 0 || s == "" || !InNumber(s[0]) then "" else [s[0]] + NumberRun(s[1..], limit - 1)
  }

  /** `parse_number` */
  function ReadNumber(s: string, strtod: Strtod): Parsed<Json> {
    var run := NumberRun(s, 63);
    var r := strtod(run);
    if r.used == 0 || r.used > |run| then Fail else Done(Number(r.n), s[r.used..])
  }

  /** `parse_value` at a nesting depth. */
  function ReadValue(s: string, depth: nat, strtod: Strtod): (r: Parsed<Json>)
    ensures r.Done? ==> |r.rest| < |s|
    decreases |s|, 0
  {
    if StartsWith(s, "null") then Done(Null, s[4..])
    else if StartsWith(s, "false") then Done(False, s[5..])
    else if StartsWith(s, "true") then Done(True, s[4..])
    else if s == "" then Fail
    else if s[0] == '"' then
      var l := ReadLiteral(s[1..]);
      if l.None? then Fail else Done(String(l.value.text), LiteralRest(s[1..]))
    else if s[0] == '-' || '0' <= s[0] <= '9' then ReadNumber(s, strtod)
    else if s[0] == '[' && depth < NESTING_LIMIT then
      var t := SkipFrom(s);
      if StartsWith(t, "]") then Done(Array([]), t[1..])
      else
        var r := ReadItems(t, depth + 1, strtod);
        if r.Fail? then Fail else Done(Array(r.value), r.rest)
    else if s[0] == '{' && depth < NESTING_LIMIT then
      var t := SkipFrom(s);
      if StartsWith(t, "}") then Done(Object([]), t[1..])
      else
        var r := ReadMembers(t, depth + 1, strtod);
        if r.Fail? then Fail else Done(Object(r.value), r.rest)
    else Fail
  }

  function SkipFrom(s: string): (t: string)
    requires s != ""
    ensures |t| < |s|
  {
    SkipIsSuffix(s[1..]);
    Skip(s[1..])
  }

  /** The rest behind a literal is shorter. */
  function LiteralRest(s: string): (rest: string)
    requires ReadLiteral(s).Some?
    ensures |rest| < |s| && rest == ReadLiteral(s).value.rest
  {
    ReadLiteral(s).value.rest
  }

  /** The items up to the closing bracket. */
  function ReadItems(s: string, depth: nat, strtod: Strtod): (r: Parsed<seq<Json>>)
    ensures r.Done? ==> |r.rest| < |s|
    decreases |s|, 1
  {
    SkipIsSuffix(s);
    var v := ReadValue(Skip(s), depth, strtod);
    if v.Fail? then Fail
    else
      SkipIsSuffix(v.rest);
      var t := Skip(v.rest);
      if StartsWith(t, ",") then
        var more := ReadItems(t[1..], depth, strtod);
        if more.Fail? then Fail else Done([v.value] + more.value, more.rest)
      else if StartsWith(t, "]") then Done([v.value], t[1..])
      else Fail
  }

  /** A key with its colon. */
  function ReadKey(s: string): (r: Parsed<string>)
    ensures r.Done? ==> |r.rest| < |s|
  {
    SkipIsSuffix(s);
    var t := Skip(s);
    if !StartsWith(t, "\"") || ReadLiteral(t[1..]).None? then Fail
    else
      var rest := LiteralRest(t[1..]);
      SkipIsSuffix(rest);
      if StartsWith(Skip(rest), ":") then Done(ReadLiteral(t[1..]).value.text, Skip(rest)[1..]) else Fail
  }

  function ReadMembers(s: string, depth: nat, strtod: Strtod): (r: Parsed<seq<Member>>)
    ensures r.Done? ==> |r.rest| < |s|
    decreases |s|, 1
  {
    var k := ReadKey(s);
    if k.Fail? then Fail
    else
      SkipIsSuffix(k.rest);
      var v := ReadValue(Skip(k.rest), depth, strtod);
      if v.Fail? then Fail
      else
        SkipIsSuffix(v.rest);
        var t := Skip(v.rest);
        if StartsWith(t, ",") then
          var more := ReadMembers(t[1..], depth, strtod);
          if more.Fail? then Fail else Done([Member(k.value, v.value)] + more.value, more.rest)
        else if StartsWith(t, "}") then Done([Member(k.value, v.value)], t[1..])
        else Fail
  }

  // ----- one step of the reader at a time

  /** How the reader sees the text of an array, an object, a string, or a number. */
  lemma ReadsByFirst(s: string, depth: nat, strtod: Strtod)
    requires s != ""
    ensures s[0] == '"' && ReadLiteral(s[1..]).Some? ==>
      ReadValue(s, depth, strtod) == Done(String(ReadLiteral(s[1..]).value.text), ReadLiteral(s[1..]).value.rest)
    ensures s[0] == '-' || '0' <= s[0] <= '9' ==> ReadValue(s, depth, strtod) == ReadNumber(s, strtod)
    ensures s[0] in "[{" && depth >= NESTING_LIMIT ==> ReadValue(s, depth, strtod).Fail?
  {
  }

  lemma ArrayReads(s: string, depth: nat, strtod: Strtod)
    requires s != "" && s[0] == '[' && depth < NESTING_LIMIT
    ensures var t := Skip(s[1..]);
      ReadValue(s, depth, strtod) ==
        if StartsWith(t, "]") then Done(Array([]), t[1..])
        else
          var r := ReadItems(t, depth + 1, strtod);
          if r.Fail? then Fail else Done(Array(r.value), r.rest)
  {
    hide ReadItems;
  }

  lemma ObjectReads(s: string, depth: nat, strtod: Strtod)
    requires s != "" && s[0] == '{' && depth < NESTING_LIMIT
    ensures var t := Skip(s[1..]);
      ReadValue(s, depth, strtod) ==
        if StartsWith(t, "}") then Done(Object([]), t[1..])
        else
          var r := ReadMembers(t, depth + 1, strtod);
          if r.Fail? then Fail else Done(Object(r.value), r.rest)
  {
    hide ReadMembers;
  }

  /** What the reader does behind an item. */
  lemma AfterItem(s: string, depth: nat, strtod: Strtod, r: Parsed<Json>)
    requires ReadValue(Skip(s), depth, strtod) == r
    ensures ReadItems(s, depth, strtod) ==
      if r.Fail? then Fail
      else if StartsWith(Skip(r.rest), ",") then
        var more := ReadItems(Skip(r.rest)[1..], depth, strtod);
        if more.Fail? then Fail else Done([r.value] + more.value, more.rest)
      else if StartsWith(Skip(r.rest), "]") then Done([r.value], Skip(r.rest)[1..])
      else Fail
  {
    hide ReadValue;
  }

  /** What the reader does with a member. */
  lemma AfterKey(s: string, depth: nat, strtod: Strtod, key: string, rest: string, r: Parsed<Json>)
    requires ReadKey(s) == Done(key, rest) && ReadValue(Skip(rest), depth, strtod) == r
    ensures ReadMembers(s, depth, strtod) ==
      if r.Fail? then Fail
      else if StartsWith(Skip(r.rest), ",") then
        var more := ReadMembers(Skip(r.rest)[1..], depth, strtod);
        if more.Fail? then Fail else Done([Member(key, r.value)] + more.value, more.rest)
      else if StartsWith(Skip(r.rest), "}") then Done([Member(key, r.value)], Skip(r.rest)[1..])
      else Fail
  {
    hide ReadValue, ReadKey;
  }

  const BOM: string := [0xEF as char, 0xBB as char, 0xBF as char]

  /** The byte order mark is looked for in texts of at least four bytes only. */
  function BehindBom(text: string): string {
    if |text| >= 4 && StartsWith(text, BOM) then text[3..] else text
  }

  /** `cJSON_ParseWithOpts` on a text without its terminator. */
  function Parse(text: string, requireEnd: bool, strtod: Strtod): Option<Json> {
    var v := ReadValue(Skip(BehindBom(text)), 0, strtod);
    if v.Fail? || (requireEnd && Skip(v.rest) != "") then None else Some(v.value)
  }
}
