/** A reader for one-line TOML, after the String, Array and Array of Tables sections of TOML v1.0.0. It rejects the
    rest. */
module TomlReader {
  import opened Common

  /** A Unicode code point. A Python string may hold any of them, lone surrogates included; a TOML file, and each
      character of the text read here, is a scalar value. */
  type CodePoint = n: nat | n < 0x11_0000

  type PyString = seq<CodePoint>

  datatype Item = Integer(n: int) | Text(s: PyString) | Boolean(b: bool) | Texts(items: seq<PyString>)

  type Table = map<string, Item>

  /** What a TOML file loads to. */
  datatype Document = Document(values: Table, tables: map<string, Table>, arrays: map<string, seq<Table>>)

  // ---------------------------------------------------------------- lines

  function Lines(text: string): (lines: seq<string>)
    ensures lines != []
  {
    if text == [] then [""]
    else if text[0] == '\n' then [""] + Lines(text[1..])
    else var rest := Lines(text[1..]); [[text[0]] + rest[0]] + rest[1..]
  }

  // ---------------------------------------------------------------- values

  function HexValue(c: char): Option<nat> {
    if '0' <= c <= '9' then Some(c as int - '0' as int)
    else if 'a' <= c <= 'f' then Some(c as int - 'a' as int + 10)
    else if 'A' <= c <= 'F' then Some(c as int - 'A' as int + 10)
    else None
  }

  function HexNumber(digits: string): Option<nat> {
    if digits == [] then Some(0)
    else
      var high, low := HexNumber(digits[..|digits| - 1]), HexValue(digits[|digits| - 1]);
      if high.None? || low.None? then None else Some(16 * high.value + low.value)
  }

  /** The surrogates are not Unicode scalar values. */
  predicate IsScalar(code: nat) {
    code < 0xD800 || 0xE000 <= code < 0x11_0000
  }

  function SimpleEscape(c: char): Option<CodePoint> {
    match c
    case 'b' => Some(8)
    case 't' => Some(9)
    case 'n' => Some(10)
    case 'f' => Some(12)
    case 'r' => Some(13)
    case '"' => Some(34)
    case '\\' => Some(92)
    case _ => None
  }

  /** The code point a piece of text starting with a backslash stands for, with the length of the escape. */
  function EscapedChar(s: string): (r: Option<(CodePoint, nat)>)
    requires |s| > 0 && s[0] == '\\'
    ensures r.Some? ==> 0 < r.value.1 <= |s|
  {
    if |s| < 2 then None
    else if s[1] == 'u' || s[1] == 'U' then
      var n := if s[1] == 'u' then 4 else 8;
      if |s| < 2 + n then None
      else
        var code := HexNumber(s[2..2 + n]);
        if code.None? || !IsScalar(code.value) then None else Some((code.value, 2 + n))
    else if SimpleEscape(s[1]).Some? then Some((SimpleEscape(s[1]).value, 2))
    else None
  }

  predicate IsControl(c: char) {
    (c as int < 0x20 && c != '\t') || c as int == 0x7F
  }

  /** The rest of a basic string after its opening quote: its value and what follows the closing quote. */
  function BasicString(s: string): (r: Option<(PyString, string)>)
    ensures r.Some? ==> |r.value.1| < |s|
    decreases |s|
  {
    if s == [] then None
    else if s[0] == '"' then Some(([], s[1..]))
    else if s[0] == '\\' then
      var escaped := EscapedChar(s);
      if escaped.None? then None
      else
        var rest := BasicString(s[escaped.value.1..]);
        if rest.None? then None else Some(([escaped.value.0] + rest.value.0, rest.value.1))
    else if IsControl(s[0]) then None
    else
      var rest := BasicString(s[1..]);
      if rest.None? then None else Some(([s[0] as int] + rest.value.0, rest.value.1))
  }

  function SkipBlanks(s: string): (r: string)
    ensures |r| <= |s|
  {
    if s != [] && (s[0] == ' ' || s[0] == '\t') then SkipBlanks(s[1..]) else s
  }

  /** The rest of an array of strings after its opening bracket or after a comma. */
  function TextItems(s: string): (r: Option<(seq<PyString>, string)>)
    decreases |s|
  {
    var t := SkipBlanks(s);
    if t == [] then None
    else if t[0] == ']' then Some(([], t[1..]))
    else if t[0] != '"' then None
    else
      var item := BasicString(t[1..]);
      if item.None? then None
      else
        var after := SkipBlanks(item.value.1);
        if after == [] then None
        else if after[0] == ']' then Some(([item.value.0], after[1..]))
        else if after[0] != ',' then None
        else
          var rest := TextItems(after[1..]);
          if rest.None? then None else Some(([item.value.0] + rest.value.0, rest.value.1))
  }

  predicate IsDigit(c: char) {
    '0' <= c <= '9'
  }

  function DigitRun(s: string): (n: nat)
    ensures n <= |s| && forall i :: 0 <= i < n ==> IsDigit(s[i])
    ensures n < |s| ==> !IsDigit(s[n])
  {
    if s == [] || !IsDigit(s[0]) then 0 else 1 + DigitRun(s[1..])
  }

  function DigitsValue(digits: string): nat
    requires forall i :: 0 <= i < |digits| ==> IsDigit(digits[i])
  {
    if digits == [] then 0
    else
      assert IsDigit(digits[|digits| - 1]);
      10 * DigitsValue(digits[..|digits| - 1]) + (digits[|digits| - 1] as int - '0' as int)
  }

  /** An unsigned decimal integer: no leading zero. */
  function UnsignedInteger(s: string): Option<(nat, string)> {
    var n := DigitRun(s);
    if n == 0 || (n > 1 && s[0] == '0') then None else Some((DigitsValue(s[..n]), s[n..]))
  }

  function Value(s: string): Option<(Item, string)> {
    if s == [] then None
    else if s[0] == '"' then
      var r := BasicString(s[1..]);
      if r.None? then None else Some((Text(r.value.0), r.value.1))
    else if s[0] == '[' then
      var r := TextItems(s[1..]);
      if r.None? then None else Some((Texts(r.value.0), r.value.1))
    else if "true" <= s then Some((Boolean(true), s[4..]))
    else if "false" <= s then Some((Boolean(false), s[5..]))
    else if s[0] == '-' then
      var r := UnsignedInteger(s[1..]);
      if r.None? then None else Some((Integer(0 - r.value.0 as int), r.value.1))
    else
      var r := UnsignedInteger(s);
      if r.None? then None else Some((Integer(r.value.0), r.value.1))
  }

  // ---------------------------------------------------------------- one line

  datatype Line = Blank | Header(name: string) | ArrayHeader(name: string) | Pair(key: string, item: Item)

  predicate IsBare(c: char) {
    'a' <= c <= 'z' || 'A' <= c <= 'Z' || IsDigit(c) || c == '_' || c == '-'
  }

  function BareRun(s: string): (n: nat)
    ensures n <= |s| && forall i :: 0 <= i < n ==> IsBare(s[i])
    ensures n < |s| ==> !IsBare(s[n])
  {
    if s == [] || !IsBare(s[0]) then 0 else 1 + BareRun(s[1..])
  }

  /** Nothing but blanks and perhaps a comment. */
  predicate AtEnd(s: string) {
    var t := SkipBlanks(s);
    t == [] || t[0] == '#'
  }

  function ReadLine(line: string): Option<Line> {
    var s := SkipBlanks(line);
    if AtEnd(s) then Some(Blank)
    else if "[[" <= s then
      var n := BareRun(s[2..]);
      if n > 0 && "]]" <= s[2 + n..] && AtEnd(s[4 + n..]) then Some(ArrayHeader(s[2..2 + n])) else None
    else if s[0] == '[' then
      var n := BareRun(s[1..]);
      if n > 0 && "]" <= s[1 + n..] && AtEnd(s[2 + n..]) then Some(Header(s[1..1 + n])) else None
    else
      var n := BareRun(s);
      var t := SkipBlanks(s[n..]);
      if n == 0 || t == [] || t[0] != '=' then None
      else
        var r := Value(SkipBlanks(t[1..]));
        if r.None? || !AtEnd(r.value.1) then None else Some(Pair(s[..n], r.value.0))
  }

  // ---------------------------------------------------------------- the document

  /** The table a key line writes to. */
  datatype Target = AtRoot | InTable(name: string) | InArray(name: string)

  datatype State = State(doc: Document, target: Target)

  predicate Defined(doc: Document, name: string) {
    name in doc.values || name in doc.tables || name in doc.arrays
  }

  function Apply(state: State, line: Line): Option<State> {
    var doc := state.doc;
    match line
    case Blank => Some(state)
    case Header(name) =>
      if Defined(doc, name) then None
      else Some(State(doc.(tables := doc.tables[name := map[]]), InTable(name)))
    case ArrayHeader(name) =>
      if name in doc.arrays then Some(State(doc.(arrays := doc.arrays[name := doc.arrays[name] + [map[]]]),
          InArray(name)))
      else if Defined(doc, name) then None
      else Some(State(doc.(arrays := doc.arrays[name := [map[]]]), InArray(name)))
    case Pair(key, item) =>
      match state.target
      case AtRoot => if Defined(doc, key) then None else Some(state.(doc := doc.(values := doc.values[key := item])))
      case InTable(name) =>
        if name !in doc.tables || key in doc.tables[name] then None
        else Some(state.(doc := doc.(tables := doc.tables[name := doc.tables[name][key := item]])))
      case InArray(name) =>
        if name !in doc.arrays || doc.arrays[name] == [] then None
        else
          var tables := doc.arrays[name];
          var last := tables[|tables| - 1];
          if key in last then None
          else Some(state.(doc := doc.(arrays := doc.arrays[name := tables[..|tables| - 1] + [last[key := item]]])))
  }

  function ReadLines(state: State, lines: seq<string>): Option<State>
    decreases lines
  {
    if lines == [] then Some(state)
    else
      var line := ReadLine(lines[0]);
      if line.None? then None
      else
        var next := Apply(state, line.value);
        if next.None? then None else ReadLines(next.value, lines[1..])
  }

  const START: State := State(Document(map[], map[], map[]), AtRoot)

  function Read(text: string): Option<Document> {
    var r := ReadLines(START, Lines(text));
    if r.None? then None else Some(r.value.doc)
  }

  // ---------------------------------------------------------------- reading a list of lines

  lemma {:induction false} ReadLinesConcat(state: State, a: seq<string>, b: seq<string>)
    ensures ReadLines(state, a + b)
         == (if ReadLines(state, a).None? then None else ReadLines(ReadLines(state, a).value, b))
    decreases a
  {
    if a == [] {
      assert a + b == b;
    } else {
      assert (a + b)[1..] == a[1..] + b;
      var line := ReadLine(a[0]);
      if line.Some? && Apply(state, line.value).Some? {
        ReadLinesConcat(Apply(state, line.value).value, a[1..], b);
      }
    }
  }
}
