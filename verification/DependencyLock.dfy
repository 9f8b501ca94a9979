/** The dependency lock: its TOML printer, what reading the printed text gives back, and what the check says of it.
    Reading is by the reader of `TomlReader`. */
module DependencyLock {
  import opened Common
  import opened TomlReader

  datatype RequirementFile = RequirementFile(group: PyString, path: PyString, sha256: PyString)

  datatype Package = Package(name: PyString, version: PyString, direct: bool, groups: seq<PyString>,
                             requirementFiles: seq<PyString>, extras: seq<PyString>, requirementHashes: seq<PyString>)

  datatype Lock = Lock(version: nat, revision: nat, requiresPython: PyString, authoritativeSource: PyString,
                       generatedBy: PyString, licenseInventory: PyString, licenseInventorySha256: PyString,
                       requirementFiles: seq<RequirementFile>, packages: seq<Package>,
                       packageCount: nat, directCount: nat, transitiveCount: nat)

  /** A literal as a Python string. */
  function Points(s: string): (r: PyString)
    ensures |r| == |s| && forall i :: 0 <= i < |s| ==> r[i] == s[i] as int
  {
    seq(|s|, i requires 0 <= i < |s| => s[i] as int)
  }

  // ---------------------------------------------------------------- the printer

  function HexDigit(n: nat): char
    requires n < 16
  {
    if n < 10 then ('0' as int + n) as char else ('a' as int + n - 10) as char
  }

  function Hex4(n: nat): string
    requires n < 0x1_0000
  {
    [HexDigit(n / 16 / 16 / 16), HexDigit(n / 16 / 16 % 16), HexDigit(n / 16 % 16), HexDigit(n % 16)]
  }

  /** `json.dumps` with `ensure_ascii`: everything outside the printable ASCII range is escaped, code points
      outside the basic plane as two surrogates. */
  function EscapePoint(c: CodePoint): string {
    if c == 34 then "\\\""
    else if c == 92 then "\\\\"
    else if c == 10 then "\\n"
    else if c == 13 then "\\r"
    else if c == 9 then "\\t"
    else if c == 12 then "\\f"
    else if c == 8 then "\\b"
    else if 32 <= c <= 126 then [c as char]
    else if c < 0x1_0000 then "\\u" + Hex4(c)
    else
      var v := c - 0x1_0000;
      "\\u" + Hex4(0xD800 + v / 1024) + "\\u" + Hex4(0xDC00 + v % 1024)
  }

  function Escape(s: PyString): string {
    if s == [] then [] else EscapePoint(s[0]) + Escape(s[1..])
  }

  function Quote(s: PyString): string {
    "\"" + Escape(s) + "\""
  }

  function QuotedItems(items: seq<PyString>): string {
    if items == [] then "" else if |items| == 1 then Quote(items[0])
        else Quote(items[0]) + ", " + QuotedItems(items[1..])
  }

  function QuotedArray(items: seq<PyString>): string {
    "[" + QuotedItems(items) + "]"
  }

  function Decimal(n: nat): string {
    if n < 10 then [('0' as int + n) as char] else Decimal(n / 10) + [('0' as int + n % 10) as char]
  }

  /** One `key = value` line. */
  function Shown(item: Item): string {
    match item
    case Integer(n) => if n < 0 then "-" + Decimal(-n) else Decimal(n)
    case Text(s) => Quote(s)
    case Boolean(b) => if b then "true" else "false"
    case Texts(items) => QuotedArray(items)
  }

  datatype KeyItem = KeyItem(key: string, item: Item)

  function PairLines(pairs: seq<KeyItem>): (lines: seq<string>)
    ensures |lines| == |pairs|
    ensures forall i :: 0 <= i < |pairs| ==> lines[i] == pairs[i].key + " = " + Shown(pairs[i].item)
  {
    seq(|pairs|, i requires 0 <= i < |pairs| => pairs[i].key + " = " + Shown(pairs[i].item))
  }

  function RootPairs(p: Lock): seq<KeyItem> {
    [KeyItem("version", Integer(p.version)),
     KeyItem("revision", Integer(p.revision)),
     KeyItem("requires-python", Text(p.requiresPython)),
     KeyItem("authoritative-source", Text(p.authoritativeSource)),
     KeyItem("generated-by", Text(p.generatedBy)),
     KeyItem("license-inventory", Text(p.licenseInventory)),
     KeyItem("license-inventory-sha256", Text(p.licenseInventorySha256))]
  }

  function FilePairs(f: RequirementFile): seq<KeyItem> {
    [KeyItem("group", Text(f.group)), KeyItem("path", Text(f.path)), KeyItem("sha256", Text(f.sha256))]
  }

  function PackagePairs(p: Package): seq<KeyItem> {
    [KeyItem("name", Text(p.name)),
     KeyItem("version", Text(p.version)),
     KeyItem("direct", Boolean(p.direct)),
     KeyItem("groups", Texts(p.groups)),
     KeyItem("requirement-files", Texts(p.requirementFiles)),
     KeyItem("extras", Texts(p.extras)),
     KeyItem("requirement-hashes", Texts(p.requirementHashes))]
  }

  function SummaryPairs(p: Lock): seq<KeyItem> {
    [KeyItem("package-count", Integer(p.packageCount)),
     KeyItem("direct-package-count", Integer(p.directCount)),
     KeyItem("transitive-package-count", Integer(p.transitiveCount))]
  }

  function Section(header: string, pairs: seq<KeyItem>): seq<string> {
    [header] + PairLines(pairs) + [""]
  }

  function ArraySections(name: string, tables: seq<seq<KeyItem>>): seq<string> {
    if tables == [] then [] else Section("[[" + name + "]]", tables[0]) + ArraySections(name, tables[1..])
  }

  function AllFilePairs(files: seq<RequirementFile>): (tables: seq<seq<KeyItem>>)
    ensures |tables| == |files| && forall i :: 0 <= i < |files| ==> tables[i] == FilePairs(files[i])
  {
    seq(|files|, i requires 0 <= i < |files| => FilePairs(files[i]))
  }

  function AllPackagePairs(packages: seq<Package>): (tables: seq<seq<KeyItem>>)
    ensures |tables| == |packages| && forall i :: 0 <= i < |packages| ==> tables[i] == PackagePairs(packages[i])
  {
    seq(|packages|, i requires 0 <= i < |packages| => PackagePairs(packages[i]))
  }

  function LockLines(p: Lock): seq<string> {
    PairLines(RootPairs(p)) + [""]
    + ArraySections("requirement-files", AllFilePairs(p.requirementFiles))
    + ArraySections("package", AllPackagePairs(p.packages))
    + Section("[summary]", SummaryPairs(p))
  }

  /** `"\n".join(lines)`. */
  function Join(lines: seq<string>): string {
    if lines == [] then "" else if |lines| == 1 then lines[0] else lines[0] + "\n" + Join(lines[1..])
  }

  function ToToml(p: Lock): string {
    Join(LockLines(p))
  }

  /** `_to_toml`: the lines are appended section by section. */
  method RenderToml(p: Lock) returns (text: string)
    ensures text == ToToml(p)
  {
    hide PairLines, RootPairs, FilePairs, PackagePairs, SummaryPairs, Section, Join;
    var lines := PairLines(RootPairs(p)) + [""];
    ghost var root, files, packages := lines, AllFilePairs(p.requirementFiles), AllPackagePairs(p.packages);
    for i := 0 to |p.requirementFiles|
      invariant lines + ArraySections("requirement-files", files[i..])
          == root + ArraySections("requirement-files", files)
    {
      assert files[i..][0] == files[i] && files[i..][1..] == files[i + 1..];
      lines := lines + Section("[[" + "requirement-files" + "]]", FilePairs(p.requirementFiles[i]));
    }
    ghost var before := lines;
    assert before == root + ArraySections("requirement-files", files);
    for i := 0 to |p.packages|
      invariant lines + ArraySections("package", packages[i..]) == before + ArraySections("package", packages)
    {
      assert packages[i..][0] == packages[i] && packages[i..][1..] == packages[i + 1..];
      lines := lines + Section("[[" + "package" + "]]", PackagePairs(p.packages[i]));
    }
    assert lines == before + ArraySections("package", packages);
    lines := lines + Section("[summary]", SummaryPairs(p));
    text := Join(lines);
  }

  // ---------------------------------------------------------------- the payload as a document

  function TableOf(pairs: seq<KeyItem>): Table {
    if pairs == [] then map[] else TableOf(pairs[..|pairs| - 1])[pairs[|pairs| - 1].key := pairs[|pairs| - 1].item]
  }

  function TablesOf(tables: seq<seq<KeyItem>>): (r: seq<Table>)
    ensures |r| == |tables|
  {
    if tables == [] then [] else [TableOf(tables[0])] + TablesOf(tables[1..])
  }

  /** The payload dictionary itself: its lists are there even when they are empty. */
  function PayloadDocument(p: Lock): Document {
    Document(TableOf(RootPairs(p)), map["summary" := TableOf(SummaryPairs(p))],
             map["requirement-files" := TablesOf(AllFilePairs(p.requirementFiles)),
                 "package" := TablesOf(AllPackagePairs(p.packages))])
  }

  /** What the printed text says: an array of tables that has no table is not mentioned. */
  function PrintedDocument(p: Lock): Document {
    Document(TableOf(RootPairs(p)), map["summary" := TableOf(SummaryPairs(p))],
             (if p.requirementFiles == [] then map[]
                 else map["requirement-files" := TablesOf(AllFilePairs(p.requirementFiles))])
             + (if p.packages == [] then map[] else map["package" := TablesOf(AllPackagePairs(p.packages))]))
  }

  /** A scalar value of the basic multilingual plane: neither beyond it nor a surrogate. */
  predicate BasicPoint(c: CodePoint) {
    c < 0x1_0000 && IsScalar(c)
  }

  predicate Basic(s: PyString) {
    forall i :: 0 <= i < |s| ==> BasicPoint(s[i])
  }

  predicate BasicItem(item: Item) {
    match item
    case Text(s) => Basic(s)
    case Texts(items) => AllBasic(items)
    case _ => true
  }

  predicate BasicPairs(pairs: seq<KeyItem>) {
    forall i :: 0 <= i < |pairs| ==> BasicItem(pairs[i].item)
  }

  predicate BasicLock(p: Lock) {
    && BasicPairs(RootPairs(p))
    && BasicTables(AllFilePairs(p.requirementFiles))
    && BasicTables(AllPackagePairs(p.packages))
  }

  predicate BasicTables(tables: seq<seq<KeyItem>>) {
    forall i :: 0 <= i < |tables| ==> BasicPairs(tables[i])
  }

  // ---------------------------------------------------------------- strings

  lemma Hex4Number(n: nat)
    requires n < 0x1_0000
    ensures HexNumber(Hex4(n)) == Some(n)
  {
    var x, y, z := n / 16 / 16 / 16, n / 16 / 16, n / 16;
    assert 16 * x + y % 16 == y && 16 * y + z % 16 == z && 16 * z + n % 16 == n;
    var a, b, c, d := HexDigit(x), HexDigit(y % 16), HexDigit(z % 16), HexDigit(n % 16);
    assert HexNumber("") == Some(0);
    hide HexNumber, HexDigit;
    assert "" + [a] == [a] && [a] + [b] == [a, b] && [a, b] + [c] == [a, b, c] && [a, b, c] + [d] == [a, b, c, d];
    HexAppend("", 0, x);
    HexAppend([a], x, y % 16);
    HexAppend([a, b], y, z % 16);
    HexAppend([a, b, c], z, n % 16);
  }

  lemma HexAppend(digits: string, high: nat, low: nat)
    requires low < 16 && HexNumber(digits) == Some(high)
    ensures HexNumber(digits + [HexDigit(low)]) == Some(16 * high + low)
  {
  }

  /** Reading an escaped code point gives it back, except that a surrogate escape is refused. */
  lemma ReadEscaped(c: CodePoint, tail: string)
    ensures EscapePoint(c)[0] == '\\' ==>
              EscapedChar(EscapePoint(c) + tail) == if BasicPoint(c) then Some((c, |EscapePoint(c)|)) else None
    ensures !BasicPoint(c) ==> EscapePoint(c)[0] == '\\'
  {
    var e := EscapePoint(c) + tail;
    if EscapePoint(c)[0] == '\\' && EscapePoint(c)[1] == 'u' {
      var code := if c < 0x1_0000 then c else 0xD800 + (c - 0x1_0000) / 1024;
      assert e[2..6] == Hex4(code);
      Hex4Number(code);
    }
  }

  /** An escaped code point is an escape, or the character itself where a basic string may hold it as it is. */
  lemma EscapeShape(c: CodePoint)
    ensures EscapePoint(c) != [] && EscapePoint(c)[0] != '"'
    ensures EscapePoint(c)[0] != '\\' ==> 32 <= c <= 126 && EscapePoint(c) == [c as char] && !IsControl(c as char)
  {
  }

  /** Reading a quoted string gives it back when all of it is basic, and fails otherwise. */
  lemma {:induction false} ReadQuoted(s: PyString, tail: string)
    ensures BasicString(Escape(s) + "\"" + tail) == if Basic(s) then Some((s, tail)) else None
  {
    hide EscapePoint, EscapedChar, IsControl, BasicPoint;
    if s == [] {
      assert Escape(s) + "\"" + tail == ['"'] + tail;
    } else {
      var c, rest := s[0], Escape(s[1..]) + "\"" + tail;
      var text := Escape(s) + "\"" + tail;
      assert text == EscapePoint(c) + rest;
      EscapeShape(c);
      ReadEscaped(c, rest);
      ReadQuoted(s[1..], tail);
      assert Basic(s) <==> BasicPoint(c) && Basic(s[1..]);
      assert s == [c] + s[1..];
      if EscapePoint(c)[0] == '\\' {
        assert text[|EscapePoint(c)|..] == rest;
      } else {
        assert text[1..] == rest;
      }
    }
  }

  predicate AllBasic(items: seq<PyString>) {
    forall i :: 0 <= i < |items| ==> Basic(items[i])
  }

  /** The first item of an array, followed by the closing bracket or by a comma and the other items. */
  lemma ReadFirstItem(item: PyString, after: string)
    requires after != [] && (after[0] == ']' || after[0] == ',')
    ensures TextItems(Quote(item) + after) ==
      if !Basic(item) then None
      else if after[0] == ']' then Some(([item], after[1..]))
      else var rest := TextItems(after[1..]); if rest.None? then None else Some(([item] + rest.value.0, rest.value.1))
  {
    hide BasicString, Escape, Basic;
    var text := Quote(item) + after;
    assert text == ['"'] + (Escape(item) + "\"" + after) && text[1..] == Escape(item) + "\"" + after;
    ReadQuoted(item, after);
  }

  /** The printed items, taken apart after the first one. */
  lemma QuotedItemsText(items: seq<PyString>, tail: string)
    ensures items == [] ==> QuotedItems(items) + "]" + tail == "]" + tail
    ensures |items| == 1 ==> QuotedItems(items) + "]" + tail == Quote(items[0]) + ("]" + tail)
    ensures |items| > 1 ==>
      QuotedItems(items) + "]" + tail == Quote(items[0]) + ("," + (" " + (QuotedItems(items[1..]) + "]" + tail)))
  {
    hide Quote;
    if |items| > 1 {
      Regroup(Quote(items[0]), QuotedItems(items[1..]), tail);
    } else if |items| == 1 {
      Assoc(Quote(items[0]), "]", tail);
    }
  }

  lemma Regroup(a: string, b: string, tail: string)
    ensures a + ", " + b + "]" + tail == a + ("," + (" " + (b + "]" + tail)))
  {
    Assoc(a + ", ", b, "]");
    Assoc(a + ", ", b + "]", tail);
    Assoc(a, ", ", b + "]" + tail);
    Assoc(",", " ", b + "]" + tail);
    assert "," + " " == ", ";
  }

  lemma Assoc(a: string, b: string, c: string)
    ensures a + b + c == a + (b + c)
  {
  }

  lemma {:induction false} ReadQuotedItems(items: seq<PyString>, tail: string)
    ensures TextItems(QuotedItems(items) + "]" + tail) == if AllBasic(items) then Some((items, tail)) else None
  {
    QuotedItemsText(items, tail);
    if items == [] {
      NoItems(tail);
    } else {
      hide Quote, Basic, TextItems, QuotedItems;
      if |items| == 1 {
        ReadFirstItem(items[0], "]" + tail);
        assert items == [items[0]] && ("]" + tail)[1..] == tail;
      } else {
        var rest := QuotedItems(items[1..]) + "]" + tail;
        ReadFirstItem(items[0], "," + (" " + rest));
        assert ("," + (" " + rest))[1..] == " " + rest;
        SkipOneBlank(rest);
        ReadQuotedItems(items[1..], tail);
        assert items == [items[0]] + items[1..];
        assert AllBasic(items) <==> Basic(items[0]) && AllBasic(items[1..]);
      }
    }
  }

  lemma NoItems(tail: string)
    ensures TextItems("]" + tail) == Some(([], tail))
  {
  }

  lemma SkipOneBlank(s: string)
    ensures SkipBlanks(" " + s) == SkipBlanks(s)
    ensures TextItems(" " + s) == TextItems(s)
  {
  }

  // ---------------------------------------------------------------- integers

  lemma {:induction false} DecimalDigits(n: nat)
    ensures |Decimal(n)| > 0 && forall i :: 0 <= i < |Decimal(n)| ==> IsDigit(Decimal(n)[i])
    ensures DigitsValue(Decimal(n)) == n
    ensures Decimal(n)[0] == '0' ==> n == 0
  {
    if n < 10 {
      assert Decimal(n)[..0] == [];
    } else {
      DecimalDigits(n / 10);
      assert Decimal(n)[..|Decimal(n)| - 1] == Decimal(n / 10);
    }
  }

  lemma {:induction false} DigitRunOf(digits: string, tail: string)
    requires forall i :: 0 <= i < |digits| ==> IsDigit(digits[i])
    requires tail == [] || !IsDigit(tail[0])
    ensures DigitRun(digits + tail) == |digits|
  {
    if digits != [] {
      assert IsDigit(digits[0]);
      assert (digits + tail)[1..] == digits[1..] + tail;
      DigitRunOf(digits[1..], tail);
    } else {
      assert digits + tail == tail;
    }
  }

  lemma ReadDecimal(n: nat)
    ensures UnsignedInteger(Decimal(n)) == Some((n, ""))
  {
    DecimalDigits(n);
    DigitRunOf(Decimal(n), "");
    var d := Decimal(n);
    assert d + "" == d && d[..|d|] == d && d[|d|..] == "";
  }

  // ---------------------------------------------------------------- one line

  lemma ReadShown(item: Item)
    ensures Value(Shown(item)) == if BasicItem(item) then Some((item, "")) else None
    ensures Shown(item) != [] && Shown(item)[0] != ' ' && Shown(item)[0] != '\t'
  {
    hide BasicString, TextItems, UnsignedInteger, Decimal, Escape, QuotedItems, Basic, AllBasic;
    var shown := Shown(item);
    match item
    case Integer(n) =>
      DecimalDigits(if n < 0 then -n else n);
      ReadDecimal(if n < 0 then -n else n);
      if n < 0 {
        assert shown[1..] == Decimal(-n);
      } else {
        assert IsDigit(shown[0]);
      }
    case Text(s) =>
      ReadQuoted(s, "");
      assert shown[1..] == Escape(s) + "\"" + "";
    case Boolean(b) =>
      assert if b then shown[4..] == "" else shown[5..] == "" && shown[0] == 'f';
    case Texts(items) =>
      ReadQuotedItems(items, "");
      assert shown[1..] == QuotedItems(items) + "]" + "";
  }

  predicate BareKey(key: string) {
    key != [] && forall i :: 0 <= i < |key| ==> IsBare(key[i])
  }

  lemma {:induction false} BareRunOf(key: string, tail: string)
    requires forall i :: 0 <= i < |key| ==> IsBare(key[i])
    requires tail == [] || !IsBare(tail[0])
    ensures BareRun(key + tail) == |key|
  {
    if key != [] {
      assert IsBare(key[0]);
      assert (key + tail)[1..] == key[1..] + tail;
      BareRunOf(key[1..], tail);
    } else {
      assert key + tail == tail;
    }
  }

  lemma ReadPairLine(key: string, item: Item)
    requires BareKey(key)
    ensures ReadLine(key + " = " + Shown(item)) == if BasicItem(item) then Some(Pair(key, item)) else None
  {
    hide Shown, Value, BasicItem;
    var shown := Shown(item);
    var s := key + " = " + shown;
    assert s == key + (" = " + shown);
    assert IsBare(s[0]);
    BareRunOf(key, " = " + shown);
    assert s[|key|..] == " = " + shown && s[..|key|] == key;
    ReadShown(item);
    SkipToValue(shown);
  }

  lemma SkipToValue(shown: string)
    requires shown != [] && shown[0] != ' ' && shown[0] != '\t'
    ensures SkipBlanks(" = " + shown) == "= " + shown
    ensures SkipBlanks(("= " + shown)[1..]) == shown
  {
  }

  lemma ReadArrayHeader(name: string)
    requires BareKey(name)
    ensures ReadLine("[[" + name + "]]") == Some(ArrayHeader(name))
  {
    var s := "[[" + name + "]]";
    assert s[2..] == name + "]]";
    BareRunOf(name, "]]");
    assert s[2 + |name|..] == "]]" && s[4 + |name|..] == "" && s[2..2 + |name|] == name;
    assert SkipBlanks(s) == s;
  }

  lemma ReadHeader(name: string)
    requires BareKey(name)
    ensures ReadLine("[" + name + "]") == Some(Header(name))
  {
    var s := "[" + name + "]";
    assert s[1..] == name + "]";
    BareRunOf(name, "]");
    assert s[1 + |name|..] == "]" && s[2 + |name|..] == "" && s[1..1 + |name|] == name;
    assert SkipBlanks(s) == s;
    assert s[1] == name[0];
  }

  // ---------------------------------------------------------------- sections

  /** The table the next key line writes to. At the root that is only so before the first header. */
  function Current(state: State): Option<Table> {
    match state.target
    case AtRoot => if state.doc.tables == map[] && state.doc.arrays == map[] then Some(state.doc.values) else None
    case InTable(name) => if name in state.doc.tables then Some(state.doc.tables[name]) else None
    case InArray(name) =>
      if name in state.doc.arrays && state.doc.arrays[name] != []
      then Some(state.doc.arrays[name][|state.doc.arrays[name]| - 1]) else None
  }

  function SetCurrent(state: State, t: Table): State
    requires Current(state).Some?
  {
    match state.target
    case AtRoot => state.(doc := state.doc.(values := t))
    case InTable(name) => state.(doc := state.doc.(tables := state.doc.tables[name := t]))
    case InArray(name) =>
      var tables := state.doc.arrays[name];
      state.(doc := state.doc.(arrays := state.doc.arrays[name := tables[..|tables| - 1] + [t]]))
  }

  lemma ApplyPair(state: State, t: Table, key: string, item: Item)
    requires Current(state).Some? && key !in t
    ensures Current(SetCurrent(state, t)) == Some(t)
    ensures Apply(SetCurrent(state, t), Pair(key, item)) == Some(SetCurrent(state, t[key := item]))
  {
    match state.target
    case AtRoot =>
    case InTable(name) =>
      var tables := state.doc.tables;
      assert tables[name := t][name := t[key := item]] == tables[name := t[key := item]];
    case InArray(name) =>
      var arrays := state.doc.arrays;
      var init := arrays[name][..|arrays[name]| - 1];
      assert (init + [t])[..|init|] == init;
      assert arrays[name := init + [t]][name := init + [t[key := item]]] == arrays[name := init + [t[key := item]]];
  }

  lemma SetCurrentSame(state: State)
    requires Current(state).Some?
    ensures SetCurrent(state, Current(state).value) == state
  {
    if state.target.InArray? {
      var tables := state.doc.arrays[state.target.name];
      assert tables[..|tables| - 1] + [tables[|tables| - 1]] == tables;
    }
  }

  predicate GoodKeys(pairs: seq<KeyItem>) {
    && (forall i :: 0 <= i < |pairs| ==> BareKey(pairs[i].key))
    && (forall i, j :: 0 <= i < j < |pairs| ==> pairs[i].key != pairs[j].key)
  }

  lemma {:induction false} TableKeys(pairs: seq<KeyItem>, key: string)
    ensures key in TableOf(pairs) <==> exists i :: 0 <= i < |pairs| && pairs[i].key == key
  {
    if pairs != [] {
      TableKeys(pairs[..|pairs| - 1], key);
    }
  }

  lemma {:induction false} PairLinesSnoc(pairs: seq<KeyItem>)
    requires pairs != []
    ensures var n := |pairs| - 1;
            PairLines(pairs) == PairLines(pairs[..n]) + [pairs[n].key + " = " + Shown(pairs[n].item)]
  {
    hide Shown;
    var n := |pairs| - 1;
    var x, y := PairLines(pairs), PairLines(pairs[..n]) + [pairs[n].key + " = " + Shown(pairs[n].item)];
    forall i | 0 <= i < |pairs|
      ensures x[i] == y[i]
    {
      if i < n {
        assert pairs[..n][i] == pairs[i];
      }
    }
  }

  lemma {:induction false} ReadPairLines(state: State, pairs: seq<KeyItem>)
    requires Current(state) == Some(map[]) && GoodKeys(pairs)
    ensures ReadLines(state, PairLines(pairs)) == if BasicPairs(pairs) then Some(SetCurrent(state, TableOf(pairs)))
        else None
  {
    hide Shown, BasicItem, ReadLine, Apply, SetCurrent;
    if pairs == [] {
      SetCurrentSame(state);
    } else {
      var n := |pairs| - 1;
      var init, last := pairs[..n], pairs[n];
      var line := last.key + " = " + Shown(last.item);
      ReadPairLines(state, init);
      PairLinesSnoc(pairs);
      ReadLinesConcat(state, PairLines(init), [line]);
      ReadPairLine(last.key, last.item);
      assert BasicPairs(pairs) <==> BasicPairs(init) && BasicItem(last.item);
      if BasicPairs(init) {
        TableKeys(init, last.key);
        ApplyPair(state, TableOf(init), last.key, last.item);
      }
    }
  }

  lemma ReadBlank(state: State)
    ensures ReadLines(state, [""]) == Some(state)
  {
  }

  /** A header line followed by its pairs and a blank line. */
  lemma ReadSection(state: State, header: string, entered: State, pairs: seq<KeyItem>)
    requires ReadLine(header).Some? && Apply(state, ReadLine(header).value) == Some(entered)
    requires Current(entered) == Some(map[]) && GoodKeys(pairs)
    ensures ReadLines(state, Section(header, pairs))
         == if BasicPairs(pairs) then Some(SetCurrent(entered, TableOf(pairs))) else None
  {
    hide ReadLine, Apply, SetCurrent, BasicPairs, PairLines;
    ReadPairLines(entered, pairs);
    ReadLinesConcat(state, [header], PairLines(pairs));
    ReadLinesConcat(state, [header] + PairLines(pairs), [""]);
    if BasicPairs(pairs) {
      ReadBlank(SetCurrent(entered, TableOf(pairs)));
    }
  }

  function Existing(doc: Document, name: string): seq<Table> {
    if name in doc.arrays then doc.arrays[name] else []
  }

  function WithArray(state: State, name: string, tables: seq<Table>): State {
    if tables == [] then state
    else State(state.doc.(arrays := state.doc.arrays[name := Existing(state.doc, name) + tables]), InArray(name))
  }

  lemma EnterArray(state: State, name: string, t: Table)
    requires name !in state.doc.values && name !in state.doc.tables
    ensures var entered := WithArray(state, name, [map[]]);
            && Apply(state, ArrayHeader(name)) == Some(entered)
            && Current(entered) == Some(map[])
            && SetCurrent(entered, t) == WithArray(state, name, [t])
  {
  }

  lemma WithArrayTwice(state: State, name: string, a: seq<Table>, b: seq<Table>)
    ensures WithArray(WithArray(state, name, a), name, b) == WithArray(state, name, a + b)
  {
    if a == [] {
      assert a + b == b;
    } else if b == [] {
      assert a + b == a;
    } else {
      var arrays, existing := state.doc.arrays, Existing(state.doc, name);
      assert existing + a + b == existing + (a + b);
      assert arrays[name := existing + a][name := existing + a + b] == arrays[name := existing + (a + b)];
    }
  }

  lemma ReadArraySection(state: State, name: string, pairs: seq<KeyItem>)
    requires BareKey(name) && name !in state.doc.values && name !in state.doc.tables && GoodKeys(pairs)
    ensures ReadLines(state, Section("[[" + name + "]]", pairs))
         == if BasicPairs(pairs) then Some(WithArray(state, name, [TableOf(pairs)])) else None
  {
    hide ReadLine, Apply, Section, BasicPairs, TableOf, Current, SetCurrent, WithArray;
    ReadArrayHeader(name);
    EnterArray(state, name, TableOf(pairs));
    ReadSection(state, "[[" + name + "]]", WithArray(state, name, [map[]]), pairs);
  }

  lemma {:induction false} ReadArraySections(state: State, name: string, tables: seq<seq<KeyItem>>)
    requires BareKey(name) && name !in state.doc.values && name !in state.doc.tables
    requires forall i :: 0 <= i < |tables| ==> GoodKeys(tables[i])
    ensures ReadLines(state, ArraySections(name, tables))
         == if BasicTables(tables) then Some(WithArray(state, name, TablesOf(tables))) else None
    decreases tables
  {
    hide Section, BasicPairs, TableOf, WithArray, GoodKeys, BareKey;
    if tables == [] {
      assert WithArray(state, name, []) == state by { NoTables(state, name); }
    } else {
      var first := Section("[[" + name + "]]", tables[0]);
      ReadArraySection(state, name, tables[0]);
      ReadLinesConcat(state, first, ArraySections(name, tables[1..]));
      assert BasicTables(tables) <==> BasicPairs(tables[0]) && BasicTables(tables[1..]);
      if BasicPairs(tables[0]) {
        var next := WithArray(state, name, [TableOf(tables[0])]);
        KeptByArray(state, name, [TableOf(tables[0])]);
        ReadArraySections(next, name, tables[1..]);
        WithArrayTwice(state, name, [TableOf(tables[0])], TablesOf(tables[1..]));
      }
    }
  }

  lemma NoTables(state: State, name: string)
    ensures WithArray(state, name, []) == state
  {
  }

  lemma KeptByArray(state: State, name: string, tables: seq<Table>)
    ensures WithArray(state, name, tables).doc.values == state.doc.values
    ensures WithArray(state, name, tables).doc.tables == state.doc.tables
  {
  }

  // ---------------------------------------------------------------- lines of the text

  predicate OneLine(s: string) {
    '\n' !in s
  }

  lemma {:induction false} LinesOfOne(s: string, rest: string)
    requires OneLine(s)
    ensures Lines(s) == [s]
    ensures Lines(s + "\n" + rest) == [s] + Lines(rest)
  {
    if s == [] {
      assert s + "\n" + rest == ['\n'] + rest;
    } else {
      LinesOfOne(s[1..], rest);
      assert s == [s[0]] + s[1..];
      assert (s + "\n" + rest)[1..] == s[1..] + "\n" + rest;
    }
  }

  lemma {:induction false} LinesOfJoin(lines: seq<string>)
    requires lines != [] && forall i :: 0 <= i < |lines| ==> OneLine(lines[i])
    ensures Lines(Join(lines)) == lines
  {
    if |lines| == 1 {
      LinesOfOne(lines[0], "");
    } else {
      LinesOfJoin(lines[1..]);
      LinesOfOne(lines[0], Join(lines[1..]));
    }
  }

  lemma PointOneLine(c: CodePoint)
    ensures OneLine(EscapePoint(c))
  {
  }

  lemma {:induction false} EscapeOneLine(s: PyString)
    ensures OneLine(Escape(s))
  {
    if s != [] {
      EscapeOneLine(s[1..]);
      PointOneLine(s[0]);
      hide EscapePoint;
    }
  }

  lemma {:induction false} ItemsOneLine(items: seq<PyString>)
    ensures OneLine(QuotedItems(items))
  {
    if items != [] {
      EscapeOneLine(items[0]);
      ItemsOneLine(items[1..]);
    }
  }

  lemma ShownOneLine(item: Item)
    ensures OneLine(Shown(item))
  {
    match item
    case Integer(n) => DecimalDigits(if n < 0 then -n else n);
    case Text(s) => EscapeOneLine(s);
    case Boolean(b) =>
    case Texts(items) => ItemsOneLine(items);
  }

  predicate AllOneLine(lines: seq<string>) {
    forall i :: 0 <= i < |lines| ==> OneLine(lines[i])
  }

  lemma SectionOneLine(header: string, pairs: seq<KeyItem>)
    requires OneLine(header) && GoodKeys(pairs)
    ensures AllOneLine(PairLines(pairs)) && AllOneLine(Section(header, pairs))
  {
    hide Shown;
    forall i | 0 <= i < |pairs|
      ensures OneLine(PairLines(pairs)[i])
    {
      assert BareKey(pairs[i].key);
      ShownOneLine(pairs[i].item);
    }
  }

  lemma {:induction false} ArraySectionsOneLine(name: string, tables: seq<seq<KeyItem>>)
    requires BareKey(name) && forall i :: 0 <= i < |tables| ==> GoodKeys(tables[i])
    ensures AllOneLine(ArraySections(name, tables))
    decreases tables
  {
    if tables != [] {
      SectionOneLine("[[" + name + "]]", tables[0]);
      ArraySectionsOneLine(name, tables[1..]);
    }
  }

  // ---------------------------------------------------------------- the keys of the payload

  lemma BareNames()
    ensures BareKey("requirement-files") && BareKey("package") && BareKey("summary")
    ensures BareKey("group") && BareKey("path") && BareKey("sha256")
    ensures BareKey("name") && BareKey("version") && BareKey("direct") && BareKey("groups") && BareKey("extras")
  {
  }

  lemma BareLongNames()
    ensures BareKey("revision") && BareKey("requires-python") && BareKey("generated-by")
    ensures BareKey("license-inventory") && BareKey("requirement-hashes")
  {
  }

  lemma BareSourceNames()
    ensures BareKey("authoritative-source") && BareKey("license-inventory-sha256")
  {
  }

  lemma BareCountNames()
    ensures BareKey("package-count") && BareKey("direct-package-count") && BareKey("transitive-package-count")
  {
  }

  lemma RootKeys(p: Lock)
    ensures GoodKeys(RootPairs(p))
  {
    hide BareKey;
    BareNames();
    BareLongNames();
    BareSourceNames();
  }

  lemma SummaryKeys(p: Lock)
    ensures GoodKeys(SummaryPairs(p))
  {
    hide BareKey;
    BareCountNames();
  }

  lemma RootNames(p: Lock)
    ensures "requirement-files" !in TableOf(RootPairs(p)) && "package" !in TableOf(RootPairs(p))
    ensures "summary" !in TableOf(RootPairs(p))
  {
    hide TableOf;
    TableKeys(RootPairs(p), "requirement-files");
    TableKeys(RootPairs(p), "package");
    TableKeys(RootPairs(p), "summary");
    assert "requirement-files"[2] == 'q' && "license-inventory"[2] == 'c';
  }

  lemma FileKeys(f: RequirementFile)
    ensures GoodKeys(FilePairs(f))
  {
  }

  lemma PackageKeys(p: Package)
    ensures GoodKeys(PackagePairs(p))
  {
    hide BareKey;
    BareNames();
    BareLongNames();
    assert "requirement-files"[2] == 'q';
    assert "direct"[0] == 'd' && "groups"[0] == 'g' && "extras"[0] == 'e';
  }

  // ---------------------------------------------------------------- the round trip

  lemma ReadRoot(p: Lock)
    ensures ReadLines(START, PairLines(RootPairs(p)) + [""])
         == if BasicPairs(RootPairs(p)) then Some(State(Document(TableOf(RootPairs(p)), map[], map[]), AtRoot))
             else None
  {
    hide ReadLine, Apply, RootPairs, TableOf, PairLines, BasicPairs;
    RootKeys(p);
    ReadPairLines(START, RootPairs(p));
    ReadLinesConcat(START, PairLines(RootPairs(p)), [""]);
    ReadBlank(State(Document(TableOf(RootPairs(p)), map[], map[]), AtRoot));
  }

  lemma BasicSummary(p: Lock)
    ensures BasicPairs(SummaryPairs(p))
  {
  }

  lemma ReadSummary(state: State, p: Lock)
    requires !Defined(state.doc, "summary")
    ensures ReadLines(state, Section("[summary]", SummaryPairs(p)))
         == Some(State(state.doc.(tables := state.doc.tables["summary" := TableOf(SummaryPairs(p))]),
             InTable("summary")))
  {
    hide ReadLine, SummaryPairs, TableOf, BasicPairs, Section;
    SummaryKeys(p);
    BasicSummary(p);
    BareNames();
    ReadHeader("summary");
    assert "[" + "summary" + "]" == "[summary]";
    var entered := State(state.doc.(tables := state.doc.tables["summary" := map[]]), InTable("summary"));
    ReadSection(state, "[summary]", entered, SummaryPairs(p));
    var tables := state.doc.tables;
    assert tables["summary" := map[]]["summary" := TableOf(SummaryPairs(p))]
        == tables["summary" := TableOf(SummaryPairs(p))];
  }

  lemma LiteralsOneLine()
    ensures OneLine("") && OneLine("[summary]")
  {
  }

  lemma LockLinesOneLine(p: Lock)
    ensures AllOneLine(LockLines(p))
  {
    hide RootPairs, FilePairs, PackagePairs, SummaryPairs, OneLine, GoodKeys, BareKey, Section, PairLines,
         ArraySections;
    RootKeys(p);
    SummaryKeys(p);
    BareNames();
    LiteralsOneLine();
    forall f ensures GoodKeys(FilePairs(f)) { FileKeys(f); }
    forall q ensures GoodKeys(PackagePairs(q)) { PackageKeys(q); }
    SectionOneLine("", RootPairs(p));
    SectionOneLine("[summary]", SummaryPairs(p));
    ArraySectionsOneLine("requirement-files", AllFilePairs(p.requirementFiles));
    ArraySectionsOneLine("package", AllPackagePairs(p.packages));
    var a, b := PairLines(RootPairs(p)) + [""], ArraySections("requirement-files", AllFilePairs(p.requirementFiles));
    var c, d := ArraySections("package", AllPackagePairs(p.packages)), Section("[summary]", SummaryPairs(p));
    assert AllOneLine(a);
    assert AllOneLine(a + b);
    assert AllOneLine(a + b + c);
    assert AllOneLine(a + b + c + d);
  }

  /** The states the reader passes through, section by section. */
  function RootState(p: Lock): State {
    State(Document(TableOf(RootPairs(p)), map[], map[]), AtRoot)
  }

  function FilesState(p: Lock): State {
    WithArray(RootState(p), "requirement-files", TablesOf(AllFilePairs(p.requirementFiles)))
  }

  function PackagesState(p: Lock): State {
    WithArray(FilesState(p), "package", TablesOf(AllPackagePairs(p.packages)))
  }

  lemma StatesKeepNames(p: Lock)
    ensures "requirement-files" !in RootState(p).doc.values && "requirement-files" !in RootState(p).doc.tables
    ensures "package" !in FilesState(p).doc.values && "package" !in FilesState(p).doc.tables
    ensures !Defined(PackagesState(p).doc, "summary")
    ensures PackagesState(p).doc.(tables := map["summary" := TableOf(SummaryPairs(p))]) == PrintedDocument(p)
    ensures PackagesState(p).doc.tables == map[]
  {
    hide TableOf, TablesOf, AllFilePairs, AllPackagePairs, RootPairs, SummaryPairs;
    RootNames(p);
    assert "summary"[0] == 's' && "package"[0] == 'p' && "requirement-files"[0] == 'r';
    var files, packages := TablesOf(AllFilePairs(p.requirementFiles)), TablesOf(AllPackagePairs(p.packages));
    assert [] + files == files && [] + packages == packages;
    assert PackagesState(p).doc.arrays == PrintedDocument(p).arrays;
  }

  /** Reading the printed text: it fails when some string leaves the basic plane or holds a surrogate, and otherwise
      gives the payload without the lists that are empty. */
  lemma ReadPrinted(p: Lock)
    ensures Read(ToToml(p)) == if BasicLock(p) then Some(PrintedDocument(p)) else None
  {
    hide RootPairs, SummaryPairs, TableOf, TablesOf, PairLines, ArraySections, Section, BasicPairs, BasicTables,
         WithArray, PrintedDocument, GoodKeys, BareKey, Defined, AllFilePairs, AllPackagePairs;
    LockLinesOneLine(p);
    LinesOfJoin(LockLines(p));
    StatesKeepNames(p);
    BareNames();
    var a, b := PairLines(RootPairs(p)) + [""], ArraySections("requirement-files", AllFilePairs(p.requirementFiles));
    var c, d := ArraySections("package", AllPackagePairs(p.packages)), Section("[summary]", SummaryPairs(p));
    assert LockLines(p) == a + b + c + d;
    ReadRoot(p);
    ReadLinesConcat(START, a, b);
    ReadLinesConcat(START, a + b, c);
    ReadLinesConcat(START, a + b + c, d);
    FileTablesGood(p);
    if BasicPairs(RootPairs(p)) {
      ReadArraySections(RootState(p), "requirement-files", AllFilePairs(p.requirementFiles));
      if BasicTables(AllFilePairs(p.requirementFiles)) {
        ReadArraySections(FilesState(p), "package", AllPackagePairs(p.packages));
        if BasicTables(AllPackagePairs(p.packages)) {
          ReadSummary(PackagesState(p), p);
        }
      }
    }
  }

  lemma FileTablesGood(p: Lock)
    ensures forall i :: 0 <= i < |AllFilePairs(p.requirementFiles)| ==> GoodKeys(AllFilePairs(p.requirementFiles)[i])
    ensures forall i :: 0 <= i < |AllPackagePairs(p.packages)| ==> GoodKeys(AllPackagePairs(p.packages)[i])
  {
    hide FilePairs, PackagePairs, GoodKeys;
    forall f ensures GoodKeys(FilePairs(f)) { FileKeys(f); }
    forall q ensures GoodKeys(PackagePairs(q)) { PackageKeys(q); }
  }

  /** Exactly when `write-lock` followed by loading the file returns the payload. */
  lemma RoundTripIff(p: Lock)
    ensures Read(ToToml(p)) == Some(PayloadDocument(p)) <==>
        BasicLock(p) && p.requirementFiles != [] && p.packages != []
  {
    hide TableOf, TablesOf, RootPairs, SummaryPairs, BasicLock, Read, ToToml;
    ReadPrinted(p);
    PrintedIsPayloadIff(p);
  }

  lemma PrintedIsPayloadIff(p: Lock)
    ensures PrintedDocument(p) == PayloadDocument(p) <==> p.requirementFiles != [] && p.packages != []
  {
    hide TableOf, TablesOf, RootPairs, SummaryPairs;
    var printed, payload := PrintedDocument(p), PayloadDocument(p);
    if p.requirementFiles == [] {
      assert "requirement-files" in payload.arrays && "requirement-files" !in printed.arrays by {
        assert "requirement-files"[0] == 'r' && "package"[0] == 'p';
      }
    } else if p.packages == [] {
      assert "package" in payload.arrays && "package" !in printed.arrays by {
        assert "requirement-files"[0] == 'r' && "package"[0] == 'p';
      }
    } else {
      assert printed.arrays == payload.arrays;
    }
  }

  /** A lock with one requirement file and the given packages. */
  function SmallLock(packages: seq<Package>): Lock {
    var file := RequirementFile(Points("runtime"), Points("requirements.txt"), []);
    Lock(1, 4, Points(">=3.11"), Points("requirements"), [], [], [], [file], packages, |packages|, 0, |packages|)
  }

  /** A lock without packages is a payload that does not read back. */
  lemma NoPackagesNotReadBack()
    ensures var p := SmallLock([]); Read(ToToml(p)) != Some(PayloadDocument(p))
  {
    var p := SmallLock([]);
    assert p.packages == [];
    hide Read, ToToml, PayloadDocument, BasicLock, SmallLock;
    RoundTripIff(p);
  }

  /** Nor is a lock with a version beyond the basic plane, or with a lone surrogate in it, which JSON may hold. */
  lemma VersionNotReadBack(c: CodePoint)
    requires c == 0x1_F600 || c == 0xD800
    ensures var p := SmallLock([Package(Points("a"), [c], false, [], [], [], [])]); Read(ToToml(p)) == None
  {
    var a := Package(Points("a"), [c], false, [], [], [], []);
    var p := SmallLock([a]);
    assert p.packages == [a] && PackagePairs(a)[1].item == Text([c]);
    assert !BasicPoint([c][0]);
    assert !BasicItem(PackagePairs(a)[1].item);
    assert AllPackagePairs(p.packages)[0] == PackagePairs(a);
    assert !BasicPairs(AllPackagePairs(p.packages)[0]);
    hide Read, ToToml, BasicPairs, SmallLock;
    ReadPrinted(p);
  }

  // ---------------------------------------------------------------- the lock check

  datatype Failure = WrongSource | PythonUnsupported | Stale | Missing(names: set<PyString>)
    | Extra(names: set<PyString>) | VersionsDiffer(names: set<PyString>)

  /** What lies outside this model: `str()` of a value that may be `None`, and the test of the Python version
      specifier. */
  datatype Environment = Environment(show: Option<Item> -> PyString, supports: Option<Item> -> bool)

  function Get(t: Table, key: string): Option<Item> {
    if key in t then Some(t[key]) else None
  }

  function PackageList(doc: Document): seq<Table> {
    if "package" in doc.arrays then doc.arrays["package"] else []
  }

  /** The version of the last package of each name, both as texts. */
  function Versions(env: Environment, packages: seq<Table>): map<PyString, PyString> {
    if packages == [] then map[]
    else
      var last := packages[|packages| - 1];
      Versions(env, packages[..|packages| - 1])[env.show(Get(last, "name")) := env.show(Get(last, "version"))]
  }

  /** `validate_dependency_lock`. The names of all version mismatches are gathered in one failure. */
  function Failures(env: Environment, locked: Document, expected: Document): seq<Failure> {
    (if Get(locked.values, "authoritative-source") != Some(Text(Points("requirements"))) then [WrongSource] else [])
    + (if !env.supports(Get(locked.values, "requires-python")) then [PythonUnsupported] else [])
    + (if locked != expected then [Stale] else [])
    + MismatchFailures(Versions(env, PackageList(locked)), Versions(env, PackageList(expected)))
  }

  function Differing(a: map<PyString, PyString>, b: map<PyString, PyString>): set<PyString> {
    set name | name in a.Keys * b.Keys && a[name] != b[name]
  }

  /** `_package_mismatch_failures`. */
  function MismatchFailures(a: map<PyString, PyString>, b: map<PyString, PyString>): seq<Failure> {
    (if b.Keys - a.Keys != {} then [Missing(b.Keys - a.Keys)] else [])
    + (if a.Keys - b.Keys != {} then [Extra(a.Keys - b.Keys)] else [])
    + (if Differing(a, b) != {} then [VersionsDiffer(Differing(a, b))] else [])
  }

  /** The failures as they are appended, over dictionaries filled package by package. */
  method Validate(env: Environment, locked: Document, expected: Document) returns (failures: seq<Failure>)
    ensures failures == Failures(env, locked, expected)
  {
    failures := [];
    if Get(locked.values, "authoritative-source") != Some(Text(Points("requirements"))) {
      failures := failures + [WrongSource];
    }
    if !env.supports(Get(locked.values, "requires-python")) {
      failures := failures + [PythonUnsupported];
    }
    if locked != expected {
      failures := failures + [Stale];
    }
    var mismatches := PackageMismatches(env, PackageList(locked), PackageList(expected));
    failures := failures + mismatches;
  }

  method PackageMismatches(env: Environment, locked: seq<Table>, expected: seq<Table>) returns (failures: seq<Failure>)
    ensures failures == MismatchFailures(Versions(env, locked), Versions(env, expected))
  {
    hide Versions, Differing;
    var a := VersionsByName(env, locked);
    var b := VersionsByName(env, expected);
    failures := [];
    if b.Keys - a.Keys != {} {
      failures := failures + [Missing(b.Keys - a.Keys)];
    }
    if a.Keys - b.Keys != {} {
      failures := failures + [Extra(a.Keys - b.Keys)];
    }
    var differing := CollectDiffering(a, b);
    if differing != {} {
      failures := failures + [VersionsDiffer(differing)];
    }
  }

  method CollectDiffering(a: map<PyString, PyString>, b: map<PyString, PyString>)
        returns (differing: set<PyString>)
    ensures differing == Differing(a, b)
  {
    differing := {};
    var both := a.Keys * b.Keys;
    var rest := both;
    while rest != {}
      invariant rest <= both
      invariant forall n :: n in differing <==> n in both && n !in rest && a[n] != b[n]
      decreases |rest|
    {
      var name :| name in rest;
      if a[name] != b[name] {
        differing := differing + {name};
      }
      rest := rest - {name};
    }
  }

  method VersionsByName(env: Environment, packages: seq<Table>) returns (versions: map<PyString, PyString>)
    ensures versions == Versions(env, packages)
  {
    versions := map[];
    for i := 0 to |packages|
      invariant versions == Versions(env, packages[..i])
    {
      assert packages[..i + 1][..i] == packages[..i];
      versions := versions[env.show(Get(packages[i], "name")) := env.show(Get(packages[i], "version"))];
    }
    assert packages[..|packages|] == packages;
  }

  /** The check is silent exactly on the expected document, when that one is acceptable by itself. */
  lemma SilentIff(env: Environment, locked: Document, expected: Document)
    ensures Failures(env, locked, expected) == [] <==>
      && locked == expected
      && Get(expected.values, "authoritative-source") == Some(Text(Points("requirements")))
      && env.supports(Get(expected.values, "requires-python"))
  {
  }

  lemma SamePackages(p: Lock)
    ensures PackageList(PrintedDocument(p)) == PackageList(PayloadDocument(p))
  {
  }

  /** What the check reports on a lock file it has just written: never a missing, extra or changed package, and a
      stale file exactly when the payload has no requirement file or no package. */
  lemma WrittenLockFailures(env: Environment, p: Lock)
    requires BasicLock(p) && p.authoritativeSource == Points("requirements")
    requires env.supports(Some(Text(p.requiresPython)))
    ensures Read(ToToml(p)).Some?
    ensures Failures(env, Read(ToToml(p)).value, PayloadDocument(p))
         == if p.requirementFiles == [] || p.packages == [] then [Stale] else []
  {
    hide BasicLock, Versions, PrintedDocument, PayloadDocument;
    ReadPrinted(p);
    RoundTripIff(p);
    SamePackages(p);
    RootValues(p);
  }

  /** Exactly when the check passes a lock file just written. */
  lemma WrittenLockPassesIff(env: Environment, p: Lock)
    requires p.authoritativeSource == Points("requirements") && env.supports(Some(Text(p.requiresPython)))
    ensures Read(ToToml(p)).Some? && Failures(env, Read(ToToml(p)).value, PayloadDocument(p)) == []
       <==> BasicLock(p) && p.requirementFiles != [] && p.packages != []
  {
    RootValues(p);
    assert PayloadDocument(p).values == PrintedDocument(p).values;
    hide Read, ToToml, Failures, PayloadDocument, PrintedDocument, BasicLock;
    RoundTripIff(p);
    if Read(ToToml(p)).Some? {
      SilentIff(env, Read(ToToml(p)).value, PayloadDocument(p));
    }
  }

  lemma RootValues(p: Lock)
    ensures Get(PrintedDocument(p).values, "authoritative-source") == Some(Text(p.authoritativeSource))
    ensures Get(PrintedDocument(p).values, "requires-python") == Some(Text(p.requiresPython))
  {
    var pairs := RootPairs(p);
    RootKeys(p);
    TableValue(pairs, 2);
    TableValue(pairs, 3);
  }

  lemma {:induction false} TableValue(pairs: seq<KeyItem>, k: nat)
    requires k < |pairs| && GoodKeys(pairs)
    ensures Get(TableOf(pairs), pairs[k].key) == Some(pairs[k].item)
  {
    if k < |pairs| - 1 {
      TableValue(pairs[..|pairs| - 1], k);
    }
  }
}
