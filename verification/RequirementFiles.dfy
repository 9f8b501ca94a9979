/** The three readers of requirement files: license evidence, dependency lock, and dependency health. */
module RequirementFiles {
  import opened Common
  import PackageNames
  import Text

  // ---------------------------------------------------------------- lines

  /** What one line means to a reader. `Fails` is an exception. */
  datatype Line = Skip | Include(target: string) | Requires(name: string) | Fails

  /** `packaging`'s parser: the name of a requirement line, if the line is one, and whether it has exactly one `==`
      pin. */
  datatype Grammar = Grammar(parse: string -> Option<string>, pinned: string -> bool)

  /** `line.split("#", 1)[0]`. */
  function CutComment(line: string): (r: string)
    ensures r <= line && '#' !in r
    ensures |r| < |line| ==> line[|r|] == '#'
  {
    if line == [] || line[0] == '#' then [] else [line[0]] + CutComment(line[1..])
  }

  predicate IsInclude(line: string) {
    "-r " <= line || "--requirement " <= line
  }

  function IncludeTarget(line: string): string
    requires IsInclude(line)
  {
    Text.Strip(if "-r " <= line then line[3..] else line[14..])
  }

  /** The license reader: the comment goes first, and a line that is no requirement is skipped. */
  function LicenseLine(grammar: Grammar, raw: string): Line {
    var line := Text.Strip(CutComment(raw));
    if line == "" then Skip
    else if IsInclude(line) then Include(IncludeTarget(line))
    else if line[0] == '-' then Skip
    else match grammar.parse(line)
      case None => Skip
      case Some(name) => Requires(PackageNames.Canonical(name))
  }

  /** The lock reader raises on a requirement without exactly one pin. */
  function LockLine(grammar: Grammar, raw: string): Line {
    var line := LicenseLine(grammar, raw);
    if line.Requires? && !grammar.pinned(Text.Strip(CutComment(raw))) then Fails else line
  }

  predicate IsNameChar(c: char) {
    'A' <= c <= 'Z' || 'a' <= c <= 'z' || '0' <= c <= '9' || PackageNames.IsSeparator(c)
  }

  /** The regular expression `^([A-Za-z0-9_.-]+)`. */
  function NameRun(line: string): string {
    if line == [] || !IsNameChar(line[0]) then [] else [line[0]] + NameRun(line[1..])
  }

  /** `_extract_requirement_name`. */
  function ExtractName(raw: string): Option<string> {
    var line := Text.Strip(CutComment(raw));
    if line == "" || NameRun(line) == "" then None else Some(PackageNames.Canonical(NameRun(line)))
  }

  /** The health reader: includes are recognised before any comment is cut. */
  function HealthLine(raw: string): Line {
    var line := Text.Strip(raw);
    if line == "" || line[0] == '#' then Skip
    else if IsInclude(line) then Include(IncludeTarget(line))
    else if line[0] == '-' then Skip
    else match ExtractName(line)
      case None => Skip
      case Some(name) => Requires(name)
  }

  /** A requirement line starts with its name, and the name ends where the regular expression stops. */
  ghost predicate NamesFirst(grammar: Grammar) {
    forall line | grammar.parse(line).Some? :: NameRun(line) == grammar.parse(line).value && NameRun(line) != ""
  }

  // ---------------------------------------------------------------- when the readers agree on a line

  function Indent(s: string): (k: nat)
    ensures k <= |s| && forall i :: 0 <= i < k ==> Text.IsSpace(s[i])
    ensures k < |s| ==> !Text.IsSpace(s[k])
  {
    if s != [] && Text.IsSpace(s[0]) then 1 + Indent(s[1..]) else 0
  }

  lemma {:induction false} StripLeftAt(s: string, k: nat)
    requires k <= |s| && (forall i :: 0 <= i < k ==> Text.IsSpace(s[i])) && (k < |s| ==> !Text.IsSpace(s[k]))
    ensures Text.StripLeft(s) == s[k..]
  {
    if k > 0 {
      StripLeftAt(s[1..], k - 1);
    } else {
      assert s[0..] == s;
    }
  }

  lemma {:induction false} StripRightShape(s: string)
    ensures Text.StripRight(s) <= s
    ensures forall i :: |Text.StripRight(s)| <= i < |s| ==> Text.IsSpace(s[i])
    ensures Text.StripRight(s) != [] ==> !Text.IsSpace(Text.StripRight(s)[|Text.StripRight(s)| - 1])
  {
    if s != [] && Text.IsSpace(s[|s| - 1]) {
      StripRightShape(s[..|s| - 1]);
    }
  }

  lemma {:induction false} CutAt(s: string, n: nat)
    requires n < |s| && s[n] == '#' && '#' !in s[..n]
    ensures CutComment(s) == s[..n]
  {
  }

  /** A line stripped before and after its comment is cut: the second is a prefix of the first, it is empty exactly
      when the first is empty or a comment, and cutting the first gives the second. */
  lemma StripAndCut(raw: string)
    ensures var s, t := Text.Strip(raw), Text.Strip(CutComment(raw));
            && t <= s
            && (t == "" <==> s == "" || s[0] == '#')
            && ('#' !in raw ==> t == s)
            && ('#' in raw && t != "" ==> '#' in s)
            && '#' !in t
            && Text.Strip(CutComment(s)) == t
  {
    hide Text.Strip, CutComment;
    if '#' in raw {
      StripAndCutCommented(raw);
    } else {
      WholeLine(raw);
      NoCommentNoCut(Text.Strip(raw), raw);
      StripTwice(raw);
    }
  }

  lemma WholeLine(raw: string)
    requires '#' !in raw
    ensures CutComment(raw) == raw
  {
  }

  lemma StripAndCutCommented(raw: string)
    requires '#' in raw
    ensures var s, t := Text.Strip(raw), Text.Strip(CutComment(raw));
            && t <= s && '#' in s && '#' !in t
            && (t == "" <==> s[0] == '#')
            && Text.Strip(CutComment(s)) == t
  {
    hide Text.StripLeft, Text.StripRight, CutComment;
    var k, j := Indent(raw), |CutComment(raw)|;
    assert j == |raw| ==> CutComment(raw) == raw;
    assert k <= j;
    var body, n := raw[k..], j - k;
    assert body[n] == '#' && CutComment(raw)[k..] == body[..n];
    var s, t := Text.StripRight(body), Text.StripRight(body[..n]);
    StripLeftAt(raw, k);
    StripLeftAt(CutComment(raw), k);
    StripRightShape(body);
    StripRightShape(body[..n]);
    assert n < |s| && s[n] == '#' && s[..n] == body[..n];
    assert forall i :: 0 <= i < n ==> body[i] == CutComment(raw)[k + i];
    CutAt(s, n);
    StripLeftAt(s[..n], 0);
    assert s[..n][0..] == s[..n];
  }

  lemma StripTwice(raw: string)
    ensures Text.Strip(Text.Strip(raw)) == Text.Strip(raw)
  {
    var k := Indent(raw);
    StripLeftAt(raw, k);
    StripRightShape(raw[k..]);
    var s := Text.Strip(raw);
    StripLeftAt(s, 0);
    assert s[0..] == s;
  }

  lemma NoCommentNoCut(s: string, raw: string)
    requires s == Text.Strip(raw) && '#' !in raw
    ensures CutComment(s) == s && '#' !in s
  {
    StripLeftAt(raw, Indent(raw));
    StripRightShape(raw[Indent(raw)..]);
    assert forall c :: c in s ==> c in raw;
    WholeLine(s);
  }

  /** The target of an include line holds a comment mark when the line does. */
  lemma TargetMarks(s: string)
    requires IsInclude(s)
    ensures '#' in IncludeTarget(s) <==> '#' in s
  {
    hide Text.Strip;
    var n := if "-r " <= s then 3 else 14;
    assert s == s[..n] + s[n..];
    assert "-r " <= s ==> s[..n] == "-r ";
    assert !("-r " <= s) ==> s[..n] == "--requirement ";
    StripMarks(s[n..]);
  }

  lemma StripMarks(x: string)
    ensures '#' in Text.Strip(x) <==> '#' in x
  {
    hide Text.StripLeft, Text.StripRight;
    var k := Indent(x);
    StripLeftAt(x, k);
    StripRightShape(x[k..]);
    var y := Text.Strip(x);
    if '#' in x {
      var j :| 0 <= j < |x| && x[j] == '#';
      assert k <= j && x[k..][j - k] == '#';
      assert y[j - k] == '#';
    }
  }

  /** Exactly when the license reader and the health reader take a line to mean the same: an include line carries no
      comment, and a requirement line is one `packaging` accepts or has no name in front. */
  lemma LineAgreesIff(grammar: Grammar, raw: string)
    requires NamesFirst(grammar)
    ensures var s, t := Text.Strip(raw), Text.Strip(CutComment(raw));
            LicenseLine(grammar, raw) == HealthLine(raw) <==>
              && (IsInclude(s) ==> '#' !in raw)
              && (t != "" && s != "" && s[0] != '-' ==> grammar.parse(t).Some? || NameRun(t) == "")
  {
    hide Text.Strip, CutComment, IncludeTarget, NameRun;
    var s, t := Text.Strip(raw), Text.Strip(CutComment(raw));
    StripAndCut(raw);
    if t != "" {
      assert s[0] == t[0];
      if IsInclude(s) {
        assert s[0] == '-';
        TargetMarks(s);
        if IsInclude(t) {
          TargetMarks(t);
        }
      } else if s[0] != '-' {
        assert ExtractName(s) == if NameRun(t) == "" then None else Some(PackageNames.Canonical(NameRun(t)));
      }
    }
  }

  // ---------------------------------------------------------------- reading a file and what it includes

  /** The files by resolved path, and the resolved path an include target leads to. */
  datatype Tree = Tree(files: map<string, seq<string>>, resolve: (string, string) -> string)

  /** What one call adds: the names in reading order and the files it opened in order. */
  datatype Reading = Reading(names: seq<string>, files: seq<string>)

  function FileSet(files: seq<string>): set<string> {
    set f | f in files
  }

  /** The reader with line rule `rule`; `None` when a file is missing or a line fails. */
  function Read(tree: Tree, rule: string -> Line, path: string, visited: set<string>): Option<Reading>
    decreases tree.files.Keys - visited, 0, 0
  {
    if path in visited then Some(Reading([], []))
    else if path !in tree.files then None
    else
      match ReadLines(tree, rule, path, tree.files[path], visited + {path})
      case None => None
      case Some(r) => Some(Reading(r.names, [path] + r.files))
  }

  function ReadLines(tree: Tree, rule: string -> Line, path: string, lines: seq<string>,
                     visited: set<string>): Option<Reading>
    decreases tree.files.Keys - visited, |lines|
  {
    if lines == [] then Some(Reading([], []))
    else
      match ReadOne(tree, rule, path, lines[0], visited)
      case None => None
      case Some(first) =>
        match ReadLines(tree, rule, path, lines[1..], visited + FileSet(first.files))
        case None => None
        case Some(rest) => Some(Reading(first.names + rest.names, first.files + rest.files))
  }

  function ReadOne(tree: Tree, rule: string -> Line, path: string, line: string, visited: set<string>): Option<Reading>
    decreases tree.files.Keys - visited, 0, 1
  {
    match rule(line)
    case Skip => Some(Reading([], []))
    case Fails => None
    case Requires(name) => Some(Reading([name], []))
    case Include(target) => Read(tree, rule, tree.resolve(path, target), visited)
  }

  /** What was read so far, followed by the rest. */
  function Joined(sofar: Reading, rest: Option<Reading>): Option<Reading> {
    if rest.None? then None else Some(Reading(sofar.names + rest.value.names, sofar.files + rest.value.files))
  }

  lemma JoinedNothing(rest: Option<Reading>)
    ensures Joined(Reading([], []), rest) == rest
  {
    if rest.Some? {
      assert [] + rest.value.names == rest.value.names && [] + rest.value.files == rest.value.files;
    }
  }

  lemma JoinedTwice(sofar: Reading, one: Reading, rest: Option<Reading>)
    ensures Joined(sofar, Joined(one, rest)) == Joined(Reading(sofar.names + one.names, sofar.files + one.files), rest)
  {
    if rest.Some? {
      assert sofar.names + (one.names + rest.value.names) == sofar.names + one.names + rest.value.names;
      assert sofar.files + (one.files + rest.value.files) == sofar.files + one.files + rest.value.files;
    }
  }

  lemma ReadLinesStep(tree: Tree, rule: string -> Line, path: string, lines: seq<string>, i: nat, visited: set<string>)
    requires i < |lines|
    ensures ReadOne(tree, rule, path, lines[i], visited).None? ==>
        ReadLines(tree, rule, path, lines[i..], visited).None?
    ensures ReadOne(tree, rule, path, lines[i], visited).Some? ==>
              (var one := ReadOne(tree, rule, path, lines[i], visited).value;
               ReadLines(tree, rule, path, lines[i..], visited)
               == Joined(one, ReadLines(tree, rule, path, lines[i + 1..], visited + FileSet(one.files))))
  {
  }

  lemma FileSetSum(a: seq<string>, b: seq<string>)
    ensures FileSet(a + b) == FileSet(a) + FileSet(b)
    ensures FileSet([]) == {}
  {
  }

  /** The recursive readers share one `visited` set. */
  class RequirementReader {
    var visited: set<string>

    constructor ()
      ensures visited == {}
    {
      visited := {};
    }

    method Parse(tree: Tree, rule: string -> Line, path: string) returns (names: Option<seq<string>>)
      modifies this
      ensures var r := Read(tree, rule, path, old(visited));
              && (r.None? ==> names.None?)
              && (r.Some? ==> names == Some(r.value.names) && visited == old(visited) + FileSet(r.value.files))
      ensures old(visited) <= visited
      decreases tree.files.Keys - visited
    {
      if path in visited {
        return Some([]);
      }
      visited := visited + {path};
      if path !in tree.files {
        return None;
      }
      var lines := tree.files[path];
      var found: seq<string> := [];
      ghost var files: seq<string> := [];
      FileSetSum([], []);
      JoinedNothing(ReadLines(tree, rule, path, lines, visited));
      assert lines[0..] == lines;
      for i := 0 to |lines|
        invariant visited == old(visited) + {path} + FileSet(files)
        invariant ReadLines(tree, rule, path, lines, old(visited) + {path})
               == Joined(Reading(found, files), ReadLines(tree, rule, path, lines[i..], visited))
      {
        hide ReadLines, Joined, FileSet, Read;
        ghost var before := visited;
        ghost var one := ReadOne(tree, rule, path, lines[i], before);
        ReadLinesStep(tree, rule, path, lines, i, before);
        var read: seq<string> := [];
        match rule(lines[i]) {
          case Skip =>
          case Fails => return None;
          case Requires(name) => read := [name];
          case Include(target) =>
            var included := Parse(tree, rule, tree.resolve(path, target));
            if included.None? {
              return None;
            }
            read := included.value;
        }
        assert one.value.names == read;
        assert visited == before + FileSet(one.value.files);
        FileSetSum(files, one.value.files);
        ReadLinesAdvance(tree, rule, path, lines, i, before, Reading(found, files));
        found, files := found + read, files + one.value.files;
      }
      FileSetSum([path], files);
      assert FileSet([path]) == {path};
      assert lines[|lines|..] == [];
      assert found + [] == found && files + [] == files;
      return Some(found);
    }
  }

  lemma ReadLinesAdvance(tree: Tree, rule: string -> Line, path: string, lines: seq<string>, i: nat,
                         visited: set<string>, sofar: Reading)
    requires i < |lines| && ReadOne(tree, rule, path, lines[i], visited).Some?
    ensures var one := ReadOne(tree, rule, path, lines[i], visited).value;
      Joined(sofar, ReadLines(tree, rule, path, lines[i..], visited))
      == Joined(Reading(sofar.names + one.names, sofar.files + one.files),
                ReadLines(tree, rule, path, lines[i + 1..], visited + FileSet(one.files)))
  {
    hide ReadLines, Joined, FileSet;
    var one := ReadOne(tree, rule, path, lines[i], visited).value;
    ReadLinesStep(tree, rule, path, lines, i, visited);
    JoinedTwice(sofar, one, ReadLines(tree, rule, path, lines[i + 1..], visited + FileSet(one.files)));
  }

  // ---------------------------------------------------------------- each reachable file once

  /** The names on the lines of one file itself. */
  function OwnNames(rule: string -> Line, lines: seq<string>): seq<string> {
    if lines == [] then []
    else (if rule(lines[0]).Requires? then [rule(lines[0]).name] else []) + OwnNames(rule, lines[1..])
  }

  /** The own names of several files, one after the other. */
  function FileNames(tree: Tree, rule: string -> Line, files: seq<string>): seq<string>
    requires forall f :: f in files ==> f in tree.files
  {
    if files == [] then [] else OwnNames(rule, tree.files[files[0]]) + FileNames(tree, rule, files[1..])
  }

  /** `files` are readable, distinct, and none of them visited before. */
  ghost predicate Fresh(tree: Tree, files: seq<string>, visited: set<string>) {
    Distinct(files) && forall f :: f in files ==> f in tree.files && f !in visited
  }

  lemma {:induction false} FileNamesSum(tree: Tree, rule: string -> Line, a: seq<string>, b: seq<string>)
    requires forall f :: f in a || f in b ==> f in tree.files
    ensures FileNames(tree, rule, a + b) == FileNames(tree, rule, a) + FileNames(tree, rule, b)
  {
    if a == [] {
      assert a + b == b;
    } else {
      assert (a + b)[1..] == a[1..] + b;
      FileNamesSum(tree, rule, a[1..], b);
    }
  }

  lemma FreshSum(tree: Tree, a: seq<string>, b: seq<string>, visited: set<string>)
    requires Fresh(tree, a, visited) && Fresh(tree, b, visited + FileSet(a))
    ensures Fresh(tree, a + b, visited)
  {
    forall i, j | 0 <= i < j < |a + b|
      ensures (a + b)[i] != (a + b)[j]
    {
      if i < |a| <= j {
        assert a[i] in FileSet(a);
        assert b[j - |a|] in b;
      }
    }
  }

  /** Conservation: the reader opens each of its files once, and what it returns is, with multiplicities, what the
      lines of those files say. */
  lemma {:induction false} EachFileOnce(tree: Tree, rule: string -> Line, path: string, visited: set<string>)
    requires Read(tree, rule, path, visited).Some?
    ensures var r := Read(tree, rule, path, visited).value;
      Fresh(tree, r.files, visited) && multiset(r.names) == multiset(FileNames(tree, rule, r.files))
    decreases tree.files.Keys - visited, 0, 0
  {
    if path !in visited {
      LinesOnce(tree, rule, path, tree.files[path], visited + {path});
      var r := ReadLines(tree, rule, path, tree.files[path], visited + {path}).value;
      assert ([path] + r.files)[1..] == r.files;
      assert FileSet([path]) == {path};
      FreshSum(tree, [path], r.files, visited);
    }
  }

  lemma {:induction false} LinesOnce(tree: Tree, rule: string -> Line, path: string, lines: seq<string>,
                                     visited: set<string>)
    requires ReadLines(tree, rule, path, lines, visited).Some?
    ensures var r := ReadLines(tree, rule, path, lines, visited).value;
      && Fresh(tree, r.files, visited)
      && multiset(r.names) == multiset(OwnNames(rule, lines)) + multiset(FileNames(tree, rule, r.files))
    decreases tree.files.Keys - visited, |lines|
  {
    if lines != [] {
      if rule(lines[0]).Include? {
        EachFileOnce(tree, rule, tree.resolve(path, rule(lines[0]).target), visited);
      }
      var one := ReadOne(tree, rule, path, lines[0], visited).value;
      LinesOnce(tree, rule, path, lines[1..], visited + FileSet(one.files));
      var rest := ReadLines(tree, rule, path, lines[1..], visited + FileSet(one.files)).value;
      FreshSum(tree, one.files, rest.files, visited);
      FileNamesSum(tree, rule, one.files, rest.files);
    }
  }

  // ---------------------------------------------------------------- the files opened are the files reachable

  /** Some line of `from` includes `to`. */
  ghost predicate Includes(tree: Tree, rule: string -> Line, from: string, to: string) {
    from in tree.files &&
    exists line :: line in tree.files[from] && rule(line).Include? && tree.resolve(from, rule(line).target) == to
  }

  ghost predicate IncludePath(tree: Tree, rule: string -> Line, path: seq<string>) {
    path != [] && forall i :: 0 < i < |path| ==> Includes(tree, rule, path[i - 1], path[i])
  }

  ghost predicate Reaches(tree: Tree, rule: string -> Line, from: string, to: string) {
    exists path :: IncludePath(tree, rule, path) && path[0] == from && path[|path| - 1] == to
  }

  lemma ReachesBefore(tree: Tree, rule: string -> Line, from: string, next: string, to: string)
    requires Includes(tree, rule, from, next) && Reaches(tree, rule, next, to)
    ensures Reaches(tree, rule, from, to)
  {
    var path :| IncludePath(tree, rule, path) && path[0] == next && path[|path| - 1] == to;
    var longer := [from] + path;
    forall i | 0 < i < |longer|
      ensures Includes(tree, rule, longer[i - 1], longer[i])
    {
      if i > 1 {
        assert longer[i - 1] == path[i - 2] && longer[i] == path[i - 1];
      }
    }
    assert longer[|longer| - 1] == to;
  }

  lemma ReachesSelf(tree: Tree, rule: string -> Line, from: string)
    ensures Reaches(tree, rule, from, from)
  {
    assert IncludePath(tree, rule, [from]);
  }

  /** Every file opened is reachable, and everything a file opened includes was opened now or before. */
  lemma {:induction false} OpenedAndClosed(tree: Tree, rule: string -> Line, path: string, visited: set<string>)
    requires Read(tree, rule, path, visited).Some?
    ensures var files := FileSet(Read(tree, rule, path, visited).value.files);
      && path in files + visited
      && (forall f :: f in files ==> Reaches(tree, rule, path, f))
      && (forall f, g :: f in files && Includes(tree, rule, f, g) ==> g in files + visited)
    decreases tree.files.Keys - visited, 0, 0
  {
    if path !in visited {
      var lines := tree.files[path];
      LinesOpenedAndClosed(tree, rule, path, lines, visited + {path});
      var rest := ReadLines(tree, rule, path, lines, visited + {path}).value.files;
      FileSetSum([path], rest);
      assert FileSet([path]) == {path};
      ReachesSelf(tree, rule, path);
    }
  }

  lemma {:induction false} LinesOpenedAndClosed(tree: Tree, rule: string -> Line, path: string, lines: seq<string>,
                                                visited: set<string>)
    requires path in tree.files && forall l :: l in lines ==> l in tree.files[path]
    requires ReadLines(tree, rule, path, lines, visited).Some?
    ensures var files := FileSet(ReadLines(tree, rule, path, lines, visited).value.files);
      && (forall l :: l in lines && rule(l).Include? ==> tree.resolve(path, rule(l).target) in files + visited)
      && (forall f :: f in files ==> Reaches(tree, rule, path, f))
      && (forall f, g :: f in files && Includes(tree, rule, f, g) ==> g in files + visited)
    decreases tree.files.Keys - visited, |lines|
  {
    if lines != [] {
      var line := lines[0];
      var one := ReadOne(tree, rule, path, line, visited).value;
      if rule(line).Include? {
        var next := tree.resolve(path, rule(line).target);
        OpenedAndClosed(tree, rule, next, visited);
        assert line in lines && Includes(tree, rule, path, next);
        forall f | f in FileSet(one.files) ensures Reaches(tree, rule, path, f) {
          ReachesBefore(tree, rule, path, next, f);
        }
      }
      LinesOpenedAndClosed(tree, rule, path, lines[1..], visited + FileSet(one.files));
      var rest := ReadLines(tree, rule, path, lines[1..], visited + FileSet(one.files)).value;
      FileSetSum(one.files, rest.files);
      assert forall l :: l in lines ==> l == line || l in lines[1..];
    }
  }

  /** Starting fresh, a reader that finishes has opened exactly the files reachable over includes, cycles or not. */
  lemma OpenedAreReachable(tree: Tree, rule: string -> Line, path: string)
    requires Read(tree, rule, path, {}).Some?
    ensures forall f :: f in Read(tree, rule, path, {}).value.files <==> Reaches(tree, rule, path, f)
  {
    OpenedAndClosed(tree, rule, path, {});
    var files := FileSet(Read(tree, rule, path, {}).value.files);
    forall f | Reaches(tree, rule, path, f)
      ensures f in files
    {
      var hops :| IncludePath(tree, rule, hops) && hops[0] == path && hops[|hops| - 1] == f;
      var k := 0;
      while k + 1 < |hops|
        invariant k < |hops| && hops[k] in files
      {
        assert Includes(tree, rule, hops[k], hops[k + 1]);
        k := k + 1;
      }
    }
  }

  // ---------------------------------------------------------------- the three readers

  /** Two line rules that agree on every line of every file read the same. */
  lemma {:induction false} SameRulesSameReading(tree: Tree, a: string -> Line, b: string -> Line, path: string,
                                                visited: set<string>)
    requires forall f, l :: f in tree.files && l in tree.files[f] ==> a(l) == b(l)
    ensures Read(tree, a, path, visited) == Read(tree, b, path, visited)
    decreases tree.files.Keys - visited, 0, 0
  {
    if path !in visited && path in tree.files {
      SameRulesSameLines(tree, a, b, path, tree.files[path], visited + {path});
    }
  }

  lemma {:induction false} SameRulesSameLines(tree: Tree, a: string -> Line, b: string -> Line, path: string,
                                              lines: seq<string>, visited: set<string>)
    requires forall f, l :: f in tree.files && l in tree.files[f] ==> a(l) == b(l)
    requires path in tree.files && forall l :: l in lines ==> l in tree.files[path]
    ensures ReadLines(tree, a, path, lines, visited) == ReadLines(tree, b, path, lines, visited)
    decreases tree.files.Keys - visited, |lines|
  {
    if lines != [] {
      var line := lines[0];
      assert line in lines;
      if a(line).Include? {
        SameRulesSameReading(tree, a, b, tree.resolve(path, a(line).target), visited);
      }
      var one := ReadOne(tree, a, path, line, visited);
      if one.Some? {
        SameRulesSameLines(tree, a, b, path, lines[1..], visited + FileSet(one.value.files));
      }
    }
  }

  /** A line on which the three readers agree: includes without comments, requirements `packaging` accepts (or that
      have no name in front), with exactly one pin. */
  predicate Plain(grammar: Grammar, raw: string) {
    var s, t := Text.Strip(raw), Text.Strip(CutComment(raw));
    && (IsInclude(s) ==> '#' !in raw)
    && (t != "" && s != "" && s[0] != '-' ==> grammar.parse(t).Some? || NameRun(t) == "")
    && (LicenseLine(grammar, raw).Requires? ==> grammar.pinned(t))
  }

  /** An include with a comment: the license reader includes the file, and the health reader asks for one whose name
      holds the comment. */
  lemma CommentedIncludeDiffers(grammar: Grammar)
    requires NamesFirst(grammar)
    ensures LicenseLine(grammar, "-r a #b") != HealthLine("-r a #b")
  {
    var raw := "-r a #b";
    assert raw[5] == '#';
    assert Text.StripRight(raw) == raw;
    assert Text.Strip(raw) == raw && "-r " <= raw;
    LineAgreesIff(grammar, raw);
  }

  /** A line `packaging` rejects, such as one with a malformed version: only the health reader takes a name from it. */
  lemma RejectedLineDiffers(grammar: Grammar)
    requires NamesFirst(grammar) && grammar.parse("a==").None?
    ensures LicenseLine(grammar, "a==") != HealthLine("a==")
  {
    var raw := "a==";
    assert raw[0] == 'a' && raw[1] == '=';
    assert Text.StripRight(raw) == raw && CutComment(raw) == raw;
    assert Text.Strip(raw) == raw && NameRun(raw) != "";
    LineAgreesIff(grammar, raw);
  }

  lemma PlainLinesAgree(grammar: Grammar, raw: string)
    requires NamesFirst(grammar) && Plain(grammar, raw)
    ensures LicenseLine(grammar, raw) == HealthLine(raw) && LicenseLine(grammar, raw) == LockLine(grammar, raw)
  {
    hide LicenseLine, HealthLine, Text.Strip, CutComment, NameRun;
    LineAgreesIff(grammar, raw);
  }

  /** On files of plain lines the three readers read the same names and the same files, in the same order. */
  lemma ReadersAgree(tree: Tree, grammar: Grammar, path: string)
    requires NamesFirst(grammar)
    requires forall f, l :: f in tree.files && l in tree.files[f] ==> Plain(grammar, l)
    ensures Read(tree, l => LicenseLine(grammar, l), path, {}) == Read(tree, l => HealthLine(l), path, {})
    ensures Read(tree, l => LicenseLine(grammar, l), path, {}) == Read(tree, l => LockLine(grammar, l), path, {})
  {
    forall f, l | f in tree.files && l in tree.files[f]
      ensures LicenseLine(grammar, l) == HealthLine(l) && LicenseLine(grammar, l) == LockLine(grammar, l)
    {
      PlainLinesAgree(grammar, l);
    }
    SameRulesSameReading(tree, l => LicenseLine(grammar, l), l => HealthLine(l), path, {});
    SameRulesSameReading(tree, l => LicenseLine(grammar, l), l => LockLine(grammar, l), path, {});
  }
}
