/** The Python string operations the sources use, on ASCII text. */
module Text {

  function LowerChar(c: char): char {
    if 'A' <= c <= 'Z' then (c as int + 32) as char else c
  }

  function UpperChar(c: char): char {
    if 'a' <= c <= 'z' then (c as int - 32) as char else c
  }

  function Lower(s: string): (r: string)
    ensures |r| == |s|
  {
    seq(|s|, i requires 0 <= i < |s| => LowerChar(s[i]))
  }

  function Upper(s: string): (r: string)
    ensures |r| == |s|
  {
    seq(|s|, i requires 0 <= i < |s| => UpperChar(s[i]))
  }

  function Replace(s: string, from: char, to: char): (r: string)
    ensures |r| == |s|
  {
    seq(|s|, i requires 0 <= i < |s| => if s[i] == from then to else s[i])
  }

  /** The substitution of `([a-z0-9])([A-Z])` by `\1_\2`. */
  function Camel(value: string): string {
    if |value| < 2 then value
    else if (('a' <= value[0] <= 'z') || ('0' <= value[0] <= '9')) && 'A' <= value[1] <= 'Z'
    then [value[0], '_'] + Camel(value[1..])
    else [value[0]] + Camel(value[1..])
  }

  predicate OccursAt(s: string, part: string, i: int) {
    0 <= i <= |s| - |part| && s[i..i + |part|] == part
  }

  /** `part in s`. */
  predicate Contains(s: string, part: string) {
    exists i :: 0 <= i <= |s| && OccursAt(s, part, i)
  }

  predicate EndsWith(s: string, tail: string) {
    |tail| <= |s| && s[|s| - |tail|..] == tail
  }

  predicate IsSpace(c: char) {
    c == ' ' || '\t' <= c <= '\r' || 0x1c <= c as int <= 0x1f
  }

  function StripLeft(s: string): string {
    if s != [] && IsSpace(s[0]) then StripLeft(s[1..]) else s
  }

  function StripRight(s: string): string {
    if s != [] && IsSpace(s[|s| - 1]) then StripRight(s[..|s| - 1]) else s
  }

  function Strip(s: string): string {
    StripRight(StripLeft(s))
  }

  /** Lexicographic order of strings by code points. */
  predicate Precedes(a: string, b: string) {
    a == "" || (b != "" && (a[0] < b[0] || (a[0] == b[0] && Precedes(a[1..], b[1..]))))
  }

  lemma {:induction false} PrecedesTotal(a: string, b: string)
    ensures Precedes(a, b) || Precedes(b, a)
    ensures Precedes(a, b) && Precedes(b, a) ==> a == b
  {
    if a != "" && b != "" {
      PrecedesTotal(a[1..], b[1..]);
      assert a == [a[0]] + a[1..] && b == [b[0]] + b[1..];
    }
  }

  lemma {:induction false} PrecedesTransitive(a: string, b: string, c: string)
    requires Precedes(a, b) && Precedes(b, c)
    ensures Precedes(a, c)
  {
    if a != "" && a[0] == b[0] && b[0] == c[0] {
      PrecedesTransitive(a[1..], b[1..], c[1..]);
    }
  }

  /** Strictly ascending. */
  predicate Ascending(names: seq<string>) {
    forall i, j :: 0 <= i < j < |names| ==> names[i] != names[j] && Precedes(names[i], names[j])
  }

  lemma {:induction false} LeastOf(names: set<string>) returns (least: string)
    requires names != {}
    ensures least in names && forall n :: n in names ==> Precedes(least, n)
    decreases |names|
  {
    var some :| some in names;
    least := some;
    PrecedesTotal(some, some);
    if names != {some} {
      assert exists n :: n in names && n != some;
      assert names - {some} != {};
      var rest := LeastOf(names - {some});
      PrecedesTotal(some, rest);
      if Precedes(rest, some) {
        least := rest;
      } else {
        forall n | n in names ensures Precedes(some, n) {
          if n != some {
            PrecedesTransitive(some, rest, n);
          }
        }
      }
    }
  }

  predicate IsLeast(a: string, names: set<string>) {
    a in names && forall n :: n in names ==> Precedes(a, n)
  }

  lemma OneLeast(names: set<string>)
    ensures forall a, b :: IsLeast(a, names) && IsLeast(b, names) ==> a == b
  {
    forall a, b | IsLeast(a, names) && IsLeast(b, names) ensures a == b {
      PrecedesTotal(a, b);
    }
  }

  lemma LeastExists(names: set<string>)
    requires names != {}
    ensures exists a :: a in names && IsLeast(a, names)
  {
    var a := LeastOf(names);
    assert IsLeast(a, names);
  }

  /** `sorted` of a set of strings. */
  function Sorted(names: set<string>): (sorted: seq<string>)
    ensures Ascending(sorted) && (forall n :: n in sorted <==> n in names)
    decreases |names|
  {
    if names == {} then []
    else
      LeastExists(names);
      OneLeast(names);
      var least :| least in names && IsLeast(least, names);
      var rest := Sorted(names - {least});
      assert forall i :: 0 <= i < |rest| ==> rest[i] in names - {least};
      [least] + rest
  }
}
