/** Canonical distribution names (`packaging.utils.canonicalize_name`), on ASCII text. */
module PackageNames {
  import Text

  predicate IsSeparator(c: char) {
    c == '-' || c == '_' || c == '.'
  }

  /** Every run of separators becomes one dash and every letter becomes lower case. */
  function Canonical(name: string): string {
    if name == [] then []
    else if !IsSeparator(name[0]) then [Text.LowerChar(name[0])] + Canonical(name[1..])
    else if |name| > 1 && IsSeparator(name[1]) then Canonical(name[1..])
    else ['-'] + Canonical(name[1..])
  }

  /** Canonical text: lower case, dashes only, no two dashes in a row. */
  ghost predicate IsCanonical(name: string) {
    && (forall i :: 0 <= i < |name| ==> Text.LowerChar(name[i]) == name[i] && name[i] != '_' && name[i] != '.')
    && (forall i :: 0 < i < |name| ==> name[i - 1] != '-' || name[i] != '-')
  }

  /** A canonical name is canonical, and starts with a dash only where the name starts with a separator. */
  lemma {:induction false} CanonicalIsCanonical(name: string)
    ensures IsCanonical(Canonical(name))
    ensures Canonical(name) == [] <==> name == []
    ensures name != [] ==> (Canonical(name)[0] == '-' <==> IsSeparator(name[0]))
  {
    if name == [] {
    } else {
      CanonicalIsCanonical(name[1..]);
    }
  }

  /** Canonicalising twice changes nothing, so records keyed by a canonical name keep their key. */
  lemma CanonicalIdempotent(name: string)
    ensures Canonical(Canonical(name)) == Canonical(name)
  {
  }
}
