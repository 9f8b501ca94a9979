/** Recursion over a finite graph: it comes to an end exactly when no node on the way comes back. */
module Descent {
  /** From `s`, at most `d` steps can be taken, and every node on the way is as `ok` asks. */
  ghost predicate Ends<T(!new)>(d: nat, s: T, ok: T -> bool, steps: (T, T) -> bool) {
    ok(s) && forall p :: steps(s, p) ==> d > 0 && Ends(d - 1, p, ok, steps)
  }

  ghost predicate EndsAtLast<T(!new)>(s: T, ok: T -> bool, steps: (T, T) -> bool) {
    exists d: nat :: Ends(d, s, ok, steps)
  }

  predicate Anything<T>(s: T) {
    true
  }

  ghost predicate IsChain<T(!new)>(chain: seq<T>, steps: (T, T) -> bool) {
    forall i :: 0 <= i < |chain| - 1 ==> steps(chain[i], chain[i + 1])
  }

  predicate Repeats<T(==)>(chain: seq<T>) {
    exists i, j :: 0 <= i < j < |chain| && chain[i] == chain[j]
  }

  ghost predicate Reaches<T(!new)>(s: T, p: T, steps: (T, T) -> bool) {
    exists chain :: IsChain(chain, steps) && chain != [] && chain[0] == s && chain[|chain| - 1] == p
  }

  /** Every node on the way from `s` is as `ok` asks. */
  ghost predicate AllReached<T(!new)>(s: T, ok: T -> bool, steps: (T, T) -> bool) {
    forall p :: Reaches(s, p, steps) ==> ok(p)
  }

  /** Some node comes back on the way from `s`. */
  ghost predicate ComesBack<T(!new)>(s: T, steps: (T, T) -> bool) {
    exists chain :: IsChain(chain, steps) && chain != [] && chain[0] == s && Repeats(chain)
  }

  /** Within a finite universe: the steps from `s` come to an end exactly when no node comes back and all are as
      asked. */
  lemma EndsIff<T(!new)>(s: T, ok: T -> bool, steps: (T, T) -> bool, universe: set<T>)
    requires s in universe && forall p, q :: p in universe && steps(p, q) ==> q in universe
    ensures EndsAtLast(s, ok, steps) <==> !ComesBack(s, steps) && AllReached(s, ok, steps)
  {
    if EndsAtLast(s, ok, steps) {
      var d: nat :| Ends(d, s, ok, steps);
      EndsChains(d, s, ok, steps);
    } else if AllReached(s, ok, steps) {
      var chain := LongChain(|universe|, s, ok, steps);
      if ok(chain[|chain| - 1]) {
        ChainInside(chain, steps, universe);
        TooMany(chain, universe);
      } else {
        assert Reaches(s, chain[|chain| - 1], steps);
      }
    }
  }

  lemma EndsChains<T(!new)>(d: nat, s: T, ok: T -> bool, steps: (T, T) -> bool)
    requires Ends(d, s, ok, steps)
    ensures !ComesBack(s, steps) && AllReached(s, ok, steps)
  {
    if ComesBack(s, steps) {
      var chain :| IsChain(chain, steps) && chain != [] && chain[0] == s && Repeats(chain);
      var i, j :| 0 <= i < j < |chain| && chain[i] == chain[j];
      ChainDescends(d, chain, i, ok, steps);
      NeverAround(d - i, chain, i, j, ok, steps);
    }
    forall p | Reaches(s, p, steps) ensures ok(p) {
      var chain :| IsChain(chain, steps) && chain != [] && chain[0] == s && chain[|chain| - 1] == p;
      ChainDescends(d, chain, |chain| - 1, ok, steps);
    }
  }

  /** Each step of a chain takes one of the steps left. */
  lemma {:induction false} ChainDescends<T(!new)>(d: nat, chain: seq<T>, i: nat, ok: T -> bool, steps: (T, T) -> bool)
    requires IsChain(chain, steps) && i < |chain| && Ends(d, chain[0], ok, steps)
    ensures d >= i && Ends(d - i, chain[i], ok, steps)
  {
    if i > 0 {
      ChainDescends(d, chain, i - 1, ok, steps);
      assert steps(chain[i - 1], chain[i]);
    }
  }

  lemma {:induction false} NeverAround<T(!new)>(d: nat, chain: seq<T>, i: nat, j: nat, ok: T -> bool,
      steps: (T, T) -> bool)
    requires IsChain(chain, steps) && i < j < |chain| && chain[i] == chain[j]
    ensures !Ends(d, chain[i], ok, steps)
    decreases d
  {
    if Ends(d, chain[i], ok, steps) {
      var rest := chain[i..];
      forall k | 0 <= k < |rest| - 1 ensures steps(rest[k], rest[k + 1]) {
        assert rest[k] == chain[i + k] && rest[k + 1] == chain[i + k + 1];
      }
      ChainDescends(d, rest, j - i, ok, steps);
      NeverAround(d - (j - i), chain, i, j, ok, steps);
    }
  }

  /** Where the steps do not end in time, a chain is too long or leads to a node that is not as asked. */
  lemma {:induction false} LongChain<T(!new)>(d: nat, s: T, ok: T -> bool, steps: (T, T) -> bool)
        returns (chain: seq<T>)
    requires !Ends(d, s, ok, steps)
    ensures chain != [] && chain[0] == s && IsChain(chain, steps) && (|chain| > d || !ok(chain[|chain| - 1]))
  {
    chain := [s];
    if ok(s) && d > 0 {
      var p :| steps(s, p) && !Ends(d - 1, p, ok, steps);
      var rest := LongChain(d - 1, p, ok, steps);
      chain := [s] + rest;
      forall i | 0 <= i < |chain| - 1 ensures steps(chain[i], chain[i + 1]) {
        assert i > 0 ==> chain[i] == rest[i - 1];
      }
    }
  }

  lemma {:induction false} ChainInside<T(!new)>(chain: seq<T>, steps: (T, T) -> bool, universe: set<T>)
    requires IsChain(chain, steps) && chain != [] && chain[0] in universe
    requires forall p, q :: p in universe && steps(p, q) ==> q in universe
    ensures forall p :: p in chain ==> p in universe
  {
    if |chain| > 1 {
      var init := chain[..|chain| - 1];
      ChainInside(init, steps, universe);
      assert init[|init| - 1] in universe && steps(init[|init| - 1], chain[|chain| - 1]);
      assert chain == init + [chain[|chain| - 1]];
    }
  }

  /** A sequence longer than the set of its members repeats one. */
  lemma {:induction false} TooMany<T>(chain: seq<T>, universe: set<T>)
    requires |chain| > |universe| && forall s :: s in chain ==> s in universe
    ensures Repeats(chain)
  {
    var last, rest := chain[|chain| - 1], chain[..|chain| - 1];
    assert last in universe;
    if last in rest {
      var i :| 0 <= i < |rest| && rest[i] == last;
      assert chain[i] == chain[|chain| - 1];
    } else {
      TooMany(rest, universe - {last});
      var i, j :| 0 <= i < j < |rest| && rest[i] == rest[j];
      assert chain[i] == chain[j];
    }
  }
}
