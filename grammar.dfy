/**
 * The grammar: for each left-hand side, its list of alternatives. The source
 * keeps a map from non-terminal to list; here the map is a sequence of rules
 * so that the order in which the parser visits the keys is fixed.
 */
module Grammars {
  import opened Wrappers

  datatype Rule = Rule(lhs: string, alts: seq<string>)

  type Grammar = seq<Rule>

  /** All alternatives listed for `a`, in grammar order ("empty if undefined"). */
  function Lookup(g: Grammar, a: string): seq<string>
  {
    LookupUpTo(g, |g|, a)
  }

  /** The alternatives listed for `a` by the first `n` rules. */
  function LookupUpTo(g: Grammar, n: nat, a: string): seq<string>
    requires n <= |g|
  {
    if n == 0 then []
    else LookupUpTo(g, n - 1, a) + (if g[n - 1].lhs == a then g[n - 1].alts else [])
  }

  /** `a -> alt` is one of the grammar's rules. */
  predicate Produces(g: Grammar, a: string, alt: string)
  {
    alt in Lookup(g, a)
  }

  lemma {:induction false} LookupUpToIff(g: Grammar, n: nat, a: string, alt: string)
    requires n <= |g|
    ensures alt in LookupUpTo(g, n, a) <==> exists p :: 0 <= p < n && g[p].lhs == a && alt in g[p].alts
  {
    if n > 0 {
      LookupUpToIff(g, n - 1, a, alt);
    }
  }

  lemma ProducesIff(g: Grammar, a: string, alt: string)
    ensures Produces(g, a, alt) <==> exists p :: 0 <= p < |g| && g[p].lhs == a && alt in g[p].alts
  {
    LookupUpToIff(g, |g|, a, alt);
  }

  /** The left-hand sides, in order. */
  function Keys(g: Grammar): set<string>
  {
    set p | 0 <= p < |g| :: g[p].lhs
  }

  /** No left-hand side occurs twice, as in a map. */
  predicate UniqueKeys(g: Grammar)
  {
    forall p, q :: 0 <= p < q < |g| ==> g[p].lhs != g[q].lhs
  }

  /** Position of the rule for `a`, if there is one. */
  function KeyIndex(g: Grammar, a: string): (r: Option<nat>)
    ensures r.Some? ==> r.value < |g| && g[r.value].lhs == a
    ensures r.Some? ==> forall p :: 0 <= p < r.value ==> g[p].lhs != a
    ensures r.None? ==> forall p :: 0 <= p < |g| ==> g[p].lhs != a
  {
    if g == [] then None
    else if g[0].lhs == a then Some(0)
    else match KeyIndex(g[1..], a)
      case None => None
      case Some(p) => Some(p + 1)
  }

  /**
   * `putIfAbsent(a, [])` followed by appending `alts` to the list of `a`:
   * a new key goes at the end, an existing key keeps its place.
   */
  function Accumulate(g: Grammar, a: string, alts: seq<string>): (g': Grammar)
  {
    match KeyIndex(g, a)
    case None => g + [Rule(a, alts)]
    case Some(p) => g[p := Rule(a, g[p].alts + alts)]
  }

  /** The first `n` alternatives of `a` depend only on the first `n` rules. */
  lemma {:induction false} LookupAgree(g: Grammar, h: Grammar, n: nat, a: string)
    requires n <= |g| && n <= |h|
    requires forall p :: 0 <= p < n ==> g[p] == h[p]
    ensures LookupUpTo(g, n, a) == LookupUpTo(h, n, a)
  {
    if n > 0 {
      LookupAgree(g, h, n - 1, a);
    }
  }

  lemma {:induction false} LookupAbsent(g: Grammar, n: nat, a: string)
    requires n <= |g|
    requires forall p :: 0 <= p < n ==> g[p].lhs != a
    ensures LookupUpTo(g, n, a) == []
  {
    if n > 0 {
      LookupAbsent(g, n - 1, a);
    }
  }

  /** With unique keys, the alternatives of a key are those of its one rule. */
  lemma {:induction false} LookupUnique(g: Grammar, n: nat, p: nat)
    requires UniqueKeys(g) && p < n <= |g|
    ensures LookupUpTo(g, n, g[p].lhs) == g[p].alts
  {
    if p == n - 1 {
      LookupAbsent(g, n - 1, g[p].lhs);
    } else {
      LookupUnique(g, n - 1, p);
    }
  }

  /** Changing a rule whose key is not `a` changes no alternative of `a`. */
  lemma {:induction false} LookupUpdate(g: Grammar, n: nat, p: nat, r: Rule, a: string)
    requires p < |g| && n <= |g| && g[p].lhs != a && r.lhs != a
    ensures LookupUpTo(g[p := r], n, a) == LookupUpTo(g, n, a)
  {
    if n > 0 {
      LookupUpdate(g, n - 1, p, r, a);
    }
  }

  /** Accumulating adds `a` to the keys and keeps the keys unique. */
  lemma AccumulateKeys(g: Grammar, a: string, alts: seq<string>)
    requires UniqueKeys(g)
    ensures UniqueKeys(Accumulate(g, a, alts))
    ensures Keys(Accumulate(g, a, alts)) == Keys(g) + {a}
  {
    var g' := Accumulate(g, a, alts);
    match KeyIndex(g, a)
    case None =>
      forall k | k in Keys(g) ensures k in Keys(g') {
        var q :| 0 <= q < |g| && g[q].lhs == k;
        assert g'[q].lhs == k;
      }
      assert g'[|g|].lhs == a;
    case Some(p) =>
      forall k | k in Keys(g) ensures k in Keys(g') {
        var q :| 0 <= q < |g| && g[q].lhs == k;
        assert g'[q].lhs == k;
      }
  }

  /**
   * Accumulating `alts` under `a` appends them to the alternatives of `a`
   * (instead of replacing them) and leaves every other key alone.
   */
  lemma AccumulateLookup(g: Grammar, a: string, alts: seq<string>, b: string)
    requires UniqueKeys(g)
    ensures Lookup(Accumulate(g, a, alts), b) == Lookup(g, b) + (if a == b then alts else [])
  {
    var g' := Accumulate(g, a, alts);
    match KeyIndex(g, a)
    case None =>
      LookupAgree(g, g', |g|, b);
      if a == b {
        LookupAbsent(g, |g|, a);
      }
    case Some(p) =>
      if a == b {
        LookupUnique(g, |g|, p);
        AccumulateKeys(g, a, alts);
        LookupUnique(g', |g'|, p);
      } else {
        LookupUpdate(g, |g|, p, Rule(a, g[p].alts + alts), b);
      }
  }
}
