/**
 * `readGrammar`: each line `A -> x | y | ...` adds its alternatives, trimmed,
 * to the list of `A`, creating the list the first time `A` is seen. The
 * lines of the file are a parameter; reading the file is not modelled.
 */
module GrammarReader {
  import opened Wrappers
  import opened Text
  import opened Grammars

  const Arrow: string := "->"
  const Bar: string := "|"

  /** Every piece trimmed. */
  function TrimAll(ps: seq<string>): seq<string>
  {
    seq(|ps|, k requires 0 <= k < |ps| => Trim(ps[k]))
  }

  /**
   * One line: its left-hand side and its alternatives, or Failure when the
   * line's split at `->` has fewer than two parts (`parts[1]` does not
   * exist). Only the
   * text between the first and the second arrow is read as right-hand side.
   */
  function ParseLine(line: string): (r: Result<(string, seq<string>), string>)
  {
    var parts := Split(line, Arrow);
    if |parts| < 2 then Failure(line)
    else Success((Trim(parts[0]), TrimAll(Split(Trim(parts[1]), Bar))))
  }

  /** The outcome of parsing one line. */
  type Parsed = Result<(string, seq<string>), string>

  /** Every line parsed on its own. */
  function ParseAll(lines: seq<string>): seq<Parsed>
  {
    seq(|lines|, k requires 0 <= k < |lines| => ParseLine(lines[k]))
  }

  /** Entry `k` is line `k` parsed on its own. */
  lemma ParseAllAt(lines: seq<string>, k: nat)
    requires k < |lines|
    ensures |ParseAll(lines)| == |lines|
    ensures ParseAll(lines)[k] == ParseLine(lines[k])
  {
  }

  /** The index of the first failed line among the first `n`, if any. */
  function FirstFailure(ps: seq<Parsed>, n: nat): (r: Option<nat>)
    requires n <= |ps|
    ensures r.None? <==> forall k :: 0 <= k < n ==> ps[k].Success?
    ensures r.Some? ==> r.value < n && ps[r.value].Failure?
    ensures r.Some? ==> forall k :: 0 <= k < r.value ==> ps[k].Success?
  {
    if n == 0 then None
    else if FirstFailure(ps, n - 1).Some? then FirstFailure(ps, n - 1)
    else if ps[n - 1].Failure? then Some(n - 1)
    else None
  }

  /** The grammar after the first `n` lines, all of them parsed. */
  function Fold(ps: seq<Parsed>, n: nat): Grammar
    requires n <= |ps| && forall k :: 0 <= k < n ==> ps[k].Success?
  {
    if n == 0 then []
    else
      var line := ps[n - 1].value;
      Accumulate(Fold(ps, n - 1), line.0, line.1)
  }

  /**
   * The grammar of a whole file, or the index of the first line that fails:
   * the exception it raises leaves `readGrammar`, so no grammar is returned.
   */
  function Load(lines: seq<string>): Result<Grammar, nat>
  {
    var ps := ParseAll(lines);
    match FirstFailure(ps, |ps|)
    case Some(e) => Failure(e)
    case None => Success(Fold(ps, |ps|))
  }

  /**
   * Lines 50-57 of the source: for each line, given here as a parameter,
   * split it at the arrow and at the bars, and add its alternatives to the
   * grammar.
   */
  method ReadGrammar(lines: seq<string>) returns (r: Result<Grammar, nat>)
    ensures r == Load(lines)
  {
    ghost var ps := ParseAll(lines);
    var grammar: Grammar := [];
    var i := 0;
    while i < |lines|
      invariant 0 <= i <= |lines|
      invariant FirstFailure(ps, i).None? && grammar == Fold(ps, i)
    {
      var parts := Split(lines[i], Arrow);
      if |parts| < 2 {
        LineFails(lines, ps, i);
        return Failure(i);
      }
      var left := Trim(parts[0]);
      var right := Split(Trim(parts[1]), Bar);
      LineAdds(lines, ps, i);
      grammar := AddAlternatives(grammar, left, right);
      i := i + 1;
    }
    LoadAll(lines, ps);
    return Success(grammar);
  }

  /** A line whose split at `->` has fewer than two parts is the first failure, and `Load` reports it. */
  lemma LineFails(lines: seq<string>, ps: seq<Parsed>, i: nat)
    requires ps == ParseAll(lines) && i < |lines| && FirstFailure(ps, i).None?
    requires |Split(lines[i], Arrow)| < 2
    ensures Load(lines) == Failure(i)
  {
    ParseAllAt(lines, i);
    FailureAt(ps, i);
  }

  /** A line whose split at `->` has two parts or more adds its alternatives under its left-hand side. */
  lemma LineAdds(lines: seq<string>, ps: seq<Parsed>, i: nat)
    requires ps == ParseAll(lines) && i < |lines| && FirstFailure(ps, i).None?
    requires |Split(lines[i], Arrow)| >= 2
    ensures FirstFailure(ps, i + 1).None?
    ensures var parts := Split(lines[i], Arrow);
      Fold(ps, i + 1) == Accumulate(Fold(ps, i), Trim(parts[0]), TrimAll(Split(Trim(parts[1]), Bar)))
  {
    ParseAllAt(lines, i);
  }

  /** With no failed line, `Load` returns the fold of all lines. */
  lemma LoadAll(lines: seq<string>, ps: seq<Parsed>)
    requires ps == ParseAll(lines) && FirstFailure(ps, |ps|).None?
    ensures Load(lines) == Success(Fold(ps, |ps|))
  {
  }

  /** The first failed line is the one `Load` reports. */
  lemma FailureAt(ps: seq<Parsed>, i: nat)
    requires i < |ps| && FirstFailure(ps, i).None? && ps[i].Failure?
    ensures FirstFailure(ps, |ps|) == Some(i)
  {
    var r := FirstFailure(ps, |ps|);
    assert r.Some?;
  }

  /**
   * Lines 54-57 of the source: `putIfAbsent(left, [])`, then `add` every
   * trimmed alternative to the list of `left`.
   */
  method AddAlternatives(grammar: Grammar, left: string, right: seq<string>) returns (g: Grammar)
    ensures g == Accumulate(grammar, left, TrimAll(right))
  {
    g := grammar;
    var p: nat;
    match KeyIndex(g, left) {
      case None =>
        g := g + [Rule(left, [])];
        p := |g| - 1;
      case Some(q) =>
        assert g[q].alts + [] == g[q].alts;
        assert g[q := Rule(left, g[q].alts + [])] == g;
        p := q;
    }
    ghost var prods := TrimAll(right);
    assert prods[..0] == [];
    var x := 0;
    while x < |right|
      invariant 0 <= x <= |right|
      invariant p == if KeyIndex(grammar, left).Some? then KeyIndex(grammar, left).value else |grammar|
      invariant g == Accumulate(grammar, left, prods[..x])
    {
      AccumulateOne(grammar, left, prods[..x], prods[x]);
      assert prods[..x + 1] == prods[..x] + [prods[x]];
      g := g[p := Rule(left, g[p].alts + [Trim(right[x])])];
      x := x + 1;
    }
    assert prods[..x] == prods;
  }

  /** Accumulating one more alternative is one more `add` on the rule of the key. */
  lemma AccumulateOne(g: Grammar, a: string, alts: seq<string>, x: string)
    ensures var p := if KeyIndex(g, a).Some? then KeyIndex(g, a).value else |g|;
      var h := Accumulate(g, a, alts);
      p < |h| && Accumulate(g, a, alts + [x]) == h[p := Rule(a, h[p].alts + [x])]
  {
    match KeyIndex(g, a)
    case None =>
    case Some(p) =>
      assert g[p].alts + alts + [x] == g[p].alts + (alts + [x]);
  }

  // ---------------------------------------------------------- properties

  /** Without an arrow, `parts[1]` does not exist and the line fails. */
  lemma NoArrowFails(line: string)
    requires Free(line, Arrow)
    ensures ParseLine(line).Failure?
  {
    SplitCases(line, Arrow);
  }

  /** The left-hand side is the trimmed text before the first arrow. */
  lemma ParsedLeft(line: string) returns (k: nat)
    requires ParseLine(line).Success?
    ensures OccursAt(line, Arrow, k) && forall q :: 0 <= q < k ==> !OccursAt(line, Arrow, q)
    ensures ParseLine(line).value.0 == Trim(line[..k])
  {
    var parts := Split(line, Arrow);
    SplitCases(line, Arrow);
    assert !Free(line, Arrow);
    FindFromSpec(line, Arrow, 0);
    k := FindFrom(line, Arrow, 0).value;
    var ps := Pieces(line, Arrow);
    DropTrailingEmptySpec(ps);
    assert parts == ps[..|parts|];
    assert parts[0] == ps[0] == line[..k];
  }

  /**
   * The alternatives are the `|`-separated pieces, each trimmed and in
   * order, of the text between the first arrow (at `k`) and the next one
   * (at `e`, or the end of the line when there is none).
   */
  lemma ParsedRight(line: string) returns (k: nat, e: nat)
    requires ParseLine(line).Success?
    ensures OccursAt(line, Arrow, k) && forall q :: 0 <= q < k ==> !OccursAt(line, Arrow, q)
    ensures k + |Arrow| <= e <= |line|
    ensures e == |line| || OccursAt(line, Arrow, e)
    ensures forall q :: k + |Arrow| <= q < e ==> !OccursAt(line, Arrow, q)
    ensures ParseLine(line).value.1 == TrimAll(Split(Trim(line[k + |Arrow|..e]), Bar))
  {
    var parts := Split(line, Arrow);
    SplitCases(line, Arrow);
    assert !Free(line, Arrow);
    var ps := Pieces(line, Arrow);
    DropTrailingEmptySpec(ps);
    assert parts == ps[..|parts|];
    assert parts[1] == ps[1];
    k, e := SecondPiece(line, Arrow);
  }

  /** Every alternative is trimmed and contains no bar. */
  lemma ParsedAlternatives(line: string)
    requires ParseLine(line).Success?
    ensures forall x <- ParseLine(line).value.1 :: Trim(x) == x && Free(x, Bar)
  {
    var parts := Split(line, Arrow);
    var right := Split(Trim(parts[1]), Bar);
    var alts := TrimAll(right);
    assert ParseLine(line).value.1 == alts;
    SplitFree(Trim(parts[1]), Bar);
    forall q | 0 <= q < |alts|
      ensures Trim(alts[q]) == alts[q] && Free(alts[q], Bar)
    {
      var p := right[q];
      assert Free(p, Bar);
      TrimIdempotent(p);
      var a := TrimSlice(p);
      FreeSlice(p, Bar, a, a + |Trim(p)|);
    }
  }

  /** All alternatives listed for `a` by the first `n` lines, in line order. */
  function Gathered(ps: seq<Parsed>, n: nat, a: string): seq<string>
    requires n <= |ps| && forall k :: 0 <= k < n ==> ps[k].Success?
  {
    if n == 0 then []
    else
      var line := ps[n - 1].value;
      Gathered(ps, n - 1, a) + (if line.0 == a then line.1 else [])
  }

  /** The lines build one entry per left-hand side, as a map has. */
  lemma {:induction false} FoldKeys(ps: seq<Parsed>, n: nat)
    requires n <= |ps| && forall k :: 0 <= k < n ==> ps[k].Success?
    ensures UniqueKeys(Fold(ps, n))
    ensures Keys(Fold(ps, n)) == set k | 0 <= k < n :: ps[k].value.0
  {
    if n > 0 {
      FoldKeys(ps, n - 1);
      var line := ps[n - 1].value;
      AccumulateKeys(Fold(ps, n - 1), line.0, line.1);
      var before, after := set k | 0 <= k < n - 1 :: ps[k].value.0, set k | 0 <= k < n :: ps[k].value.0;
      assert after == before + {line.0};
    }
  }

  /**
   * The entry of each left-hand side holds the alternatives of all its
   * lines in order: a left-hand side on several lines accumulates instead
   * of being overwritten.
   */
  lemma {:induction false} FoldLookup(ps: seq<Parsed>, n: nat, a: string)
    requires n <= |ps| && forall k :: 0 <= k < n ==> ps[k].Success?
    ensures Lookup(Fold(ps, n), a) == Gathered(ps, n, a)
  {
    if n > 0 {
      FoldLookup(ps, n - 1, a);
      FoldKeys(ps, n - 1);
      var line := ps[n - 1].value;
      AccumulateLookup(Fold(ps, n - 1), line.0, line.1, a);
    }
  }

  /**
   * `readGrammar` on a whole file: either the first line whose split at
   * `->` has fewer than two parts, or the map holding every line's
   * alternatives.
   */
  lemma LoadSpec(lines: seq<string>)
    ensures Load(lines).Failure? ==>
      var e := Load(lines).error;
      e < |lines| && ParseLine(lines[e]).Failure? && forall k :: 0 <= k < e ==> ParseLine(lines[k]).Success?
    ensures Load(lines).Success? ==>
      var g := Load(lines).value;
      var ps := ParseAll(lines);
      UniqueKeys(g) && forall a :: Lookup(g, a) == Gathered(ps, |ps|, a)
  {
    var ps := ParseAll(lines);
    if FirstFailure(ps, |ps|).None? {
      FoldKeys(ps, |ps|);
      forall a
        ensures Lookup(Fold(ps, |ps|), a) == Gathered(ps, |ps|, a)
      {
        FoldLookup(ps, |ps|, a);
      }
    } else {
      var e := FirstFailure(ps, |ps|).value;
      ParseAllAt(lines, e);
      forall k | 0 <= k < e
        ensures ParseLine(lines[k]).Success?
      {
        ParseAllAt(lines, k);
      }
    }
  }
}
