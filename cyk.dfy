/**
 * The CYK parser itself: the table `dp` is a two-dimensional array of node
 * lists, filled by the same nested loops as the source (diagonal first, then
 * spans by increasing length, split point, key, alternative, left node and
 * right node), and then searched for a node named by the start symbol.
 * Each method is proved equal to the corresponding function of CykSpec.
 */
module Cyk {
  import opened Wrappers
  import opened ParseTree
  import opened Grammars
  import opened CykSpec

  /** Lines 83-92 of the source: the diagonal cell for character `c`, one node per alternative equal to `c`. */
  method DiagonalCell(g: Grammar, c: char) returns (cell: seq<Tree>)
    ensures cell == Diag(g, |g|, c)
  {
    cell := [];
    var p := 0;
    while p < |g|
      invariant 0 <= p <= |g|
      invariant cell == Diag(g, p, c)
    {
      var lhs, alts := g[p].lhs, g[p].alts;
      var q := 0;
      while q < |alts|
        invariant 0 <= q <= |alts|
        invariant cell == Diag(g, p, c) + DiagAlts(lhs, alts, q, c)
      {
        if alts[q] == [c] {
          cell := cell + [Unit(lhs, c)];
        }
        q := q + 1;
      }
      p := p + 1;
    }
  }

  /** Lines 110-117 of the source: the nodes `(lhs, left, right)` for the rule `lhs -> bc` over every left/right pair. */
  method MatchPairs(lhs: string, b: char, c: char, ls: seq<Tree>, rs: seq<Tree>) returns (out: seq<Tree>)
    ensures out == Combos(lhs, b, c, ls, |ls|, rs)
  {
    out := [];
    var x := 0;
    while x < |ls|
      invariant 0 <= x <= |ls|
      invariant out == Combos(lhs, b, c, ls, x, rs)
    {
      var left := ls[x];
      var y := 0;
      while y < |rs|
        invariant 0 <= y <= |rs|
        invariant out == Combos(lhs, b, c, ls, x, rs) + Matches(lhs, b, c, left, rs, y)
      {
        var right := rs[y];
        if Symbol(left) == [b] && Symbol(right) == [c] {
          out := out + [Bin(lhs, left, right)];
        }
        y := y + 1;
      }
      x := x + 1;
    }
  }

  /** Lines 104-119 of the source: what the alternatives of one key add at one split point. */
  method CombineRule(lhs: string, alts: seq<string>, ls: seq<Tree>, rs: seq<Tree>) returns (out: seq<Tree>)
    ensures out == AltCombos(lhs, alts, |alts|, ls, rs)
  {
    out := [];
    var q := 0;
    while q < |alts|
      invariant 0 <= q <= |alts|
      invariant out == AltCombos(lhs, alts, q, ls, rs)
    {
      var rhs := alts[q];
      if |rhs| == 2 {
        var part := MatchPairs(lhs, rhs[0], rhs[1], ls, rs);
        out := out + part;
      } else {
        assert AltCombos(lhs, alts, q + 1, ls, rs) == out + [];
      }
      q := q + 1;
    }
  }

  /** Lines 102-120 of the source: what one split point adds, over every key and every two-symbol alternative. */
  method CombineSplit(g: Grammar, ls: seq<Tree>, rs: seq<Tree>) returns (out: seq<Tree>)
    ensures out == RuleCombos(g, |g|, ls, rs)
  {
    out := [];
    var p := 0;
    while p < |g|
      invariant 0 <= p <= |g|
      invariant out == RuleCombos(g, p, ls, rs)
    {
      var part := CombineRule(g[p].lhs, g[p].alts, ls, rs);
      out := out + part;
      p := p + 1;
    }
  }

  /**
   * Lines 79-123 of the source: allocate and fill the table. Spans are
   * processed by increasing length, so the two cells a split reads are
   * final before the cell that depends on them is computed; the loop
   * invariants say exactly which cells are final at each point.
   */
  method BuildTable(g: Grammar, w: string) returns (dp: array2<seq<Tree>>)
    ensures fresh(dp) && dp.Length0 == |w| && dp.Length1 == |w|
    ensures forall i, j :: 0 <= i <= j < |w| ==> dp[i, j] == Cell(g, w, i, j)
  {
    var n := |w|;
    dp := new seq<Tree>[n, n];
    var i := 0;
    while i < n
      invariant 0 <= i <= n
      invariant forall a :: 0 <= a < i ==> dp[a, a] == Cell(g, w, a, a)
    {
      var d := DiagonalCell(g, w[i]);
      dp[i, i] := d;
      i := i + 1;
    }
    var len := 2;
    while len <= n
      invariant 2 <= len <= n + 2
      invariant forall a, b :: 0 <= a <= b < n && b - a < len - 1 ==> dp[a, b] == Cell(g, w, a, b)
    {
      i := 0;
      while i <= n - len
        invariant 0 <= i <= n - len + 1
        invariant forall a, b :: 0 <= a <= b < n && b - a < len - 1 ==> dp[a, b] == Cell(g, w, a, b)
        invariant forall a, b :: 0 <= a < i && b == a + len - 1 ==> dp[a, b] == Cell(g, w, a, b)
      {
        var j := i + len - 1;
        var cell: seq<Tree> := [];
        var k := i;
        while k < j
          invariant i <= k <= j
          invariant cell == Splits(g, w, i, j, k)
          invariant forall a, b :: 0 <= a <= b < n && b - a < len - 1 ==> dp[a, b] == Cell(g, w, a, b)
          invariant forall a, b :: 0 <= a < i && b == a + len - 1 ==> dp[a, b] == Cell(g, w, a, b)
        {
          assert dp[i, k] == Cell(g, w, i, k);
          assert dp[k + 1, j] == Cell(g, w, k + 1, j);
          var part := CombineSplit(g, dp[i, k], dp[k + 1, j]);
          assert part == Part(g, w, i, j, k);
          cell := cell + part;
          k := k + 1;
        }
        assert cell == Cell(g, w, i, j);
        dp[i, j] := cell;
        i := i + 1;
      }
      len := len + 1;
    }
  }

  /** Lines 125-130 of the source: the position of the first node of `cell` named `a`, if any. */
  method FirstNamed(cell: seq<Tree>, a: string) returns (r: Option<nat>)
    ensures r.Some? ==> r.value < |cell| && Symbol(cell[r.value]) == a
    ensures r.Some? ==> forall q :: 0 <= q < r.value ==> Symbol(cell[q]) != a
    ensures r.None? ==> forall q :: 0 <= q < |cell| ==> Symbol(cell[q]) != a
  {
    var p := 0;
    while p < |cell|
      invariant 0 <= p <= |cell|
      invariant forall q :: 0 <= q < p ==> Symbol(cell[q]) != a
    {
      if Symbol(cell[p]) == a {
        return Some(p);
      }
      p := p + 1;
    }
    return None;
  }

  /**
   * `cykParse`: a tree for the whole input rooted at "S", or None. It is
   * the first node named "S" in `dp[0][n-1]`, so it exists exactly when
   * the input is derivable from "S"; its leaves read back the input.
   */
  method CykParse(input: string, g: Grammar) returns (r: Option<Tree>)
    requires |input| >= 1
    ensures r.Some? <==> Derivable(g, input, Start)
    ensures r.Some? ==> Derivation(g, r.value) && Symbol(r.value) == Start && Yield(r.value) == input
    ensures var top := Cell(g, input, 0, |input| - 1);
      r.Some? ==> exists p :: 0 <= p < |top| && top[p] == r.value && forall q :: 0 <= q < p ==> Symbol(top[q]) != Start
    ensures r.None? ==> forall t :: t in Cell(g, input, 0, |input| - 1) ==> Symbol(t) != Start
  {
    var n := |input|;
    var dp := BuildTable(g, input);
    var top := dp[0, n - 1];
    assert top == Cell(g, input, 0, n - 1);
    var found := FirstNamed(top, Start);
    TopCell(g, input, Start);
    match found {
      case None =>
        return None;
      case Some(p) =>
        CellSound(g, input, 0, n - 1, top[p]);
        assert input[0..n] == input;
        return Some(top[p]);
    }
  }
}
