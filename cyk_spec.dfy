/**
 * What the CYK table holds, as functions of the grammar and the input.
 * Each function lists the nodes in the order in which the parser's loops
 * append them, and takes the number `n` of items its loop has visited, so
 * that the imperative table fill can be proved equal to it step by step.
 * The lemmas then say which nodes these are: exactly the derivations of the
 * cell's substring.
 */
module CykSpec {
  import opened Seqs
  import opened ParseTree
  import opened Grammars

  /** The distinguished start symbol. */
  const Start: string := "S"

  /**
   * The node of a binary production is licensed by the grammar: both
   * children carry one-character names B and C, and `A -> BC` is a rule.
   */
  predicate BinaryStep(g: Grammar, t: Tree)
    requires t.Bin?
  {
    |Symbol(t.left)| == 1 && |Symbol(t.right)| == 1 &&
    Produces(g, t.sym, Symbol(t.left) + Symbol(t.right))
  }

  /** A derivation tree of the CNF grammar: rules `A -> a` and `A -> BC` only. */
  predicate Derivation(g: Grammar, t: Tree)
  {
    match t
    case Leaf(_) => false
    case Unit(a, c) => Produces(g, a, [c])
    case Bin(_, l, r) => Derivation(g, l) && Derivation(g, r) && BinaryStep(g, t)
  }

  /** `w` is derivable from `a`. */
  ghost predicate Derivable(g: Grammar, w: string, a: string)
  {
    exists t :: Derivation(g, t) && Symbol(t) == a && Yield(t) == w
  }

  // ---------------------------------------------------------------- diagonal

  /** The nodes `(a, c)` from the first `n` alternatives of key `a`: one per alternative equal to `c`. */
  function DiagAlts(a: string, alts: seq<string>, n: nat, c: char): seq<Tree>
    requires n <= |alts|
  {
    if n == 0 then []
    else DiagAlts(a, alts, n - 1, c) + (if alts[n - 1] == [c] then [Unit(a, c)] else [])
  }

  /** The nodes from the first `n` rules for the character `c`. */
  function Diag(g: Grammar, n: nat, c: char): seq<Tree>
    requires n <= |g|
  {
    if n == 0 then []
    else Diag(g, n - 1, c) + DiagAlts(g[n - 1].lhs, g[n - 1].alts, |g[n - 1].alts|, c)
  }

  // ------------------------------------------------------------ longer spans

  /** Right partners among the first `n` of `rs` for left node `l` and rule `a -> bc`. */
  function Matches(a: string, b: char, c: char, l: Tree, rs: seq<Tree>, n: nat): seq<Tree>
    requires n <= |rs|
  {
    if n == 0 then []
    else
      var r := rs[n - 1];
      Matches(a, b, c, l, rs, n - 1) + (if Symbol(l) == [b] && Symbol(r) == [c] then [Bin(a, l, r)] else [])
  }

  /** All fitting pairs for rule `a -> bc` whose left node is among the first `n` of `ls`. */
  function Combos(a: string, b: char, c: char, ls: seq<Tree>, n: nat, rs: seq<Tree>): seq<Tree>
    requires n <= |ls|
  {
    if n == 0 then []
    else Combos(a, b, c, ls, n - 1, rs) + Matches(a, b, c, ls[n - 1], rs, |rs|)
  }

  /** The nodes for key `a` from its first `n` alternatives; those not two symbols long add nothing. */
  function AltCombos(a: string, alts: seq<string>, n: nat, ls: seq<Tree>, rs: seq<Tree>): seq<Tree>
    requires n <= |alts|
  {
    if n == 0 then []
    else
      var alt := alts[n - 1];
      AltCombos(a, alts, n - 1, ls, rs) + (if |alt| == 2 then Combos(a, alt[0], alt[1], ls, |ls|, rs) else [])
  }

  /** The nodes the first `n` rules build from left cell `ls` and right cell `rs`. */
  function RuleCombos(g: Grammar, n: nat, ls: seq<Tree>, rs: seq<Tree>): seq<Tree>
    requires n <= |g|
  {
    if n == 0 then []
    else RuleCombos(g, n - 1, ls, rs) + AltCombos(g[n - 1].lhs, g[n - 1].alts, |g[n - 1].alts|, ls, rs)
  }

  /** The table cell `dp[i][j]` for the span `w[i..j]`, both ends included. */
  function Cell(g: Grammar, w: string, i: nat, j: nat): seq<Tree>
    requires i <= j < |w|
    decreases j - i, 1
  {
    if i == j then Diag(g, |g|, w[i]) else Splits(g, w, i, j, j)
  }

  /** The part of `dp[i][j]` built from the split points `i <= k < m`. */
  function Splits(g: Grammar, w: string, i: nat, j: nat, m: nat): seq<Tree>
    requires i <= m <= j < |w|
    decreases j - i, 0, m - i
  {
    if m == i then [] else Splits(g, w, i, j, m - 1) + Part(g, w, i, j, m - 1)
  }

  /** The nodes split point `k` contributes to `dp[i][j]`. */
  function Part(g: Grammar, w: string, i: nat, j: nat, k: nat): seq<Tree>
    requires i <= k < j < |w|
    decreases j - i, 0, 0
  {
    RuleCombos(g, |g|, Cell(g, w, i, k), Cell(g, w, k + 1, j))
  }

  // ------------------------------------------------------- membership lemmas

  lemma {:induction false} InDiagAlts(a: string, alts: seq<string>, n: nat, c: char, t: Tree)
    requires n <= |alts|
    ensures t in DiagAlts(a, alts, n, c) <==> t == Unit(a, c) && [c] in alts[..n]
  {
    if n > 0 {
      InDiagAlts(a, alts, n - 1, c, t);
      InPrefix(alts, n, [c]);
    }
  }

  lemma {:induction false} InDiagUpTo(g: Grammar, n: nat, c: char, t: Tree)
    requires n <= |g|
    ensures t in Diag(g, n, c) <==> t.Unit? && t.ch == c && [c] in LookupUpTo(g, n, t.sym)
  {
    if n > 0 {
      var r := g[n - 1];
      InDiagUpTo(g, n - 1, c, t);
      InDiagAlts(r.lhs, r.alts, |r.alts|, c, t);
      assert r.alts[..|r.alts|] == r.alts;
    }
  }

  /** Diagonal cells hold exactly the nodes `(A, c)` with `A -> c` a rule. */
  lemma InDiag(g: Grammar, c: char, t: Tree)
    ensures t in Diag(g, |g|, c) <==> t.Unit? && t.ch == c && Produces(g, t.sym, [c])
  {
    InDiagUpTo(g, |g|, c, t);
  }

  lemma {:induction false} DiagAltsCount(b: string, alts: seq<string>, n: nat, c: char, a: string)
    requires n <= |alts|
    ensures Occ(DiagAlts(b, alts, n, c), Unit(a, c)) == if a == b then Occ(alts[..n], [c]) else 0
  {
    if n > 0 {
      var prev, x := DiagAlts(b, alts, n - 1, c), alts[n - 1];
      var step: seq<Tree> := if x == [c] then [Unit(b, c)] else [];
      DiagAltsCount(b, alts, n - 1, c, a);
      OccConcat(prev, step, Unit(a, c));
      if x == [c] {
        OccSingle(Unit(b, c), Unit(a, c));
      }
      var pre := alts[..n];
      assert pre[..n - 1] == alts[..n - 1] && pre[n - 1] == x;
    }
  }

  lemma {:induction false} DiagCountUpTo(g: Grammar, n: nat, c: char, a: string)
    requires n <= |g|
    ensures Occ(Diag(g, n, c), Unit(a, c)) == Occ(LookupUpTo(g, n, a), [c])
  {
    if n > 0 {
      var r := g[n - 1];
      DiagCountUpTo(g, n - 1, c, a);
      DiagAltsCount(r.lhs, r.alts, |r.alts|, c, a);
      assert r.alts[..|r.alts|] == r.alts;
      OccConcat(Diag(g, n - 1, c), DiagAlts(r.lhs, r.alts, |r.alts|, c), Unit(a, c));
      OccConcat(LookupUpTo(g, n - 1, a), if r.lhs == a then r.alts else [], [c]);
    }
  }

  /**
   * Ambiguity on the diagonal is kept: the node `(A, c)` occurs once for
   * every occurrence of the alternative `c` among the alternatives of `A`.
   */
  lemma DiagCount(g: Grammar, c: char, a: string)
    ensures multiset(Diag(g, |g|, c))[Unit(a, c)] == multiset(Lookup(g, a))[[c]]
  {
    DiagCountUpTo(g, |g|, c, a);
    OccIsMultiplicity(Diag(g, |g|, c), Unit(a, c));
    OccIsMultiplicity(Lookup(g, a), [c]);
  }

  lemma {:induction false} InMatches(a: string, b: char, c: char, l: Tree, rs: seq<Tree>, n: nat, t: Tree)
    requires n <= |rs|
    ensures t in Matches(a, b, c, l, rs, n) <==>
      t.Bin? && t.sym == a && t.left == l && t.right in rs[..n] && Symbol(l) == [b] && Symbol(t.right) == [c]
  {
    if n > 0 {
      InMatches(a, b, c, l, rs, n - 1, t);
      if t.Bin? {
        InPrefix(rs, n, t.right);
      }
    }
  }

  lemma {:induction false} InCombos(a: string, b: char, c: char, ls: seq<Tree>, n: nat, rs: seq<Tree>, t: Tree)
    requires n <= |ls|
    ensures t in Combos(a, b, c, ls, n, rs) <==>
      t.Bin? && t.sym == a && t.left in ls[..n] && t.right in rs && Symbol(t.left) == [b] && Symbol(t.right) == [c]
  {
    if n > 0 {
      InCombos(a, b, c, ls, n - 1, rs, t);
      InMatches(a, b, c, ls[n - 1], rs, |rs|, t);
      assert rs[..|rs|] == rs;
      if t.Bin? {
        InPrefix(ls, n, t.left);
      }
    }
  }

  /** Two one-character names form the two-symbol alternative `bc`. */
  predicate FitsPair(t: Tree, alt: string)
    requires t.Bin?
  {
    |Symbol(t.left)| == 1 && |Symbol(t.right)| == 1 && Symbol(t.left) + Symbol(t.right) == alt
  }

  lemma PairIff(t: Tree, alt: string)
    requires t.Bin?
    ensures FitsPair(t, alt) <==> |alt| == 2 && Symbol(t.left) == [alt[0]] && Symbol(t.right) == [alt[1]]
  {
    if |alt| == 2 {
      assert alt == [alt[0]] + [alt[1]];
    }
  }

  lemma {:induction false} InAltCombos(a: string, alts: seq<string>, n: nat, ls: seq<Tree>, rs: seq<Tree>, t: Tree)
    requires n <= |alts|
    ensures t in AltCombos(a, alts, n, ls, rs) <==>
      t.Bin? && t.sym == a && t.left in ls && t.right in rs &&
      |Symbol(t.left)| == 1 && |Symbol(t.right)| == 1 && Symbol(t.left) + Symbol(t.right) in alts[..n]
  {
    if n > 0 {
      var alt := alts[n - 1];
      InAltCombos(a, alts, n - 1, ls, rs, t);
      if |alt| == 2 {
        InCombos(a, alt[0], alt[1], ls, |ls|, rs, t);
        assert ls[..|ls|] == ls;
      }
      if t.Bin? {
        InPrefix(alts, n, Symbol(t.left) + Symbol(t.right));
        PairIff(t, alt);
      }
    }
  }

  lemma {:induction false} InRuleCombosUpTo(g: Grammar, n: nat, ls: seq<Tree>, rs: seq<Tree>, t: Tree)
    requires n <= |g|
    ensures t in RuleCombos(g, n, ls, rs) <==>
      t.Bin? && t.left in ls && t.right in rs &&
      |Symbol(t.left)| == 1 && |Symbol(t.right)| == 1 && Symbol(t.left) + Symbol(t.right) in LookupUpTo(g, n, t.sym)
  {
    if n > 0 {
      var r := g[n - 1];
      InRuleCombosUpTo(g, n - 1, ls, rs, t);
      InAltCombos(r.lhs, r.alts, |r.alts|, ls, rs, t);
      assert r.alts[..|r.alts|] == r.alts;
    }
  }

  /** One split point combines every fitting left/right pair under every binary rule. */
  lemma InRuleCombos(g: Grammar, ls: seq<Tree>, rs: seq<Tree>, t: Tree)
    ensures t in RuleCombos(g, |g|, ls, rs) <==> t.Bin? && t.left in ls && t.right in rs && BinaryStep(g, t)
  {
    InRuleCombosUpTo(g, |g|, ls, rs, t);
  }

  /** A node of `Splits` comes from one split point `k` below `m`. */
  lemma {:induction false} SplitsSound(g: Grammar, w: string, i: nat, j: nat, m: nat, t: Tree) returns (k: nat)
    requires i <= m <= j < |w|
    requires t in Splits(g, w, i, j, m)
    ensures i <= k < m
    ensures t in Part(g, w, i, j, k)
    decreases m - i
  {
    if t in Splits(g, w, i, j, m - 1) {
      k := SplitsSound(g, w, i, j, m - 1, t);
    } else {
      k := m - 1;
    }
  }

  /** Every node that split point `k` below `m` contributes is in `Splits`. */
  lemma {:induction false} SplitsComplete(g: Grammar, w: string, i: nat, j: nat, m: nat, k: nat, t: Tree)
    requires i <= k < m <= j < |w|
    requires t in Part(g, w, i, j, k)
    ensures t in Splits(g, w, i, j, m)
    decreases m - i
  {
    if k < m - 1 {
      SplitsComplete(g, w, i, j, m - 1, k, t);
    }
  }

  // ------------------------------------------------------------ main theorem

  /** The leaves of a binary node over the split `k` read the whole span. */
  lemma BinYield(t: Tree, w: string, i: nat, k: nat, j: nat)
    requires i <= k < j < |w| && t.Bin?
    requires Yield(t.left) == w[i..k + 1] && Yield(t.right) == w[k + 1..j + 1]
    ensures Yield(t) == w[i..j + 1]
  {
    assert w[i..j + 1] == w[i..k + 1] + w[k + 1..j + 1];
  }

  /** The leaves of the two children of a node over `w[i..j]` split it at `k`. */
  lemma BinSplit(t: Tree, w: string, i: nat, j: nat) returns (k: nat)
    requires i < j < |w| && t.Bin? && Yield(t) == w[i..j + 1]
    ensures i <= k < j
    ensures Yield(t.left) == w[i..k + 1] && Yield(t.right) == w[k + 1..j + 1]
  {
    var yl, yr := Yield(t.left), Yield(t.right);
    var s := w[i..j + 1];
    k := i + |yl| - 1;
    assert s == yl + yr;
    assert yl == s[..|yl|] && yr == s[|yl|..];
    SliceFront(w, i, j + 1, |yl|);
    SliceBack(w, i, j + 1, |yl|);
  }


  /** Every node in `dp[i][j]` is a derivation of `w[i..j]`. */
  lemma {:induction false} CellSound(g: Grammar, w: string, i: nat, j: nat, t: Tree)
    requires i <= j < |w| && t in Cell(g, w, i, j)
    ensures Derivation(g, t) && Yield(t) == w[i..j + 1]
    decreases j - i
  {
    if i == j {
      InDiag(g, w[i], t);
    } else {
      var k := SplitsSound(g, w, i, j, j, t);
      var ls, rs := Cell(g, w, i, k), Cell(g, w, k + 1, j);
      InRuleCombos(g, ls, rs, t);
      CellSound(g, w, i, k, t.left);
      CellSound(g, w, k + 1, j, t.right);
      BinYield(t, w, i, k, j);
    }
  }

  /** Every derivation of `w[i..j]` is a node of `dp[i][j]`: ambiguity is kept. */
  lemma {:induction false} CellComplete(g: Grammar, w: string, i: nat, j: nat, t: Tree)
    requires i <= j < |w| && Derivation(g, t) && Yield(t) == w[i..j + 1]
    ensures t in Cell(g, w, i, j)
    decreases j - i
  {
    if i == j {
      assert t.Unit? && [t.ch] == w[i..i + 1];
      InDiag(g, w[i], t);
    } else {
      assert t.Bin?;
      var k := BinSplit(t, w, i, j);
      CellComplete(g, w, i, k, t.left);
      CellComplete(g, w, k + 1, j, t.right);
      InRuleCombos(g, Cell(g, w, i, k), Cell(g, w, k + 1, j), t);
      SplitsComplete(g, w, i, j, j, k, t);
    }
  }

  /**
   * Soundness and completeness of the table: a node is in `dp[i][j]` if and
   * only if it is a derivation tree of the grammar whose leaves read
   * `w[i..j]`.
   */
  lemma CellExact(g: Grammar, w: string, i: nat, j: nat, t: Tree)
    requires i <= j < |w|
    ensures t in Cell(g, w, i, j) <==> Derivation(g, t) && Yield(t) == w[i..j + 1]
  {
    if t in Cell(g, w, i, j) {
      CellSound(g, w, i, j, t);
    }
    if Derivation(g, t) && Yield(t) == w[i..j + 1] {
      CellComplete(g, w, i, j, t);
    }
  }

  /** Round trip: the leaves of every node in `dp[i][j]` read back `w[i..j]`. */
  lemma CellYield(g: Grammar, w: string, i: nat, j: nat, t: Tree)
    requires i <= j < |w| && t in Cell(g, w, i, j)
    ensures Yield(t) == w[i..j + 1]
    ensures i == j ==> t.Unit? && t.ch == w[i]
    ensures i < j ==> t.Bin?
  {
    CellSound(g, w, i, j, t);
  }

  /** Every node of a derivation is named by a left-hand side of the grammar. */
  lemma DerivationKey(g: Grammar, t: Tree)
    requires Derivation(g, t)
    ensures Symbol(t) in Keys(g)
  {
    var alt := if t.Unit? then [t.ch] else Symbol(t.left) + Symbol(t.right);
    ProducesIff(g, t.sym, alt);
  }

  /** A tree for the whole input is a node of `dp[0][n-1]` and conversely. */
  lemma WholeInput(g: Grammar, w: string, t: Tree)
    requires |w| >= 1
    ensures t in Cell(g, w, 0, |w| - 1) <==> Derivation(g, t) && Yield(t) == w
  {
    assert w[0..|w|] == w;
    CellExact(g, w, 0, |w| - 1, t);
  }

  /** The whole input is derivable from `a` iff some node of `dp[0][n-1]` is named `a`. */
  lemma TopCell(g: Grammar, w: string, a: string)
    requires |w| >= 1
    ensures Derivable(g, w, a) <==> exists t :: t in Cell(g, w, 0, |w| - 1) && Symbol(t) == a
  {
    if Derivable(g, w, a) {
      var t :| Derivation(g, t) && Symbol(t) == a && Yield(t) == w;
      WholeInput(g, w, t);
    }
    if t :| t in Cell(g, w, 0, |w| - 1) && Symbol(t) == a {
      WholeInput(g, w, t);
    }
  }

  // ------------------------------------------------------ rule-length filter

  /** The first `n` alternatives, keeping only those of length 1 or 2. */
  function CnfAlts(alts: seq<string>, n: nat): (r: seq<string>)
    requires n <= |alts|
    ensures |r| <= n
  {
    if n == 0 then []
    else
      var x := alts[n - 1];
      CnfAlts(alts, n - 1) + (if 1 <= |x| <= 2 then [x] else [])
  }

  /** The grammar with every empty or longer-than-two alternative removed. */
  function CnfPart(g: Grammar): Grammar
  {
    seq(|g|, p requires 0 <= p < |g| => Rule(g[p].lhs, CnfAlts(g[p].alts, |g[p].alts|)))
  }

  /** Rule `p` keeps its left-hand side and only its CNF alternatives. */
  lemma CnfPartAt(g: Grammar, p: nat)
    requires p < |g|
    ensures |CnfPart(g)| == |g|
    ensures CnfPart(g)[p] == Rule(g[p].lhs, CnfAlts(g[p].alts, |g[p].alts|))
  {
  }

  lemma {:induction false} DiagAltsAgree(a: string, xs: seq<string>, ys: seq<string>, n: nat, c: char)
    requires n <= |xs| && n <= |ys| && xs[..n] == ys[..n]
    ensures DiagAlts(a, xs, n, c) == DiagAlts(a, ys, n, c)
  {
    if n > 0 {
      assert xs[n - 1] == xs[..n][n - 1] == ys[n - 1];
      assert xs[..n - 1] == xs[..n][..n - 1];
      assert ys[..n - 1] == ys[..n][..n - 1];
      DiagAltsAgree(a, xs, ys, n - 1, c);
    }
  }

  lemma {:induction false} DiagAltsCnf(a: string, alts: seq<string>, n: nat, c: char)
    requires n <= |alts|
    ensures var f := CnfAlts(alts, n); DiagAlts(a, f, |f|, c) == DiagAlts(a, alts, n, c)
  {
    if n > 0 {
      var x, f := alts[n - 1], CnfAlts(alts, n - 1);
      DiagAltsCnf(a, alts, n - 1, c);
      if 1 <= |x| <= 2 {
        var f' := f + [x];
        assert f'[..|f|] == f[..|f|];
        DiagAltsAgree(a, f', f, |f|, c);
      } else {
        assert CnfAlts(alts, n) == f + [] == f;
        assert DiagAlts(a, alts, n, c) == DiagAlts(a, alts, n - 1, c) + [];
      }
    }
  }

  lemma {:induction false} DiagCnfUpTo(g: Grammar, n: nat, c: char)
    requires n <= |g|
    ensures Diag(CnfPart(g), n, c) == Diag(g, n, c)
  {
    if n > 0 {
      var h, r := CnfPart(g), g[n - 1];
      var f := CnfAlts(r.alts, |r.alts|);
      DiagCnfUpTo(g, n - 1, c);
      DiagAltsCnf(r.lhs, r.alts, |r.alts|, c);
      CnfPartAt(g, n - 1);
      assert Diag(h, n, c) == Diag(h, n - 1, c) + DiagAlts(r.lhs, f, |f|, c);
    }
  }

  lemma {:induction false} AltCombosAgree(a: string, xs: seq<string>, ys: seq<string>, n: nat, ls: seq<Tree>, rs: seq<Tree>)
    requires n <= |xs| && n <= |ys| && xs[..n] == ys[..n]
    ensures AltCombos(a, xs, n, ls, rs) == AltCombos(a, ys, n, ls, rs)
  {
    if n > 0 {
      assert xs[n - 1] == xs[..n][n - 1] == ys[n - 1];
      assert xs[..n - 1] == xs[..n][..n - 1];
      assert ys[..n - 1] == ys[..n][..n - 1];
      AltCombosAgree(a, xs, ys, n - 1, ls, rs);
    }
  }

  lemma {:induction false} AltCombosCnf(a: string, alts: seq<string>, n: nat, ls: seq<Tree>, rs: seq<Tree>)
    requires n <= |alts|
    ensures var f := CnfAlts(alts, n); AltCombos(a, f, |f|, ls, rs) == AltCombos(a, alts, n, ls, rs)
  {
    if n > 0 {
      var x, f := alts[n - 1], CnfAlts(alts, n - 1);
      AltCombosCnf(a, alts, n - 1, ls, rs);
      if 1 <= |x| <= 2 {
        var f' := f + [x];
        assert f'[..|f|] == f[..|f|];
        AltCombosAgree(a, f', f, |f|, ls, rs);
      } else {
        assert CnfAlts(alts, n) == f + [] == f;
        assert AltCombos(a, alts, n, ls, rs) == AltCombos(a, alts, n - 1, ls, rs) + [];
      }
    }
  }

  lemma {:induction false} RuleCombosCnf(g: Grammar, n: nat, ls: seq<Tree>, rs: seq<Tree>)
    requires n <= |g|
    ensures RuleCombos(CnfPart(g), n, ls, rs) == RuleCombos(g, n, ls, rs)
  {
    if n > 0 {
      var h, r := CnfPart(g), g[n - 1];
      var f := CnfAlts(r.alts, |r.alts|);
      RuleCombosCnf(g, n - 1, ls, rs);
      AltCombosCnf(r.lhs, r.alts, |r.alts|, ls, rs);
      CnfPartAt(g, n - 1);
      assert RuleCombos(h, n, ls, rs) == RuleCombos(h, n - 1, ls, rs) + AltCombos(r.lhs, f, |f|, ls, rs);
    }
  }

  /**
   * Only alternatives of length 1 (on the diagonal) and 2 (on longer spans)
   * are ever used: removing the empty and the longer ones changes no cell
   * of the table, contents and order included.
   */
  lemma {:induction false} CellCnf(g: Grammar, w: string, i: nat, j: nat)
    requires i <= j < |w|
    ensures Cell(CnfPart(g), w, i, j) == Cell(g, w, i, j)
    decreases j - i, 1
  {
    if i == j {
      DiagCnfUpTo(g, |g|, w[i]);
    } else {
      SplitsCnf(g, w, i, j, j);
    }
  }

  lemma {:induction false} SplitsCnf(g: Grammar, w: string, i: nat, j: nat, m: nat)
    requires i <= m <= j < |w|
    ensures Splits(CnfPart(g), w, i, j, m) == Splits(g, w, i, j, m)
    decreases j - i, 0, m - i
  {
    if m > i {
      var h, k := CnfPart(g), m - 1;
      var ls, rs := Cell(g, w, i, k), Cell(g, w, k + 1, j);
      SplitsCnf(g, w, i, j, k);
      CellCnf(g, w, i, k);
      CellCnf(g, w, k + 1, j);
      RuleCombosCnf(g, |g|, ls, rs);
      calc {
        Splits(h, w, i, j, m);
        Splits(h, w, i, j, k) + RuleCombos(h, |h|, Cell(h, w, i, k), Cell(h, w, k + 1, j));
        Splits(g, w, i, j, k) + RuleCombos(h, |g|, ls, rs);
        Splits(g, w, i, j, k) + RuleCombos(g, |g|, ls, rs);
        Splits(g, w, i, j, m);
      }
    }
  }
}
