/**
 * The parse trees that the CYK table holds. The source uses one node class
 * with a symbol and two nullable children; its three uses become three cases:
 *  - a terminal node, built from the matched character alone;
 *  - a non-terminal whose only child is a terminal node (rule A -> a);
 *  - a non-terminal with two non-terminal children (rule A -> BC).
 */
module ParseTree {

  datatype Tree =
    | Leaf(c: char)
    | Unit(sym: string, ch: char)
    | Bin(sym: string, left: Tree, right: Tree)

  /** The node's `symbol` field: the character itself for a terminal node. */
  function Symbol(t: Tree): string
  {
    match t
    case Leaf(c) => [c]
    case Unit(a, _) => a
    case Bin(a, _, _) => a
  }

  /** The terminal characters of the tree, read left to right. */
  function Yield(t: Tree): (w: string)
    ensures |w| >= 1
    ensures t.Bin? ==> |w| >= 2
  {
    match t
    case Leaf(c) => [c]
    case Unit(_, c) => [c]
    case Bin(_, l, r) => Yield(l) + Yield(r)
  }

  /** Number of node objects the tree is made of. */
  function Size(t: Tree): (n: nat)
  {
    match t
    case Leaf(_) => 1
    case Unit(_, _) => 2
    case Bin(_, l, r) => 1 + Size(l) + Size(r)
  }

  const LastBranch: string := "\U{2514}\U{2500}\U{2500} "
  const MidBranch: string := "\U{251C}\U{2500}\U{2500} "
  const LastIndent: string := "    "
  const MidIndent: string := "\U{2502}   "

  /**
   * The lines printed for `t` when rendered under `indent`: one line per
   * node, depth first and pre-order, the last child of a node getting the
   * closing branch glyph.
   */
  function Render(t: Tree, indent: string, isLast: bool): (lines: seq<string>)
    ensures |lines| == Size(t)
    ensures lines[0] == indent + (if isLast then LastBranch else MidBranch) + Symbol(t)
    decreases Size(t)
  {
    var head := indent + (if isLast then LastBranch else MidBranch) + Symbol(t);
    var inner := indent + (if isLast then LastIndent else MidIndent);
    match t
    case Leaf(_) => [head]
    case Unit(_, c) => [head] + Render(Leaf(c), inner, true)
    case Bin(_, l, r) => [head] + Render(l, inner, false) + Render(r, inner, true)
  }

  /** `s` begins with `prefix`. */
  predicate StartsWith(s: string, prefix: string)
  {
    |prefix| <= |s| && s[..|prefix|] == prefix
  }

  lemma Extended(s: string, outer: string, inner: string)
    requires StartsWith(s, outer + inner)
    ensures StartsWith(s, outer)
  {
    assert s[..|outer|] == s[..|outer + inner|][..|outer|];
  }

  /** Every rendered line begins with the indentation it was rendered under. */
  lemma {:induction false} RenderIndented(t: Tree, indent: string, isLast: bool)
    ensures forall line <- Render(t, indent, isLast) :: StartsWith(line, indent)
    decreases Size(t)
  {
    var lines := Render(t, indent, isLast);
    var inner := if isLast then LastIndent else MidIndent;
    var kids: seq<string> := [];
    match t {
      case Leaf(_) =>
      case Unit(_, c) =>
        RenderIndented(Leaf(c), indent + inner, true);
        kids := Render(Leaf(c), indent + inner, true);
      case Bin(_, l, r) =>
        RenderIndented(l, indent + inner, false);
        RenderIndented(r, indent + inner, true);
        kids := Render(l, indent + inner, false) + Render(r, indent + inner, true);
    }
    assert lines == [lines[0]] + kids;
    assert lines[0] == indent + ((if isLast then LastBranch else MidBranch) + Symbol(t));
    forall line <- lines
      ensures StartsWith(line, indent)
    {
      if line in kids {
        Extended(line, indent, inner);
      }
    }
  }
}
