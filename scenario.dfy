/**
 * A worked instance: the grammar `S -> AB`, `A -> a`, `B -> b` accepts
 * "ab" and rejects "ba". With `CykParse`'s contract these fix its result
 * on both inputs.
 */
module Scenario {
  import opened ParseTree
  import opened Grammars
  import opened CykSpec

  const G: Grammar := [Rule("S", ["AB"]), Rule("A", ["a"]), Rule("B", ["b"])]

  lemma LookupG()
    ensures Lookup(G, "S") == ["AB"] && Lookup(G, "A") == ["a"] && Lookup(G, "B") == ["b"]
  {
    assert LookupUpTo(G, 1, "S") == ["AB"];
    assert LookupUpTo(G, 2, "S") == ["AB"];
    assert LookupUpTo(G, 2, "A") == ["a"];
    assert LookupUpTo(G, 2, "B") == [];
  }

  /** "ab" has the tree S(A(a), B(b)). */
  lemma Accepted()
    ensures Derivable(G, "ab", Start)
  {
    LookupG();
    var t := Bin("S", Unit("A", 'a'), Unit("B", 'b'));
    assert Symbol(t.left) + Symbol(t.right) == "AB";
    assert Derivation(G, t) && Yield(t) == "ab";
  }

  /** "ba" has no tree rooted at S: its left child would be named B, and no rule starts with B. */
  lemma Rejected()
    ensures !Derivable(G, "ba", Start)
  {
    LookupG();
    forall t | Derivation(G, t) && Yield(t) == "ba"
      ensures Symbol(t) != Start
    {
      assert t.Bin?;
      var k := BinSplit(t, "ba", 0, 1);
      assert "ba"[0..1] == "b";
      var l := t.left;
      assert Derivation(G, l) && Yield(l) == "b";
      assert l.Unit? && l.ch == 'b';
      ProducesIff(G, l.sym, "b");
      assert Symbol(l) == "B";
      var alt := Symbol(l) + Symbol(t.right);
      assert alt[0] == 'B';
      assert alt !in Lookup(G, "S");
      assert Produces(G, t.sym, alt);
    }
  }
}
