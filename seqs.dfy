/** Generic facts about sequences used by the table lemmas. */
module Seqs {
  /** The number of occurrences of `x` in `s`. */
  function Occ<T(==)>(s: seq<T>, x: T): (k: nat)
    ensures k <= |s|
  {
    if |s| == 0 then 0 else Occ(s[..|s| - 1], x) + (if s[|s| - 1] == x then 1 else 0)
  }

  /** A one-element sequence holds `x` once or not at all. */
  lemma OccSingle<T>(y: T, x: T)
    ensures Occ([y], x) == if y == x then 1 else 0
  {
    assert [y][..0] == [];
  }

  /** Membership in a prefix one longer. */
  lemma InPrefix<T>(s: seq<T>, n: nat, x: T)
    requires 0 < n <= |s|
    ensures x in s[..n] <==> x in s[..n - 1] || x == s[n - 1]
  {
    assert s[..n] == s[..n - 1] + [s[n - 1]];
  }

  /** The front of a slice is a slice. */
  lemma SliceFront<T>(w: seq<T>, a: nat, b: nat, n: nat)
    requires a + n <= b <= |w|
    ensures w[a..b][..n] == w[a..a + n]
  {
  }

  /** The back of a slice is a slice. */
  lemma SliceBack<T>(w: seq<T>, a: nat, b: nat, n: nat)
    requires a + n <= b <= |w|
    ensures w[a..b][n..] == w[a + n..b]
  {
  }

  /** Occurrences add up over a concatenation. */
  lemma {:induction false} OccConcat<T>(s: seq<T>, t: seq<T>, x: T)
    ensures Occ(s + t, x) == Occ(s, x) + Occ(t, x)
  {
    if |t| > 0 {
      assert (s + t)[..|s + t| - 1] == s + t[..|t| - 1];
      OccConcat(s, t[..|t| - 1], x);
    } else {
      assert s + t == s;
    }
  }

  /** `Occ` is the multiplicity in the multiset of the sequence. */
  lemma {:induction false} OccIsMultiplicity<T>(s: seq<T>, x: T)
    ensures multiset(s)[x] == Occ(s, x)
  {
    if |s| > 0 {
      var u := s[..|s| - 1];
      assert s == u + [s[|s| - 1]];
      OccIsMultiplicity(u, x);
    }
  }
}
