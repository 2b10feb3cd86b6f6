/**
 * The two string operations the grammar reader relies on, with Java's
 * semantics: `String.trim` and `String.split` on a literal separator.
 * The functions carry only the facts their callers need to be well formed;
 * what they compute is stated by the lemmas after them.
 */
module Text {
  import opened Wrappers

  /** `String.trim` removes every character up to and including the space, U+0020. */
  predicate IsBlank(c: char)
  {
    c <= ' '
  }

  /** Leading blanks removed. */
  function TrimStart(s: string): (r: string)
    ensures |r| <= |s|
  {
    if |s| > 0 && IsBlank(s[0]) then TrimStart(s[1..]) else s
  }

  /** Trailing blanks removed. */
  function TrimEnd(s: string): (r: string)
    ensures |r| <= |s|
  {
    if |s| > 0 && IsBlank(s[|s| - 1]) then TrimEnd(s[..|s| - 1]) else s
  }

  /** `String.trim`: leading and trailing blanks removed. */
  function Trim(s: string): (r: string)
    ensures |r| <= |s|
  {
    TrimEnd(TrimStart(s))
  }

  /** `TrimStart` keeps a suffix, drops only blanks, and stops at a non-blank. */
  lemma {:induction false} TrimStartSpec(s: string)
    ensures var r := TrimStart(s); r == s[|s| - |r|..]
    ensures var r := TrimStart(s); |r| > 0 ==> !IsBlank(r[0])
    ensures var r := TrimStart(s); forall q :: 0 <= q < |s| - |r| ==> IsBlank(s[q])
  {
    if |s| > 0 && IsBlank(s[0]) {
      TrimStartSpec(s[1..]);
      var r := TrimStart(s);
      forall q | 0 <= q < |s| - |r|
        ensures IsBlank(s[q])
      {
        if q > 0 {
          assert s[q] == s[1..][q - 1];
        }
      }
    }
  }

  /** `TrimEnd` keeps a prefix, drops only blanks, and stops at a non-blank. */
  lemma {:induction false} TrimEndSpec(s: string)
    ensures var r := TrimEnd(s); r == s[..|r|]
    ensures var r := TrimEnd(s); |r| > 0 ==> !IsBlank(r[|r| - 1])
    ensures var r := TrimEnd(s); forall q :: |r| <= q < |s| ==> IsBlank(s[q])
  {
    if |s| > 0 && IsBlank(s[|s| - 1]) {
      var u := s[..|s| - 1];
      TrimEndSpec(u);
      var r := TrimEnd(s);
      assert r == u[..|r|];
      forall q | |r| <= q < |s|
        ensures IsBlank(s[q])
      {
        if q < |s| - 1 {
          assert s[q] == u[q];
        }
      }
    }
  }

  /** The trimmed string neither starts nor ends with a blank. */
  lemma TrimEnds(s: string)
    ensures var r := Trim(s); |r| > 0 ==> !IsBlank(r[0]) && !IsBlank(r[|r| - 1])
  {
    var u := TrimStart(s);
    TrimStartSpec(s);
    TrimEndSpec(u);
    var r := TrimEnd(u);
    if |r| > 0 {
      assert r[0] == u[0];
    }
  }

  /** What `Trim` keeps is one stretch `s[a..a + |Trim(s)|]` with only blanks around it. */
  lemma TrimSlice(s: string) returns (a: nat)
    ensures a + |Trim(s)| <= |s| && Trim(s) == s[a..a + |Trim(s)|]
    ensures forall q :: 0 <= q < a ==> IsBlank(s[q])
    ensures forall q :: a + |Trim(s)| <= q < |s| ==> IsBlank(s[q])
  {
    var u := TrimStart(s);
    TrimStartSpec(s);
    a := |s| - |u|;
    var t := TrimEnd(u);
    TrimEndSpec(u);
    assert u == s[a..];
    assert t == u[..|t|];
    assert u[..|t|] == s[a..a + |t|];
    forall q | a + |t| <= q < |s|
      ensures IsBlank(s[q])
    {
      assert s[q] == u[q - a];
      assert IsBlank(u[q - a]);
    }
  }

  /** Trimming twice is trimming once. */
  lemma TrimIdempotent(s: string)
    ensures Trim(Trim(s)) == Trim(s)
  {
    var t := Trim(s);
    TrimEnds(s);
    assert TrimStart(t) == t;
    assert TrimEnd(t) == t;
  }

  // ------------------------------------------------------------------ split

  /** `sep` occurs in `s` at position `k`. */
  predicate OccursAt(s: string, sep: string, k: nat)
  {
    k + |sep| <= |s| && s[k..k + |sep|] == sep
  }

  /** The first position at or after `k` where `sep` occurs. */
  function FindFrom(s: string, sep: string, k: nat): (r: Option<nat>)
    ensures r.Some? ==> k <= r.value && r.value + |sep| <= |s|
    decreases |s| - k
  {
    if k + |sep| > |s| then None
    else if OccursAt(s, sep, k) then Some(k)
    else FindFrom(s, sep, k + 1)
  }

  /** `FindFrom` finds an occurrence, the first one, and misses none. */
  lemma {:induction false} FindFromSpec(s: string, sep: string, k: nat)
    ensures var r := FindFrom(s, sep, k); r.Some? ==> OccursAt(s, sep, r.value)
    ensures var r := FindFrom(s, sep, k); r.Some? ==> forall q :: k <= q < r.value ==> !OccursAt(s, sep, q)
    ensures var r := FindFrom(s, sep, k); r.None? ==> forall q :: k <= q ==> !OccursAt(s, sep, q)
    decreases |s| - k
  {
    if k + |sep| <= |s| && !OccursAt(s, sep, k) {
      FindFromSpec(s, sep, k + 1);
    }
  }

  /** `s` does not contain `sep`. */
  predicate Free(s: string, sep: string)
  {
    FindFrom(s, sep, 0).None?
  }

  /**
   * The pieces between the occurrences of `sep`, found left to right without
   * overlap, empty pieces included.
   */
  function Pieces(s: string, sep: string): (ps: seq<string>)
    requires |sep| > 0
    ensures |ps| >= 1
    decreases |s|
  {
    match FindFrom(s, sep, 0)
    case None => [s]
    case Some(k) => [s[..k]] + Pieces(s[k + |sep|..], sep)
  }

  /** The pieces put back together with `sep` between them. */
  function Join(ps: seq<string>, sep: string): string
    requires |ps| >= 1
  {
    if |ps| == 1 then ps[0] else ps[0] + sep + Join(ps[1..], sep)
  }

  /** An occurrence inside a stretch of `s` is an occurrence in `s`. */
  lemma OccursInSlice(s: string, sep: string, a: nat, b: nat, q: nat)
    requires a <= b <= |s| && OccursAt(s[a..b], sep, q)
    ensures OccursAt(s, sep, a + q)
  {
    var x, y := s[a..b][q..q + |sep|], s[a + q..a + q + |sep|];
    assert |x| == |y|;
    forall t | 0 <= t < |sep|
      ensures x[t] == y[t]
    {
      assert x[t] == s[a + q + t];
    }
    assert x == y;
  }

  /** Occurrences in a suffix are the occurrences in `s` shifted by its start. */
  lemma OccursInSuffix(s: string, sep: string, a: nat, q: nat)
    requires a <= |s|
    ensures OccursAt(s[a..], sep, q) <==> OccursAt(s, sep, a + q)
  {
    if a + q + |sep| <= |s| {
      var x, y := s[a..][q..q + |sep|], s[a + q..a + q + |sep|];
      forall t | 0 <= t < |sep|
        ensures x[t] == y[t]
      {
        assert x[t] == s[a + q + t];
      }
      assert x == y;
    }
  }

  /** The first piece ends at the first occurrence of `sep`, or at the end of `s` when there is none. */
  lemma PiecesHead(s: string, sep: string) returns (e: nat)
    requires |sep| > 0
    ensures e <= |s| && Pieces(s, sep)[0] == s[..e]
    ensures e == |s| || OccursAt(s, sep, e)
    ensures forall q :: 0 <= q < e ==> !OccursAt(s, sep, q)
  {
    FindFromSpec(s, sep, 0);
    match FindFrom(s, sep, 0) {
      case None =>
        e := |s|;
        assert s[..e] == s;
      case Some(k) =>
        e := k;
    }
  }

  /** After the first occurrence of `sep`, the pieces are those of the rest. */
  lemma PiecesTail(s: string, sep: string) returns (k: nat)
    requires |sep| > 0 && !Free(s, sep)
    ensures OccursAt(s, sep, k) && forall q :: 0 <= q < k ==> !OccursAt(s, sep, q)
    ensures Pieces(s, sep) == [s[..k]] + Pieces(s[k + |sep|..], sep)
  {
    var r := FindFrom(s, sep, 0);
    FindFromSpec(s, sep, 0);
    k := r.value;
    assert Pieces(s, sep) == [s[..k]] + Pieces(s[k + |sep|..], sep) by {
      assert r == Some(k);
    }
  }

  /**
   * When `sep` occurs, the second piece is the text from the end of its first
   * occurrence `k` up to its next occurrence `e`, or to the end of `s`.
   */
  lemma SecondPiece(s: string, sep: string) returns (k: nat, e: nat)
    requires |sep| > 0 && !Free(s, sep)
    ensures OccursAt(s, sep, k) && forall q :: 0 <= q < k ==> !OccursAt(s, sep, q)
    ensures k + |sep| <= e <= |s|
    ensures e == |s| || OccursAt(s, sep, e)
    ensures forall q :: k + |sep| <= q < e ==> !OccursAt(s, sep, q)
    ensures |Pieces(s, sep)| >= 2 && Pieces(s, sep)[1] == s[k + |sep|..e]
  {
    k := PiecesTail(s, sep);
    var a := k + |sep|;
    var rest := s[a..];
    var d := PiecesHead(rest, sep);
    e := a + d;
    assert rest[..d] == s[a..e];
    if d < |rest| {
      OccursInSuffix(s, sep, a, d);
    }
    forall q | a <= q < e
      ensures !OccursAt(s, sep, q)
    {
      OccursInSuffix(s, sep, a, q - a);
    }
  }

  /** A stretch of a string without `sep` has no `sep` either. */
  lemma FreeSlice(s: string, sep: string, a: nat, b: nat)
    requires a <= b <= |s| && Free(s, sep)
    ensures Free(s[a..b], sep)
  {
    FindFromSpec(s, sep, 0);
    FindFromSpec(s[a..b], sep, 0);
    var r := FindFrom(s[a..b], sep, 0);
    if r.Some? {
      OccursInSlice(s, sep, a, b, r.value);
    }
  }

  /** Splitting and joining again gives back the string. */
  lemma {:induction false} JoinPieces(s: string, sep: string)
    requires |sep| > 0
    ensures Join(Pieces(s, sep), sep) == s
    decreases |s|
  {
    FindFromSpec(s, sep, 0);
    match FindFrom(s, sep, 0)
    case None =>
    case Some(k) =>
      var rest := s[k + |sep|..];
      JoinPieces(rest, sep);
      JoinCons(s[..k], Pieces(rest, sep), sep);
      Around(s, k, |sep|);
  }

  lemma JoinCons(p: string, ps: seq<string>, sep: string)
    requires |ps| >= 1
    ensures Join([p] + ps, sep) == p + sep + Join(ps, sep)
  {
    assert ([p] + ps)[1..] == ps;
  }

  lemma Around(s: string, k: nat, n: nat)
    requires k + n <= |s|
    ensures s == s[..k] + s[k..k + n] + s[k + n..]
  {
  }

  /** No piece contains the separator: the split is complete. */
  lemma {:induction false} PiecesFree(s: string, sep: string)
    requires |sep| > 0
    ensures forall p <- Pieces(s, sep) :: Free(p, sep)
    decreases |s|
  {
    FindFromSpec(s, sep, 0);
    match FindFrom(s, sep, 0)
    case None =>
    case Some(k) =>
      PiecesFree(s[k + |sep|..], sep);
      var head := s[..k];
      FindFromSpec(head, sep, 0);
      var r := FindFrom(head, sep, 0);
      if r.Some? {
        OccursInSlice(s, sep, 0, k, r.value);
      }
  }

  /** Java's result for limit 0: trailing empty strings are removed. */
  function DropTrailingEmpty(ps: seq<string>): (r: seq<string>)
    ensures |r| <= |ps|
  {
    if |ps| > 0 && ps[|ps| - 1] == "" then DropTrailingEmpty(ps[..|ps| - 1]) else ps
  }

  /** `DropTrailingEmpty` keeps a prefix, drops only empty strings, and stops at a non-empty one. */
  lemma {:induction false} DropTrailingEmptySpec(ps: seq<string>)
    ensures var r := DropTrailingEmpty(ps); r == ps[..|r|]
    ensures var r := DropTrailingEmpty(ps); |r| > 0 ==> r[|r| - 1] != ""
    ensures var r := DropTrailingEmpty(ps); forall q :: |r| <= q < |ps| ==> ps[q] == ""
  {
    if |ps| > 0 && ps[|ps| - 1] == "" {
      var u := ps[..|ps| - 1];
      DropTrailingEmptySpec(u);
      var r := DropTrailingEmpty(ps);
      assert r == u[..|r|];
      forall q | |r| <= q < |ps|
        ensures ps[q] == ""
      {
        if q < |ps| - 1 {
          assert ps[q] == u[q];
        }
      }
    }
  }

  /**
   * `String.split` with a separator that is a literal string: the string
   * itself when the separator does not occur, otherwise the pieces without
   * the trailing empty ones (possibly none at all).
   */
  function Split(s: string, sep: string): (parts: seq<string>)
    requires |sep| > 0
  {
    var ps := Pieces(s, sep);
    if |ps| == 1 then ps else DropTrailingEmpty(ps)
  }

  /** The two cases of `Split`: no separator, or the pieces without the trailing empty ones. */
  lemma SplitCases(s: string, sep: string)
    requires |sep| > 0
    ensures Free(s, sep) ==> Split(s, sep) == [s]
    ensures !Free(s, sep) ==> Split(s, sep) == DropTrailingEmpty(Pieces(s, sep))
  {
  }

  /** No part of a split contains the separator. */
  lemma SplitFree(s: string, sep: string)
    requires |sep| > 0
    ensures forall p <- Split(s, sep) :: Free(p, sep)
  {
    var ps := Pieces(s, sep);
    PiecesFree(s, sep);
    if |ps| != 1 {
      DropTrailingEmptySpec(ps);
      var r := DropTrailingEmpty(ps);
      forall p | p in r
        ensures Free(p, sep)
      {
        var q :| 0 <= q < |r| && r[q] == p;
        assert p == ps[q];
      }
    }
  }
}
