/**
  When a call leaves no occurrence of the source, and a second call has nothing to do.
*/
module Elimination {
  import opened Substitution

  /** One string is a prefix of the other. */
  predicate Compatible(a: string, b: string) {
    a <= b || b <= a
  }

  /** The source may start inside the destination... */
  ghost predicate StartsInside(src: string, dst: string, d: nat) {
    d < |dst| && Compatible(dst[d..], src)
  }

  /** ... or run into it from a piece that can be kept before a match. */
  ghost predicate RunsInto(src: string, dst: string, n: nat) {
    0 < n < |src| && NoEarlierMatch(src[..n], src) && Compatible(dst, src[n..])
  }

  /** The destination can become part of a new occurrence of the source. */
  ghost predicate Recreates(src: string, dst: string) {
    (exists d: nat :: StartsInside(src, dst, d)) || (exists n: nat :: RunsInto(src, dst, n))
  }

  ghost predicate AlwaysEliminates(src: string, dst: string)
    requires src != ""
  {
    forall text :: !Contains(Rewrite(text, src, dst), src)
  }

  /** A call leaves no occurrence of the source in any text, not even across a seam, exactly
      if the source can neither start inside the destination nor run into it. */
  lemma EliminatesIff(src: string, dst: string)
    requires src != ""
    ensures AlwaysEliminates(src, dst) <==> !Recreates(src, dst)
  {
    if Recreates(src, dst) {
      if d: nat :| StartsInside(src, dst, d) {
        RecreatedInside(src, dst, d);
      } else {
        var n: nat :| RunsInto(src, dst, n);
        RecreatedAcross(src, dst, n);
      }
    } else {
      forall text
        ensures !Contains(Rewrite(text, src, dst), src)
      {
        RewriteIsSplitJoin(text, src, dst);
        SplitIsGreedy(text, src);
        JoinEliminates(Split(text, src), src, dst);
      }
    }
  }

  lemma {:induction false} JoinEliminates(p: Pieces, src: string, dst: string)
    requires src != "" && Greedy(p, src) && !Recreates(src, dst)
    ensures !Contains(Join(p, dst), src)
  {
    match p
    case Last(_) =>
    case Piece(k, r) =>
      var rest := Join(r, dst);
      JoinEliminates(r, src, dst);
      forall j: nat
        ensures !OccursAt(k + dst + rest, src, j)
      {
        NoneInFirstPiece(k, src, dst, rest, j);
      }
  }

  lemma NoneInFirstPiece(k: string, src: string, dst: string, rest: string, j: nat)
    requires src != "" && NoEarlierMatch(k, src) && !Recreates(src, dst) && !Contains(rest, src)
    ensures !OccursAt(k + dst + rest, src, j)
  {
    var result := k + dst + rest;
    assert result == k + (dst + rest);
    if j + |src| <= |k| {
      OccursLeft(k, dst + rest, src, j);
      OccursLeft(k, src, src, j);
    } else if j < |k| {
      RunsIntoAt(k, dst + rest, src, j);
      CompatiblePrefixes(dst, rest, src[|k| - j..]);
      SuffixHasNoEarlierMatch(k, src, j);
      assert !RunsInto(src, dst, |k| - j);
    } else if j < |k| + |dst| {
      OccursRight(k, dst + rest, src, j - |k|);
      var d := j - |k|;
      assert (dst + rest)[d..] == dst[d..] + rest;
      PrefixOfRest(dst + rest, src, d);
      CompatiblePrefixes(dst[d..], rest, src);
      assert !StartsInside(src, dst, d);
    } else {
      OccursRight(k + dst, rest, src, j - |k| - |dst|);
    }
  }

  lemma PrefixOfRest(text: string, s: string, d: nat)
    requires d <= |text|
    ensures OccursAt(text, s, d) <==> s <= text[d..]
  {
    if d + |s| <= |text| {
      assert text[d..d + |s|] == text[d..][..|s|];
    }
  }

  lemma CompatiblePrefixes(a: string, b: string, s: string)
    ensures s <= a + b ==> Compatible(a, s)
  {
  }

  /** An occurrence that starts in `k` and ends behind it. */
  lemma RunsIntoAt(k: string, after: string, src: string, j: nat)
    requires j < |k| < j + |src|
    ensures OccursAt(k + after, src, j) ==> src[..|k| - j] == k[j..] && src[|k| - j..] <= after
  {
    var n := |k| - j;
    PrefixOfRest(k + after, src, j);
    assert (k + after)[j..] == k[j..] + after;
    SplitPrefix(src, k[j..], after);
  }

  lemma SplitPrefix(s: string, a: string, b: string)
    requires |a| < |s|
    ensures s <= a + b ==> s[..|a|] == a && s[|a|..] <= b
  {
    assert |s| <= |a + b| ==> (a + b)[..|s|][..|a|] == a;
    assert |s| <= |a + b| ==> (a + b)[..|s|][|a|..] == b[..|s| - |a|];
  }

  lemma SuffixHasNoEarlierMatch(k: string, src: string, j: nat)
    requires j <= |k| && NoEarlierMatch(k, src)
    ensures NoEarlierMatch(k[j..], src)
  {
    assert k + src == k[..j] + (k[j..] + src);
    forall i: nat | i < |k| - j
      ensures !OccursAt(k[j..] + src, src, i)
    {
      OccursRight(k[..j], k[j..] + src, src, i);
    }
  }

  lemma ShortContainsNothing(y: string, src: string)
    requires |y| < |src|
    ensures !Contains(y, src)
  {
  }

  /** Joined with the source, the pieces `x` and `y` give a text that the call turns into
      `x + dst + y`. */
  lemma TwoPieces(x: string, y: string, src: string, dst: string)
    requires src != "" && NoEarlierMatch(x, src) && |y| < |src|
    ensures Rewrite(x + src + y, src, dst) == x + dst + y
  {
    var p := Piece(x, Last(y));
    ShortContainsNothing(y, src);
    GreedyCutIsUnique(x + src + y, src, p);
    RewriteIsSplitJoin(x + src + y, src, dst);
  }

  lemma ContainsMiddle(a: string, s: string, b: string)
    ensures Contains(a + s + b, s)
  {
    assert (a + s + b)[|a|..|a| + |s|] == s;
    assert OccursAt(a + s + b, s, |a|);
  }

  /** Compatible strings can be completed to the same string. */
  lemma Complete(b: string, s: string) returns (y: string, c: string)
    requires Compatible(b, s)
    ensures b + y == s + c
    ensures |y| <= |s| && (b != "" && s != "" ==> |y| < |s|)
  {
    if b <= s {
      y, c := s[|b|..], "";
    } else {
      y, c := "", b[|s|..];
    }
  }

  lemma Regroup(a: string, b: string, c: string)
    ensures a + b + c == a + (b + c)
  {
  }

  lemma RecreatedInside(src: string, dst: string, d: nat)
    requires src != "" && StartsInside(src, dst, d)
    ensures !AlwaysEliminates(src, dst)
  {
    var y, c := Complete(dst[d..], src);
    TwoPieces("", y, src, dst);
    assert "" + dst == dst[..d] + dst[d..];
    Regroup(dst[..d], dst[d..], y);
    Regroup(dst[..d], src, c);
    ContainsMiddle(dst[..d], src, c);
    assert Contains(Rewrite("" + src + y, src, dst), src);
  }

  lemma RecreatedAcross(src: string, dst: string, n: nat)
    requires src != "" && RunsInto(src, dst, n)
    ensures !AlwaysEliminates(src, dst)
  {
    var x := src[..n];
    var y, c := Complete(dst, src[n..]);
    TwoPieces(x, y, src, dst);
    assert x + dst + y == src + c by {
      Regroup(x, dst, y);
      Regroup(x, src[n..], c);
      assert src == x + src[n..];
    }
    ContainsAtStart(src, c);
    assert Contains(Rewrite(x + src + y, src, dst), src);
  }

  lemma ContainsAtStart(s: string, b: string)
    ensures Contains(s + b, s)
  {
    ContainsMiddle("", s, b);
    assert "" + s + b == s + b;
  }

  /** In particular nothing is left if the destination is non-empty and has no character in
      common with the source.  Neither condition can be dropped: deleting "ab" from "aabb"
      closes up a new "ab", and replacing it by "a" in "abb" makes one. */
  lemma ForeignDestinationEliminates(src: string, dst: string)
    requires src != ""
    ensures dst != "" && NoCommonChar(dst, src) ==> AlwaysEliminates(src, dst)
    ensures Rewrite("aabb", "ab", "") == Rewrite("abb", "ab", "a") == "ab"
  {
    if dst != "" && NoCommonChar(dst, src) {
      forall d: nat
        ensures !StartsInside(src, dst, d)
      {
        assert d < |dst| ==> dst[d..][0] == dst[d] && dst[d] in dst && src[0] in src;
      }
      forall n: nat
        ensures !RunsInto(src, dst, n)
      {
        assert n < |src| ==> src[n..][0] == src[n] && src[n] in src && dst[0] in dst;
      }
    }
    EliminatesIff(src, dst);
    assert "aabb"[..2] == "aa" && "aabb"[1..] == "abb";
    assert "abb"[..2] == "ab" && "abb"[2..] == "b";
    assert Rewrite("b", "ab", "") == "b" && Rewrite("b", "ab", "a") == "b";
    assert Rewrite("abb", "ab", "") == "b";
  }

  ghost predicate AlwaysIdempotent(src: string, dst: string)
    requires src != ""
  {
    forall text :: Rewrite(Rewrite(text, src, dst), src, dst) == Rewrite(text, src, dst)
  }

  /** A second call does nothing exactly when the first one left no occurrence, and so it never
      does anything exactly if the destination cannot recreate the source. */
  lemma IdempotentIff(src: string, dst: string)
    requires src != "" && src != dst
    ensures AlwaysIdempotent(src, dst) <==> !Recreates(src, dst)
  {
    EliminatesIff(src, dst);
    forall text
      ensures Rewrite(Rewrite(text, src, dst), src, dst) == Rewrite(text, src, dst) <==>
              !Contains(Rewrite(text, src, dst), src)
    {
      UnchangedIff(Rewrite(text, src, dst), src, dst);
    }
    if AlwaysIdempotent(src, dst) {
      forall text
        ensures !Contains(Rewrite(text, src, dst), src)
      {
        assert Rewrite(Rewrite(text, src, dst), src, dst) == Rewrite(text, src, dst);
      }
    }
  }
}
