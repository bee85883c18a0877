/**
  When two texts can be rewritten independently of each other.
*/
module Locality {
  import opened Substitution
  import RoundTrips

  /** The cut of a concatenation, if both parts are cut separately. */
  function Glue(p: Pieces, q: Pieces): Pieces {
    match p
    case Last(k) => Prepend(k, q)
    case Piece(k, r) => Piece(k, Glue(r, q))
  }

  function Tail(p: Pieces): string {
    match p
    case Last(k) => k
    case Piece(_, r) => Tail(r)
  }

  /** The piece that comes to lie across the seam contains no occurrence. */
  ghost predicate CleanSeam(p: Pieces, q: Pieces, src: string) {
    var k := Tail(p) + q.kept;
    if q.Last? then !Contains(k, src)
    else NoEarlierMatch(k, src)
  }

  lemma {:induction false} JoinGlue(p: Pieces, q: Pieces, sep: string)
    ensures Join(Glue(p, q), sep) == Join(p, sep) + Join(q, sep)
  {
    match p
    case Last(k) => JoinPrepend(k, q, sep);
    case Piece(k, r) =>
      JoinGlue(r, q, sep);
      assert k + sep + (Join(r, sep) + Join(q, sep)) == k + sep + Join(r, sep) + Join(q, sep);
  }

  lemma {:induction false} GreedyGlue(p: Pieces, q: Pieces, src: string)
    requires Greedy(p, src) && Greedy(q, src)
    ensures Greedy(Glue(p, q), src) <==> CleanSeam(p, q, src)
    decreases p
  {
    match p
    case Last(t) =>
      var k := t + q.kept;
      assert Tail(p) == t;
      match q {
        case Last(_) =>
          assert Glue(p, q) == Last(k);
        case Piece(_, r) =>
          assert Glue(p, q) == Piece(k, r);
      }
    case Piece(k, r) =>
      GreedyGlue(r, q, src);
      assert Tail(p) == Tail(r);
      assert Glue(p, q) == Piece(k, Glue(r, q));
  }

  /** Two texts are cut independently of each other exactly when the piece across the seam
      is clean; then rewriting their concatenation is concatenating their rewrites. */
  lemma Locality(a: string, b: string, src: string, dst: string)
    requires src != ""
    ensures var p, q := Split(a, src), Split(b, src);
            && (Split(a + b, src) == Glue(p, q) <==> CleanSeam(p, q, src))
            && (CleanSeam(p, q, src) ==> Rewrite(a + b, src, dst) == Rewrite(a, src, dst) + Rewrite(b, src, dst))
  {
    var p, q := Split(a, src), Split(b, src);
    SplitIsGreedy(a, src);
    SplitIsGreedy(b, src);
    JoinGlue(p, q, src);
    GreedyGlue(p, q, src);
    GreedyCutIsUnique(a + b, src, Glue(p, q));
    RewriteIsSplitJoin(a, src, dst);
    RewriteIsSplitJoin(b, src, dst);
    RewriteIsSplitJoin(a + b, src, dst);
    JoinGlue(p, q, dst);
  }

  /** No occurrence in `a + b` lies across the seam. */
  ghost predicate NoneAcross(a: string, b: string, src: string) {
    forall i: nat :: OccursAt(a + b, src, i) ==> i + |src| <= |a| || |a| <= i
  }

  lemma LocalityWithoutStraddling(a: string, b: string, src: string, dst: string)
    requires src != "" && NoneAcross(a, b, src)
    ensures Rewrite(a + b, src, dst) == Rewrite(a, src, dst) + Rewrite(b, src, dst)
  {
    SplitIsGreedy(a, src);
    SplitIsGreedy(b, src);
    NoneAcrossCleanSeam(Split(a, src), Split(b, src), src);
    Locality(a, b, src, dst);
  }

  lemma {:induction false} NoneAcrossCleanSeam(p: Pieces, q: Pieces, src: string)
    requires src != "" && Greedy(p, src) && Greedy(q, src)
    requires NoneAcross(Join(p, src), Join(q, src), src)
    ensures CleanSeam(p, q, src)
  {
    var a, b := Join(p, src), Join(q, src);
    match p
    case Piece(k, r) =>
      var rest := Join(r, src);
      assert a + b == k + src + (rest + b);
      forall i: nat
        ensures OccursAt(rest + b, src, i) ==> i + |src| <= |rest| || |rest| <= i
      {
        OccursRight(k + src, rest + b, src, i);
      }
      NoneAcrossCleanSeam(r, q, src);
    case Last(t) =>
      var seam := if q.Last? then t + q.kept else t + q.kept + src;
      var after := if q.Last? then "" else Join(q.rest, src);
      assert a + b == seam + after;
      forall j: nat | j < |t + q.kept|
        ensures !OccursAt(seam, src, j)
      {
        if j + |src| <= |seam| {
          OccursLeft(seam, after, src, j);
          if j + |src| <= |t| {
            OccursLeft(t, b, src, j);
          } else if |t| <= j {
            var mine := if q.Last? then q.kept else q.kept + src;
            assert seam == t + mine;
            OccursRight(t, mine, src, j - |t|);
          }
        }
      }
  }

  // ------------------------------------------------------------------
  // Locality of the rewrites themselves
  // ------------------------------------------------------------------

  ghost predicate RewritesConcatenate(a: string, b: string, src: string)
    requires src != ""
  {
    forall dst :: Rewrite(a + b, src, dst) == Rewrite(a, src, dst) + Rewrite(b, src, dst)
  }

  /** Rewriting a concatenation is concatenating the rewrites, for every destination, exactly
      when the piece across the seam is clean. */
  lemma RewritesConcatenateIff(a: string, b: string, src: string)
    requires src != ""
    ensures RewritesConcatenate(a, b, src) <==> CleanSeam(Split(a, src), Split(b, src), src)
  {
    if CleanSeam(Split(a, src), Split(b, src), src) {
      forall dst
        ensures Rewrite(a + b, src, dst) == Rewrite(a, src, dst) + Rewrite(b, src, dst)
      {
        Locality(a, b, src, dst);
      }
    }
    if RewritesConcatenate(a, b, src) {
      var dst := Marker(|a + b|);
      assert Rewrite(a + b, src, dst) == Rewrite(a, src, dst) + Rewrite(b, src, dst);
      MarkerTellsCut(a, b, src, dst);
      Locality(a, b, src, dst);
    }
  }

  /** A destination too long to occur in a text of `n` characters, or to overlap itself. */
  function Marker(n: nat): (m: string)
    ensures |m| == n + 1 && m[n] == 'y' && forall i :: 0 <= i < n ==> m[i] == 'x'
  {
    seq(n, _ => 'x') + ['y']
  }

  lemma {:induction false} MarkerIsGreedy(p: Pieces, src: string, n: nat)
    requires |Join(p, src)| <= n
    ensures Greedy(p, Marker(n))
  {
    var m := Marker(n);
    match p
    case Last(k) =>
      assert forall j: nat :: !OccursAt(k, m, j);
    case Piece(k, r) =>
      MarkerIsGreedy(r, src, n);
      forall j: nat | j < |k|
        ensures !OccursAt(k + m, m, j)
      {
        MarkerDoesNotOverlap(k, m, n, j);
      }
  }

  lemma MarkerDoesNotOverlap(k: string, m: string, n: nat, j: nat)
    requires m == Marker(n) && j < |k| <= n
    ensures !OccursAt(k + m, m, j)
  {
    assert (k + m)[j + n] == m[j + n - |k|] == 'x';
    OccursHas(k + m, m, j, n);
  }

  /** Joined with such a destination, only one cut gives the text. */
  lemma MarkerTellsCut(a: string, b: string, src: string, dst: string)
    requires src != "" && dst == Marker(|a + b|)
    requires Rewrite(a + b, src, dst) == Rewrite(a, src, dst) + Rewrite(b, src, dst)
    ensures Split(a + b, src) == Glue(Split(a, src), Split(b, src))
  {
    var p, q := Split(a, src), Split(b, src);
    SplitIsGreedy(a, src);
    SplitIsGreedy(b, src);
    SplitIsGreedy(a + b, src);
    JoinGlue(p, q, src);
    JoinGlue(p, q, dst);
    RewriteIsSplitJoin(a, src, dst);
    RewriteIsSplitJoin(b, src, dst);
    RewriteIsSplitJoin(a + b, src, dst);
    MarkerIsGreedy(Glue(p, q), src, |a + b|);
    RoundTrips.JoinsDetermineCut(Split(a + b, src), Glue(p, q), src, dst);
  }
}
