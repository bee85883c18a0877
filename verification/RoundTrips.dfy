/**
  When replacing and replacing back restores a text.
*/
module RoundTrips {
  import opened Substitution

  /** Replacing back restores the text exactly when no piece kept by the first call, followed
      by the destination, contains the destination any earlier, and the last piece does not
      contain it at all. */
  lemma RoundTripIff(text: string, src: string, dst: string)
    requires src != "" && dst != ""
    ensures Rewrite(Rewrite(text, src, dst), dst, src) == text <==> Greedy(Split(text, src), dst)
  {
    var p := Split(text, src);
    var there := Rewrite(text, src, dst);
    RewriteIsSplitJoin(text, src, dst);
    RewriteIsSplitJoin(there, dst, src);
    SplitIsGreedy(text, src);
    SplitIsGreedy(there, dst);
    if Greedy(p, dst) {
      SplitOfJoin(p, dst);
    }
    if Rewrite(there, dst, src) == text {
      JoinsDetermineCut(p, Split(there, dst), src, dst);
    }
  }

  /** Two cuts that agree joined with either of two separators are equal, if the one is
      greedy for the first separator and the other for the second. */
  lemma {:induction false} JoinsDetermineCut(p: Pieces, q: Pieces, src: string, dst: string)
    requires Greedy(p, src) && Greedy(q, dst)
    requires Join(p, src) == Join(q, src) && Join(p, dst) == Join(q, dst)
    ensures p == q
  {
    JoinOccurs(p, src);
    JoinOccurs(q, src);
    JoinOccurs(p, dst);
    JoinOccurs(q, dst);
    if p.Piece? && q.Piece? {
      FirstAfterKept(p.kept, src, Join(p.rest, src));
      FirstAfterKept(q.kept, dst, Join(q.rest, dst));
      assert |p.kept| == |q.kept|;
      SamePrefixSameRest(p.kept + src, Join(p.rest, src), q.kept + src, Join(q.rest, src));
      SamePrefixSameRest(p.kept + dst, Join(p.rest, dst), q.kept + dst, Join(q.rest, dst));
      SamePrefixSameRest(p.kept, src, q.kept, src);
      JoinsDetermineCut(p.rest, q.rest, src, dst);
    }
  }

  /** In particular it does so if no character of the destination occurs in the text that is
      kept, and therefore if none occurs in the text at all. */
  lemma RoundTrip(text: string, src: string, dst: string)
    requires src != "" && dst != ""
    requires NoCommonChar(dst, Rewrite(text, src, "")) || NoCommonChar(dst, text)
    ensures Rewrite(Rewrite(text, src, dst), dst, src) == text
  {
    var p := Split(text, src);
    RewriteIsSplitJoin(text, src, "");
    SplitIsGreedy(text, src);
    ForeignSeparatorIsGreedy(p, dst, if NoCommonChar(dst, text) then src else "");
    RoundTripIff(text, src, dst);
  }

  lemma {:induction false} ForeignSeparatorIsGreedy(p: Pieces, sep: string, other: string)
    requires sep != "" && NoCommonChar(sep, Join(p, other))
    ensures Greedy(p, sep)
  {
    var k := p.kept;
    assert sep[0] !in k by {
      assert sep[0] in sep;
      assert forall c :: c in k ==> c in Join(p, other);
    }
    match p
    case Last(_) =>
      ForeignCharNoOccurrence(k, sep, |k|);
    case Piece(_, r) =>
      ForeignCharNoOccurrence(k + sep, sep, |k|);
      assert forall c :: c in Join(r, other) ==> c in Join(p, other);
      ForeignSeparatorIsGreedy(r, sep, other);
  }

  lemma ForeignCharNoOccurrence(text: string, sep: string, n: nat)
    requires sep != "" && n <= |text| && sep[0] !in text[..n]
    ensures forall j: nat :: j < n ==> !OccursAt(text, sep, j)
    ensures n == |text| ==> !Contains(text, sep)
  {
    forall j: nat
      ensures OccursAt(text, sep, j) ==> n <= j && j < |text|
    {
      assert OccursAt(text, sep, j) ==> text[j] == text[j..j + |sep|][0];
      assert j < n ==> text[j] == text[..n][j];
    }
  }
}
