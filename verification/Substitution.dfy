/**
  Leftmost, non-overlapping, non-rescanning substitution: what `StringReplace`
  is meant to compute.

  `Rewrite` says so one character at a time.  `Split` cuts a text at the matches
  of a scan with `find`, and `Join` puts the pieces together again, so that a
  rewrite is a split at the source followed by a join with the destination.
*/
module Substitution {
  import opened Options

  predicate OccursAt(text: string, pattern: string, i: nat) {
    i + |pattern| <= |text| && text[i..i + |pattern|] == pattern
  }

  ghost predicate Contains(text: string, pattern: string) {
    exists i: nat :: OccursAt(text, pattern, i)
  }

  ghost predicate NoCommonChar(a: string, b: string) {
    forall c :: c in a ==> c !in b
  }

  /** `text.find(pattern)`: the first occurrence. */
  function First(text: string, pattern: string): (r: Option<nat>)
    ensures r.None? ==> forall j: nat :: !OccursAt(text, pattern, j)
    ensures r.Some? ==> OccursAt(text, pattern, r.value) && r.value + |pattern| <= |text|
    ensures r.Some? ==> forall j: nat :: j < r.value ==> !OccursAt(text, pattern, j)
  {
    FirstFrom(text, pattern, 0)
  }

  /** `text.find(pattern, from)`: the first occurrence at or after `from`. */
  function FirstFrom(text: string, pattern: string, from: nat): (r: Option<nat>)
    ensures r.None? ==> forall j: nat :: from <= j ==> !OccursAt(text, pattern, j)
    ensures r.Some? ==> from <= r.value && OccursAt(text, pattern, r.value) && r.value + |pattern| <= |text|
    ensures r.Some? ==> forall j: nat :: from <= j < r.value ==> !OccursAt(text, pattern, j)
    decreases |text| - from
  {
    if from + |pattern| > |text| then None
    else if OccursAt(text, pattern, from) then Some(from)
    else FirstFrom(text, pattern, from + 1)
  }

  // ------------------------------------------------------------------
  // Specification
  // ------------------------------------------------------------------

  function Rewrite(text: string, src: string, dst: string): string
    requires src != ""
  {
    if |text| < |src| then text
    else if text[..|src|] == src then dst + Rewrite(text[|src|..], src, dst)
    else [text[0]] + Rewrite(text[1..], src, dst)
  }

  /** A text cut into the pieces kept between separators. */
  datatype Pieces = Last(kept: string) | Piece(kept: string, rest: Pieces)

  function Join(p: Pieces, sep: string): string {
    match p
    case Last(k) => k
    case Piece(k, r) => k + sep + Join(r, sep)
  }

  /** The number of separators. */
  function Hits(p: Pieces): nat {
    match p
    case Last(_) => 0
    case Piece(_, r) => 1 + Hits(r)
  }

  /** The pieces left by a scan that searches on after the end of each match. */
  function Split(text: string, src: string): Pieces
    requires src != ""
    decreases |text|
  {
    match First(text, src)
    case None => Last(text)
    case Some(m) => Piece(text[..m], Split(text[m + |src|..], src))
  }

  /** No match starts in `k` if the source follows it. */
  ghost predicate NoEarlierMatch(k: string, src: string) {
    forall j: nat :: j < |k| ==> !OccursAt(k + src, src, j)
  }

  /** No separator starts inside a piece, not even one that ends in the separator
      after it. */
  ghost predicate Greedy(p: Pieces, sep: string) {
    match p
    case Last(k) => !Contains(k, sep)
    case Piece(k, r) => NoEarlierMatch(k, sep) && Greedy(r, sep)
  }

  // ------------------------------------------------------------------
  // Occurrences in a concatenation
  // ------------------------------------------------------------------

  lemma OccursLeft(a: string, b: string, s: string, j: nat)
    requires j + |s| <= |a|
    ensures OccursAt(a + b, s, j) == OccursAt(a, s, j)
  {
    assert (a + b)[j..j + |s|] == a[j..j + |s|];
  }

  lemma OccursRight(a: string, b: string, s: string, j: nat)
    ensures OccursAt(a + b, s, |a| + j) == OccursAt(b, s, j)
  {
    if j + |s| <= |b| {
      assert (a + b)[|a| + j..|a| + j + |s|] == b[j..j + |s|];
    }
  }

  lemma OccursHas(text: string, s: string, j: nat, i: nat)
    requires i < |s|
    ensures OccursAt(text, s, j) ==> j + i < |text| && text[j + i] == s[i]
  {
    assert OccursAt(text, s, j) ==> text[j + i] == text[j..j + |s|][i];
  }

  /** The first occurrence in `k + sep + rest` is the one after `k`. */
  lemma FirstAfterKept(k: string, sep: string, rest: string)
    requires NoEarlierMatch(k, sep)
    ensures First(k + sep + rest, sep) == Some(|k|)
    ensures (k + sep + rest)[..|k|] == k && (k + sep + rest)[|k| + |sep|..] == rest
  {
    var text := k + sep + rest;
    assert text[|k|..|k| + |sep|] == sep;
    assert OccursAt(text, sep, |k|);
    forall j: nat | j < |k|
      ensures !OccursAt(text, sep, j)
    {
      OccursLeft(k + sep, rest, sep, j);
    }
  }

  lemma CutAtFirst(text: string, src: string, m: nat)
    requires First(text, src) == Some(m)
    ensures text == text[..m] + src + text[m + |src|..]
    ensures NoEarlierMatch(text[..m], src)
  {
    var k, rest := text[..m], text[m + |src|..];
    assert text == k + src + rest;
    forall j: nat | j < m
      ensures !OccursAt(k + src, src, j)
    {
      OccursLeft(k + src, rest, src, j);
    }
  }

  // ------------------------------------------------------------------
  // Splitting and joining
  // ------------------------------------------------------------------

  lemma {:induction false} SplitIsGreedy(text: string, src: string)
    requires src != ""
    ensures Join(Split(text, src), src) == text
    ensures Greedy(Split(text, src), src)
    decreases |text|
  {
    var r := First(text, src);
    if r.Some? {
      CutAtFirst(text, src, r.value);
      SplitIsGreedy(text[r.value + |src|..], src);
    }
  }

  lemma {:induction false} SplitOfJoin(p: Pieces, sep: string)
    requires sep != "" && Greedy(p, sep)
    ensures Split(Join(p, sep), sep) == p
  {
    match p
    case Last(k) =>
    case Piece(k, r) =>
      FirstAfterKept(k, sep, Join(r, sep));
      SplitOfJoin(r, sep);
  }

  /** The pieces left by the scan are the one greedy way to cut the text at `src`. */
  lemma GreedyCutIsUnique(text: string, src: string, p: Pieces)
    requires src != ""
    ensures p == Split(text, src) <==> Join(p, src) == text && Greedy(p, src)
  {
    SplitIsGreedy(text, src);
    if Join(p, src) == text && Greedy(p, src) {
      SplitOfJoin(p, src);
    }
  }

  lemma {:induction false} RewriteSkips(text: string, src: string, dst: string, m: nat)
    requires src != "" && m <= |text|
    requires forall j: nat :: j < m ==> !OccursAt(text, src, j)
    ensures Rewrite(text, src, dst) == text[..m] + Rewrite(text[m..], src, dst)
    decreases m
  {
    if m == 0 {
      assert text[0..] == text;
    } else {
      forall j: nat | j < m - 1
        ensures !OccursAt(text[1..], src, j)
      {
        assert text == text[..1] + text[1..];
        OccursRight(text[..1], text[1..], src, j);
      }
      RewriteSkips(text[1..], src, dst, m - 1);
      assert !OccursAt(text, src, 0);
      assert text[1..][m - 1..] == text[m..];
      if |text| < |src| {
        assert text == text[..m] + text[m..];
      } else {
        assert text[..|src|] == text[0..0 + |src|];
        assert text[..m] == [text[0]] + text[1..][..m - 1];
      }
    }
  }

  /** The specification, character by character, is a split followed by a join. */
  lemma {:induction false} RewriteIsSplitJoin(text: string, src: string, dst: string)
    requires src != ""
    ensures Rewrite(text, src, dst) == Join(Split(text, src), dst)
    decreases |text|
  {
    var r := First(text, src);
    if r.None? {
      RewriteSkips(text, src, dst, |text|);
      assert text[..|text|] == text;
    } else {
      var m := r.value;
      RewriteSkips(text, src, dst, m);
      RewriteIsSplitJoin(text[m + |src|..], src, dst);
      assert text[m..][..|src|] == text[m..m + |src|] == src;
      assert text[m..][|src|..] == text[m + |src|..];
      assert Rewrite(text[m..], src, dst) == dst + Rewrite(text[m + |src|..], src, dst);
    }
  }

  lemma {:induction false} LengthOfJoin(p: Pieces, a: string, b: string)
    ensures |Join(p, a)| + Hits(p) * |b| == |Join(p, b)| + Hits(p) * |a|
  {
    match p
    case Last(_) =>
    case Piece(_, r) =>
      LengthOfJoin(r, a, b);
      assert Hits(p) * |a| == Hits(r) * |a| + |a|;
      assert Hits(p) * |b| == Hits(r) * |b| + |b|;
  }

  /** Every substitution takes out one source and puts in one destination. */
  lemma LengthIsConserved(text: string, src: string, dst: string)
    requires src != ""
    ensures var k := Hits(Split(text, src));
            |Rewrite(text, src, dst)| + k * |src| == |text| + k * |dst|
  {
    RewriteIsSplitJoin(text, src, dst);
    SplitIsGreedy(text, src);
    LengthOfJoin(Split(text, src), dst, src);
  }

  function Prepend(s: string, p: Pieces): Pieces {
    match p
    case Last(k) => Last(s + k)
    case Piece(k, r) => Piece(s + k, r)
  }

  lemma JoinPrepend(s: string, p: Pieces, sep: string)
    ensures Join(Prepend(s, p), sep) == s + Join(p, sep)
    ensures Hits(Prepend(s, p)) == Hits(p)
  {
    match p
    case Last(_) =>
    case Piece(k, r) =>
      assert s + k + sep + Join(r, sep) == s + (k + sep + Join(r, sep));
  }

  lemma JoinOccurs(p: Pieces, sep: string)
    ensures p.Piece? ==> OccursAt(Join(p, sep), sep, |p.kept|)
  {
    if p.Piece? {
      assert (p.kept + sep + Join(p.rest, sep))[|p.kept|..|p.kept| + |sep|] == sep;
    }
  }

  lemma SamePrefixSameRest(a: string, b: string, c: string, d: string)
    requires a + b == c + d && |a| == |c|
    ensures a == c && b == d
  {
    assert a == (a + b)[..|a|] && c == (c + d)[..|a|];
    assert b == (a + b)[|a|..] && d == (c + d)[|a|..];
  }

  /** A call changes nothing exactly when the source string does not occur. */
  lemma UnchangedIff(text: string, src: string, dst: string)
    requires src != "" && src != dst
    ensures Rewrite(text, src, dst) == text <==> !Contains(text, src)
  {
    var p := Split(text, src);
    RewriteIsSplitJoin(text, src, dst);
    SplitIsGreedy(text, src);
    match p
    case Last(_) =>
    case Piece(k, r) =>
      JoinOccurs(p, src);
      if Join(p, dst) == Join(p, src) {
        LengthOfJoin(p, src, dst);
        SameFactor(Hits(p), |src|, |dst|);
        SamePrefixSameRest(k + src, Join(r, src), k + dst, Join(r, dst));
        SamePrefixSameRest(k, src, k, dst);
        assert false;
      }
  }

  lemma SameFactor(k: nat, a: nat, b: nat)
    requires k > 0 && k * a == k * b
    ensures a == b
  {
    assert k * (a - b) == 0;
  }
}
