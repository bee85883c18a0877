/**
  The loop of `StringReplace` makes as many substitutions as any choice of disjoint
  occurrences could.
*/
module GreedyOptimality {
  import opened Substitution

  /** However a text is cut at disjoint occurrences of the source, it has at most as many
      separators as the scan finds.  Exchange argument: what is left of the text after the
      scan's first match can be cut with one separator less. */
  lemma {:induction false} GreedyIsOptimal(text: string, src: string, cut: Pieces)
    requires src != "" && Join(cut, src) == text
    ensures Hits(cut) <= Hits(Split(text, src))
    decreases |text|
  {
    match cut
    case Last(_) =>
    case Piece(k, r) =>
      var tail := Join(r, src);
      assert text[|k|..|k| + |src|] == src;
      assert OccursAt(text, src, |k|);
      var m := First(text, src).value;
      var left := (k + src)[m + |src|..];
      assert text[m + |src|..] == left + tail;
      JoinPrepend(left, r, src);
      GreedyIsOptimal(text[m + |src|..], src, Prepend(left, r));
  }

  /** Positions at which `src` occurs, no two of which overlap. */
  ghost predicate IsPacking(text: string, src: string, s: set<nat>) {
    && (forall i :: i in s ==> OccursAt(text, src, i))
    && (forall i, j :: i in s && j in s && i < j ==> i + |src| <= j)
  }

  /** The number of substitutions is the largest size of any packing. */
  lemma GreedyIsMaximumPacking(text: string, src: string)
    requires src != ""
    ensures forall s :: IsPacking(text, src, s) ==> |s| <= Hits(Split(text, src))
    ensures exists s :: IsPacking(text, src, s) && |s| == Hits(Split(text, src))
  {
    assert text[0..] == text;
    forall s | IsPacking(text, src, s)
      ensures |s| <= Hits(Split(text, src))
    {
      var cut := CutAlong(text, src, s, 0);
      GreedyIsOptimal(text, src, cut);
    }
    SplitIsGreedy(text, src);
    var own := PackingOfCut(text, src, Split(text, src), 0);
  }

  /** A packing cuts the text into one more piece than it has members. */
  lemma {:induction false} CutAlong(text: string, src: string, packing: set<nat>, from: nat) returns (cut: Pieces)
    requires src != "" && IsPacking(text, src, packing) && from <= |text|
    requires forall i :: i in packing ==> from <= i
    ensures Join(cut, src) == text[from..] && Hits(cut) == |packing|
    decreases |text| - from
  {
    if packing == {} {
      cut := Last(text[from..]);
    } else {
      var m := Least(packing);
      var later := packing - {m};
      var next := m + |src|;
      var rest := CutAlong(text, src, later, next);
      cut := Piece(text[from..m], rest);
      assert OccursAt(text, src, m);
      CutOut(text, from, m, next);
    }
  }

  lemma CutOut(text: string, a: nat, b: nat, c: nat)
    requires a <= b <= c <= |text|
    ensures text[a..] == text[a..b] + text[b..c] + text[c..]
  {
  }

  lemma {:induction false} PackingOfCut(text: string, src: string, cut: Pieces, from: nat) returns (s: set<nat>)
    requires src != "" && from <= |text| && Join(cut, src) == text[from..]
    ensures IsPacking(text, src, s) && |s| == Hits(cut)
    ensures forall i :: i in s ==> from <= i
    decreases cut
  {
    match cut
    case Last(_) =>
      s := {};
    case Piece(k, r) =>
      var m := from + |k|;
      JoinAt(text, src, cut, from);
      var later := PackingOfCut(text, src, r, m + |src|);
      s := {m} + later;
      AddToPacking(text, src, m, later);
  }

  lemma JoinAt(text: string, src: string, cut: Pieces, from: nat)
    requires from <= |text| && cut.Piece? && Join(cut, src) == text[from..]
    ensures var m := from + |cut.kept|;
            OccursAt(text, src, m) && m + |src| <= |text| && Join(cut.rest, src) == text[m + |src|..]
  {
    var before := text[..from];
    JoinOccurs(cut, src);
    assert text == before + text[from..];
    OccursRight(before, text[from..], src, |cut.kept|);
    var head := before + (cut.kept + src);
    assert text == head + Join(cut.rest, src);
    assert text[|head|..] == Join(cut.rest, src);
  }

  lemma AddToPacking(text: string, src: string, m: nat, later: set<nat>)
    requires src != "" && OccursAt(text, src, m) && IsPacking(text, src, later)
    requires forall i :: i in later ==> m + |src| <= i
    ensures IsPacking(text, src, {m} + later) && |{m} + later| == 1 + |later|
  {
    assert m !in later;
  }

  lemma {:induction false} Least(s: set<nat>) returns (m: nat)
    requires s != {}
    ensures m in s && forall i :: i in s ==> m <= i
    decreases s
  {
    m :| m in s;
    assert forall i :: i in s ==> i == m || i in s - {m};
    if s - {m} != {} {
      var l := Least(s - {m});
      if l < m {
        m := l;
      }
    }
  }
}
