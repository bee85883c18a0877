/**
  The buffer that `StringReplace` edits in place, the function itself, and its loop as a
  sequence of edits of a text and a cursor.
*/
module TextBuffer {
  import opened Options
  import opened Substitution

  datatype Cursor = Cursor(text: string, pos: nat)

  datatype Progress = Ended | At(cursor: Cursor)

  /** The text with `count` characters at `pos` replaced. */
  function Replaced(text: string, pos: nat, count: nat, with: string): string
    requires pos + count <= |text|
  {
    text[..pos] + with + text[pos + count..]
  }

  /** One evaluation of the loop guard and, if it holds, one execution of the body. */
  function LoopStep(c: Cursor, src: string, dst: string): Progress {
    match FirstFrom(c.text, src, c.pos)
    case None => Ended
    case Some(m) => At(Cursor(Replaced(c.text, m, |src|, dst), m + |dst|))
  }

  /** Where the loop is after `n` iterations, unless it ends before that. */
  function Iterate(text: string, src: string, dst: string, n: nat): Progress {
    if n == 0 then At(Cursor(text, 0))
    else
      match Iterate(text, src, dst, n - 1)
      case Ended => Ended
      case At(c) => LoopStep(c, src, dst)
  }

  ghost predicate Terminates(text: string, src: string, dst: string) {
    exists n: nat :: Iterate(text, src, dst, n).Ended?
  }

  // ------------------------------------------------------------------
  // One step, seen as pieces
  // ------------------------------------------------------------------

  /** A search from the cursor does not see the text before it. */
  lemma {:induction false} FirstFromAppend(before: string, rest: string, src: string, k: nat)
    ensures FirstFrom(before + rest, src, |before| + k) ==
              match FirstFrom(rest, src, k)
              case None => None
              case Some(m) => Some(|before| + m)
    decreases |rest| - k
  {
    if k + |src| <= |rest| {
      OccursRight(before, rest, src, k);
      if !OccursAt(rest, src, k) {
        FirstFromAppend(before, rest, src, k + 1);
      }
    }
  }

  /** The loop with `done` before the cursor and the pieces `p` still to come. */
  function OnPieces(done: string, p: Pieces, src: string): Cursor {
    Cursor(done + Join(p, src), |done|)
  }

  /** The loop moves past the first piece and replaces the separator after it, or ends if
      there is none. */
  lemma StepOnPieces(done: string, p: Pieces, src: string, dst: string)
    requires src != "" && Greedy(p, src)
    ensures LoopStep(OnPieces(done, p, src), src, dst) ==
              match p
              case Last(_) => Ended
              case Piece(k, r) => At(OnPieces(done + k + dst, r, src))
  {
    if p.Piece? {
      FirstAfterKept(p.kept, src, Join(p.rest, src));
      StepAtMatch(done, p.kept, src, Join(p.rest, src), dst);
    } else {
      FirstFromAppend(done, Join(p, src), src, 0);
    }
  }

  lemma StepAtMatch(done: string, k: string, src: string, rest: string, dst: string)
    requires First(k + src + rest, src) == Some(|k|)
    ensures LoopStep(Cursor(done + (k + src + rest), |done|), src, dst)
              == At(Cursor(done + k + dst + rest, |done + k + dst|))
  {
    StepAfter(done, k + src + rest, src, dst, |k|);
    ReplacedAtMatch(done, k, src, rest, dst);
  }

  lemma StepAfter(done: string, todo: string, src: string, dst: string, m: nat)
    requires First(todo, src) == Some(m)
    ensures |done| + m <= |done + todo|
    ensures LoopStep(Cursor(done + todo, |done|), src, dst)
              == At(Cursor(Replaced(done + todo, |done| + m, |src|, dst), |done| + m + |dst|))
  {
    FirstFromAppend(done, todo, src, 0);
  }

  lemma ReplacedAtMatch(done: string, k: string, src: string, rest: string, dst: string)
    ensures Replaced(done + (k + src + rest), |done| + |k|, |src|, dst) == done + k + dst + rest
  {
    var text, m := done + (k + src + rest), |done| + |k|;
    assert text == (done + k) + (src + rest);
    assert text == (done + k + src) + rest;
    assert text[..m] == done + k && text[m + |src|..] == rest;
  }

  // ------------------------------------------------------------------
  // Any number of steps
  // ------------------------------------------------------------------

  /** The first `n` pieces, each followed by a separator. */
  function Take(p: Pieces, n: nat): Pieces
    requires n <= Hits(p)
  {
    if n == 0 then Last("") else Piece(p.kept, Take(p.rest, n - 1))
  }

  function Drop(p: Pieces, n: nat): Pieces
    requires n <= Hits(p)
  {
    if n == 0 then p else Drop(p.rest, n - 1)
  }

  lemma {:induction false} TakeDrop(p: Pieces, n: nat, sep: string)
    requires sep != "" && n <= Hits(p) && Greedy(p, sep)
    ensures Greedy(Take(p, n), sep) && Hits(Take(p, n)) == n
    ensures Greedy(Drop(p, n), sep) && Hits(Drop(p, n)) == Hits(p) - n
    ensures Join(p, sep) == Join(Take(p, n), sep) + Join(Drop(p, n), sep)
  {
    if n > 0 {
      TakeDrop(p.rest, n - 1, sep);
      Reassociate(p.kept, sep, Join(Take(p.rest, n - 1), sep), Join(Drop(p.rest, n - 1), sep));
    }
  }

  lemma Reassociate(a: string, b: string, c: string, d: string)
    ensures a + b + (c + d) == a + b + c + d
    ensures a + (b + c + d) == a + b + c + d
  {
  }

  lemma {:induction false} NextPiece(p: Pieces, n: nat, sep: string)
    requires 0 < n <= Hits(p)
    ensures var q := Drop(p, n - 1);
            && q.Piece? && Drop(p, n) == q.rest
            && Join(Take(p, n), sep) == Join(Take(p, n - 1), sep) + q.kept + sep
  {
    if n == 1 {
      assert Take(p, 1) == Piece(p.kept, Last(""));
    } else {
      NextPiece(p.rest, n - 1, sep);
      var q := Drop(p, n - 1);
      var head := Join(Take(p.rest, n - 2), sep);
      assert Join(Take(p, n), sep) == p.kept + sep + (head + q.kept + sep);
      assert Join(Take(p, n - 1), sep) == p.kept + sep + head;
      Reassociate(p.kept + sep, head, q.kept, sep);
    }
  }

  /** Where the loop is after `n` iterations over the pieces `p`, unless there are fewer matches. */
  function CursorAfter(p: Pieces, src: string, dst: string, n: nat): Progress {
    if n > Hits(p) then Ended else At(OnPieces(Join(Take(p, n), dst), Drop(p, n), src))
  }

  lemma IterateOnPieces(text: string, src: string, dst: string, n: nat)
    requires src != ""
    ensures Iterate(text, src, dst, n) == CursorAfter(Split(text, src), src, dst, n)
  {
    SplitIsGreedy(text, src);
    IterateOnCut(Split(text, src), src, dst, n);
  }

  lemma {:induction false} IterateOnCut(p: Pieces, src: string, dst: string, n: nat)
    requires src != "" && Greedy(p, src)
    ensures Iterate(Join(p, src), src, dst, n) == CursorAfter(p, src, dst, n)
  {
    if n == 0 {
      NothingTaken(p, src, dst);
    } else {
      IterateOnCut(p, src, dst, n - 1);
      CursorOneMore(p, src, dst, n);
    }
  }

  lemma NothingTaken(p: Pieces, src: string, dst: string)
    ensures OnPieces(Join(Take(p, 0), dst), Drop(p, 0), src) == Cursor(Join(p, src), 0)
  {
    EmptyPrefix(Join(p, src));
  }

  lemma EmptyPrefix(s: string)
    ensures "" + s == s
  {
  }

  lemma CursorOneMore(p: Pieces, src: string, dst: string, n: nat)
    requires src != "" && Greedy(p, src) && n > 0
    ensures CursorAfter(p, src, dst, n) ==
              match CursorAfter(p, src, dst, n - 1)
              case Ended => Ended
              case At(c) => LoopStep(c, src, dst)
  {
    if n - 1 <= Hits(p) {
      TakeDrop(p, n - 1, src);
      StepOnPieces(Join(Take(p, n - 1), dst), Drop(p, n - 1), src, dst);
      if n <= Hits(p) {
        NextPiece(p, n, dst);
      }
    }
  }

  /** After any number of iterations the text before the cursor is the rewrite of a prefix of
      the original, and the text from the cursor on is the untouched rest of the original, so
      that inserted text is never searched.  The cursor never passes the end, and the loop
      makes exactly one iteration per match. */
  lemma LoopState(text: string, src: string, dst: string, n: nat)
    requires src != ""
    ensures var c := Iterate(text, src, dst, n);
            && (c.At? <==> n <= Hits(Split(text, src)))
            && (c.At? ==>
                  && c.cursor.pos <= |c.cursor.text|
                  && exists used: nat | used <= |text| ::
                       && c.cursor.text[..c.cursor.pos] == Rewrite(text[..used], src, dst)
                       && c.cursor.text[c.cursor.pos..] == text[used..]
                       && Hits(Split(text[..used], src)) == n)
  {
    var p := Split(text, src);
    IterateOnPieces(text, src, dst, n);
    SplitIsGreedy(text, src);
    if n <= Hits(p) {
      var c := Iterate(text, src, dst, n).cursor;
      TakeDrop(p, n, src);
      var head, rest := Join(Take(p, n), src), Join(Drop(p, n), src);
      SplitOfJoin(Take(p, n), src);
      RewriteIsSplitJoin(head, src, dst);
      assert text[..|head|] == head && text[|head|..] == rest;
      assert c.text[..c.pos] == Join(Take(p, n), dst) && c.text[c.pos..] == rest;
    }
  }

  // ------------------------------------------------------------------
  // Termination
  // ------------------------------------------------------------------

  /** Each iteration shortens the text after the cursor by the gap it skips and the source
      string, however much the text itself grows. */
  lemma StepShortensRest(c: Cursor, src: string, dst: string)
    requires c.pos <= |c.text| && LoopStep(c, src, dst).At?
    ensures var d := LoopStep(c, src, dst).cursor;
            var gap := FirstFrom(c.text, src, c.pos).value - c.pos;
            d.pos <= |d.text| && |c.text| - c.pos == |d.text| - d.pos + gap + |src|
  {
  }

  /** With an empty source string the guard holds again after every iteration. */
  lemma {:induction false} EmptySourceNeverEnds(text: string, dst: string, n: nat)
    ensures var c := Iterate(text, "", dst, n);
            c.At? && c.cursor.pos == n * |dst| && |c.cursor.text| == |text| + n * |dst|
  {
    if n > 0 {
      EmptySourceNeverEnds(text, dst, n - 1);
      var c := Iterate(text, "", dst, n - 1).cursor;
      assert OccursAt(c.text, "", c.pos);
      assert FirstFrom(c.text, "", c.pos) == Some(c.pos);
      assert n * |dst| == (n - 1) * |dst| + |dst|;
    }
  }

  /** The loop ends exactly when the source string is non-empty.  Then it makes one iteration
      per match, which are no more than fit into the text, and leaves the specified text. */
  lemma TerminatesIff(text: string, src: string, dst: string)
    ensures Terminates(text, src, dst) <==> src != ""
    ensures src != "" ==>
              var k := Hits(Split(text, src));
              && k * |src| <= |text|
              && Iterate(text, src, dst, k + 1).Ended?
              && Iterate(text, src, dst, k).At?
              && Iterate(text, src, dst, k).cursor.text == Rewrite(text, src, dst)
  {
    if src == "" {
      forall n: nat
        ensures Iterate(text, src, dst, n).At?
      {
        EmptySourceNeverEnds(text, dst, n);
      }
    } else {
      var p := Split(text, src);
      LengthIsConserved(text, src, "");
      assert Hits(p) * |""| == 0;
      IterateOnPieces(text, src, dst, Hits(p) + 1);
      IterateOnPieces(text, src, dst, Hits(p));
      RewriteIsSplitJoin(text, src, dst);
      LastPiece(p, src, dst);
    }
  }

  lemma {:induction false} LastPiece(p: Pieces, src: string, dst: string)
    ensures Join(p, dst) == Join(Take(p, Hits(p)), dst) + Join(Drop(p, Hits(p)), src)
  {
    match p
    case Last(k) =>
      assert "" + k == k;
    case Piece(k, r) =>
      LastPiece(r, src, dst);
      Reassociate(k, dst, Join(Take(r, Hits(r)), dst), Join(Drop(r, Hits(r)), src));
  }

  // ------------------------------------------------------------------
  // The buffer
  // ------------------------------------------------------------------

  /** A mutable string with the two operations that `StringReplace` uses. */
  class Text {
    var chars: string

    constructor (chars: string)
      ensures this.chars == chars
    {
      this.chars := chars;
    }

    method Find(pattern: string, from: nat) returns (pos: Option<nat>)
      ensures pos == FirstFrom(chars, pattern, from)
    {
      var i := from;
      while i + |pattern| <= |chars|
        invariant FirstFrom(chars, pattern, from) == FirstFrom(chars, pattern, i)
      {
        if OccursAt(chars, pattern, i) {
          return Some(i);
        }
        i := i + 1;
      }
      return None;
    }

    /** Replaces the characters from `pos` on, `count` of them if there are so many. */
    method Replace(pos: nat, count: nat, with: string)
      requires pos <= |chars|
      modifies this
      ensures var n := if count <= |old(chars)| - pos then count else |old(chars)| - pos;
              && |chars| == |old(chars)| - n + |with|
              && chars[..pos] == old(chars)[..pos]
              && chars[pos..pos + |with|] == with
              && chars[pos + |with|..] == old(chars)[pos + n..]
    {
      var end := if pos + count <= |chars| then pos + count else |chars|;
      chars := chars[..pos] + with + chars[end..];
    }
  }

  /** The parts of a buffer after `Text.Replace` make up the text of a loop step. */
  lemma ReplacedFromParts(was: string, now: string, pos: nat, count: nat, with: string)
    requires pos + count <= |was| && |now| == |was| - count + |with|
    requires now[..pos] == was[..pos] && now[pos..pos + |with|] == with
    requires now[pos + |with|..] == was[pos + count..]
    ensures now == Replaced(was, pos, count, with)
  {
    assert now == now[..pos] + now[pos..pos + |with|] + now[pos + |with|..];
  }

  /** The edit of the loop body: at a match, there are as many characters as it replaces. */
  method ReplaceMatch(str: Text, pos: nat, count: nat, with: string)
    requires pos + count <= |str.chars|
    modifies str
    ensures str.chars == Replaced(old(str.chars), pos, count, with)
  {
    str.Replace(pos, count, with);
    ReplacedFromParts(old(str.chars), str.chars, pos, count, with);
  }

  /** The buffer must not be its own source or destination: the lengths of both are read
      once, before the first edit.  Without a source string the call would not return. */
  method StringReplace(str: Text, src: Text, dst: Text)
    requires str != src && str != dst && src.chars != ""
    modifies str
    ensures str.chars == Rewrite(old(str.chars), src.chars, dst.chars)
  {
    var pos: nat := 0;
    var srcLen, dstLen := |src.chars|, |dst.chars|;
    ghost var s, d, target := src.chars, dst.chars, Rewrite(str.chars, src.chars, dst.chars);
    Start(str.chars, s, d);
    var found := str.Find(src.chars, pos);
    while found.Some?
      invariant InProgress(Cursor(str.chars, pos), s, d, target)
      invariant found == FirstFrom(str.chars, s, pos)
      decreases |str.chars| - pos
    {
      ghost var before := Cursor(str.chars, pos);
      Advance(before, s, d, target);
      pos := found.value;
      ReplaceMatch(str, pos, srcLen, dst.chars);
      pos := pos + dstLen;
      assert Cursor(str.chars, pos) == LoopStep(before, s, d).cursor;
      found := str.Find(src.chars, pos);
    }
    Finish(Cursor(str.chars, pos), s, d, target);
  }

  /** The loop is on its way to the text `target`: that is what comes of the text before the
      cursor followed by the pieces from the cursor on, joined with the destination. */
  ghost predicate InProgress(c: Cursor, src: string, dst: string, target: string) {
    exists done, todo :: Greedy(todo, src) && c == OnPieces(done, todo, src) && target == done + Join(todo, dst)
  }

  /** Before the first iteration, all pieces are still to come. */
  lemma Start(text: string, src: string, dst: string)
    requires src != ""
    ensures InProgress(Cursor(text, 0), src, dst, Rewrite(text, src, dst))
  {
    var p := Split(text, src);
    SplitIsGreedy(text, src);
    RewriteIsSplitJoin(text, src, dst);
    EmptyPrefix(text);
    EmptyPrefix(Join(p, dst));
    assert Cursor(text, 0) == OnPieces("", p, src);
  }

  /** An iteration moves one piece and one destination into the part that is done, and leaves
      less text after the cursor. */
  lemma Advance(c: Cursor, src: string, dst: string, target: string)
    requires src != "" && InProgress(c, src, dst, target) && LoopStep(c, src, dst).At?
    ensures var d := LoopStep(c, src, dst).cursor;
            && InProgress(d, src, dst, target)
            && c.pos <= |c.text| && |d.text| - d.pos < |c.text| - c.pos
  {
    var done, todo :| Greedy(todo, src) && c == OnPieces(done, todo, src) && target == done + Join(todo, dst);
    StepShortensRest(c, src, dst);
    StepOnPieces(done, todo, src, dst);
    Reassociate(done, todo.kept, dst, Join(todo.rest, dst));
    assert LoopStep(c, src, dst).cursor == OnPieces(done + todo.kept + dst, todo.rest, src);
  }

  lemma Finish(c: Cursor, src: string, dst: string, target: string)
    requires src != "" && InProgress(c, src, dst, target) && LoopStep(c, src, dst).Ended?
    ensures c.text == target
  {
    var done, todo :| Greedy(todo, src) && c == OnPieces(done, todo, src) && target == done + Join(todo, dst);
    StepOnPieces(done, todo, src, dst);
  }
}
