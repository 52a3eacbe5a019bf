/** How a stream is cut into lines, said of the bytes themselves (cmd/storx-sim/prefix.go). */
module LineCuts {
  import opened Sequences
  import opened Keys
  import opened LineBreaking

  /** A line that does not end in time is broken at the last space of the final third of the window, or just before
      the end of the window when there is none. */
  predicate BreakAt(s: seq<Byte>, maxline: nat, pos: nat) {
    && pos < maxline <= |s|
    && if exists q :: maxline * 2 / 3 <= q < maxline && s[q] == 32 then
         maxline * 2 / 3 <= pos && s[pos] == 32 && forall q :: pos < q < maxline ==> s[q] != 32
       else pos == maxline - 1
  }

  /** The first piece of a stream, and what is left of the stream behind it. */
  predicate PieceAt(s: seq<Byte>, piece: Piece, rest: seq<Byte>, maxline: nat) {
    var n := |piece.text|;
    && n <= |s| && piece.text == s[..n]
    && match piece.ending
       case Newline =>
         n <= maxline && n < |s| && s[n] == 10 && (forall q :: 0 <= q < n ==> s[q] != 10) && rest == s[n + 1..]
       case Inserted =>
         && |s| >= maxline && (forall q :: 0 <= q <= maxline && q < |s| ==> s[q] != 10)
         && BreakAt(s, maxline, n) && rest == s[n..]
       case EndOfBuffer => false
  }

  /** The pieces of a stream one after the other, and the unfinished short line that is kept. */
  ghost predicate CutInto(s: seq<Byte>, pieces: seq<Piece>, kept: seq<Byte>, maxline: nat)
    decreases |pieces|
  {
    if pieces == [] then kept == s && |s| < maxline && forall q :: 0 <= q < |s| ==> s[q] != 10
    else exists rest :: PieceAt(s, pieces[0], rest, maxline) && CutInto(rest, pieces[1..], kept, maxline)
  }

  /** The position that the search for a space finds. */
  lemma BreakIsAt(s: seq<Byte>, maxline: nat)
    requires 1 <= maxline <= |s|
    ensures BreakAt(s, maxline, BreakPos(s, maxline))
  {
    var p := SpaceBefore(s, maxline * 2 / 3, maxline - 1);
    if q :| maxline * 2 / 3 <= q < maxline && s[q] == 32 {
      assert p >= q;
    }
  }

  lemma NewlineIsFirst(s: seq<Byte>)
    ensures var pos := FirstIndex(s, NEWLINE);
            if pos < 0 then forall q :: 0 <= q < |s| ==> s[q] != 10
            else s[pos] == 10 && forall q :: 0 <= q < pos ==> s[q] != 10
  {
    var pos := FirstIndex(s, NEWLINE);
    forall q | 0 <= q < (if pos < 0 then |s| else pos)
      ensures s[q] != 10
    {
      if pos >= 0 {
        assert s[q] == s[..pos][q];
      } else {
        assert s[q] in s;
      }
    }
  }

  lemma StepIsPiece(s: seq<Byte>, maxline: nat)
    requires maxline >= 2
    ensures match WriteStep(s, maxline)
            case Wait => CutInto(s, [], s, maxline)
            case Emit(piece, rest) => PieceAt(s, piece, rest, maxline)
  {
    NewlineIsFirst(s);
    if WriteStep(s, maxline).Emit? && WriteStep(s, maxline).piece.ending.Inserted? {
      BreakIsAt(s, maxline);
    }
  }

  /** The rounds of Write cut the stream just so. */
  lemma {:induction false} DrainCuts(s: seq<Byte>, maxline: nat)
    requires maxline >= 2
    ensures CutInto(s, Drain(s, maxline).0, Drain(s, maxline).1, maxline)
    decreases |s|
  {
    StepIsPiece(s, maxline);
    match WriteStep(s, maxline)
    case Wait =>
    case Emit(piece, rest) =>
      DrainCuts(rest, maxline);
      var (pieces, kept) := Drain(rest, maxline);
      assert ([piece] + pieces)[1..] == pieces;
  }

  /** The first piece of what is flushed: here a rest without newline that fits a line ends the buffer. */
  predicate FlushedAt(s: seq<Byte>, piece: Piece, rest: seq<Byte>, maxline: nat) {
    var n := |piece.text|;
    && n <= |s| && piece.text == s[..n]
    && match piece.ending
       case Newline =>
         n <= maxline && n < |s| && s[n] == 10 && (forall q :: 0 <= q < n ==> s[q] != 10) && rest == s[n + 1..]
       case Inserted =>
         && |s| > maxline && (forall q :: 0 <= q <= maxline ==> s[q] != 10)
         && BreakAt(s, maxline, n) && rest == s[n..]
       case EndOfBuffer => n == |s| <= maxline && (forall q :: 0 <= q < n ==> s[q] != 10) && rest == []
  }

  ghost predicate FlushedInto(s: seq<Byte>, pieces: seq<Piece>, maxline: nat)
    decreases |pieces|
  {
    if pieces == [] then s == []
    else exists rest :: FlushedAt(s, pieces[0], rest, maxline) && FlushedInto(rest, pieces[1..], maxline)
  }

  /** A flush cuts whatever is buffered just so. */
  lemma {:induction false} FlushCuts(s: seq<Byte>, maxline: nat)
    requires maxline >= 2
    ensures FlushedInto(s, FlushPieces(s, maxline), maxline)
    decreases |s|
  {
    if s == [] {
    } else {
      NewlineIsFirst(s);
      var (piece, rest) := FlushStep(s, maxline);
      if piece.ending.Inserted? {
        BreakIsAt(s, maxline);
      }
      assert FlushedAt(s, piece, rest, maxline);
      FlushCuts(rest, maxline);
      assert ([piece] + FlushPieces(rest, maxline))[1..] == FlushPieces(rest, maxline);
    }
  }

  /** There is only one way to cut a stream so. */
  lemma {:induction false} CutsOneWay(s: seq<Byte>, a: seq<Piece>, kept: seq<Byte>, b: seq<Piece>, kept': seq<Byte>,
                                      maxline: nat)
    requires CutInto(s, a, kept, maxline) && CutInto(s, b, kept', maxline)
    ensures a == b && kept == kept'
    decreases |a|
  {
    if a == [] || b == [] {
    } else {
      var rest :| PieceAt(s, a[0], rest, maxline) && CutInto(rest, a[1..], kept, maxline);
      var rest' :| PieceAt(s, b[0], rest', maxline) && CutInto(rest', b[1..], kept', maxline);
      FirstPieceIsOne(s, a[0], rest, b[0], rest', maxline);
      CutsOneWay(rest, a[1..], kept, b[1..], kept', maxline);
      assert a == [a[0]] + a[1..] && b == [b[0]] + b[1..];
    }
  }

  lemma FirstPieceIsOne(s: seq<Byte>, p: Piece, rest: seq<Byte>, q: Piece, rest': seq<Byte>, maxline: nat)
    requires PieceAt(s, p, rest, maxline) && PieceAt(s, q, rest', maxline)
    ensures p == q && rest == rest'
  {
    var m, n := |p.text|, |q.text|;
    assert p.ending == q.ending by {
      assert p.ending.Newline? ==> s[m] == 10;
      assert q.ending.Newline? ==> s[n] == 10;
    }
    assert m == n;
  }
}
