/** How the prefixing writer cuts its buffer into lines (cmd/storx-sim/prefix.go). */
module LineBreaking {
  import opened Sequences
  import opened Keys

  const NEWLINE: Byte := 10
  const SPACE: Byte := 32

  /** Why a piece ends: at a newline of the stream, at an inserted break, or because a flush found nothing more. */
  datatype Ending = Newline | Inserted | EndOfBuffer

  /** One line handed to the destination, without the line break that is written after it. */
  datatype Piece = Piece(text: seq<Byte>, ending: Ending)

  datatype Step = Wait | Emit(piece: Piece, rest: seq<Byte>)

  /** The last space at or before `p` and not before `low`, if there is one. */
  function SpaceBefore(s: seq<Byte>, low: nat, p: int): (n: int)
    requires p < |s|
    ensures n == -1 || low <= n <= p
    ensures n >= 0 ==> s[n] == SPACE && forall q :: n < q <= p ==> s[q] != SPACE
    ensures n == -1 ==> forall q :: low <= q <= p ==> s[q] != SPACE
    decreases p
  {
    if p < low then -1 else if s[p] == SPACE then p else SpaceBefore(s, low, p - 1)
  }

  /** Where a line is broken: at the last space in the final third of the window, or just before its end. */
  function BreakPos(s: seq<Byte>, maxline: nat): (pos: nat)
    requires 1 <= maxline <= |s|
    ensures pos < maxline && (maxline >= 2 ==> pos >= 1)
  {
    var p := SpaceBefore(s, maxline * 2 / 3, maxline - 1);
    if p < 0 then maxline - 1 else p
  }

  /** One round of the loop in Write. */
  function WriteStep(s: seq<Byte>, maxline: nat): Step
    requires maxline >= 1
  {
    var pos := FirstIndex(s, NEWLINE);
    if pos < 0 && |s| < maxline then Wait
    else if pos < 0 || pos > maxline then
      var brk := BreakPos(s, maxline);
      Emit(Piece(s[..brk], Inserted), s[brk..])
    else Emit(Piece(s[..pos], Newline), s[pos + 1..])
  }

  /** Every round shortens the buffer exactly when lines may hold at least two bytes:
      with a limit of one, a byte that is not a newline is never consumed. */
  lemma StepsMakeProgress(maxline: nat)
    requires maxline >= 1
    ensures (forall s :: WriteStep(s, maxline).Emit? ==> |WriteStep(s, maxline).rest| < |s|) <==> maxline >= 2
  {
    if maxline == 1 {
      assert BreakPos([SPACE + 1], 1) == 0;
      assert FirstIndex([SPACE + 1], NEWLINE) == -1;
      assert WriteStep([SPACE + 1], 1) == Emit(Piece([], Inserted), [SPACE + 1]);
    }
  }

  /** All rounds of one Write: the pieces it emits and what it keeps. */
  function Drain(s: seq<Byte>, maxline: nat): (seq<Piece>, seq<Byte>)
    requires maxline >= 2
    decreases |s|
  {
    match WriteStep(s, maxline)
    case Wait => ([], s)
    case Emit(piece, rest) => var (pieces, kept) := Drain(rest, maxline); ([piece] + pieces, kept)
  }

  /** One round of the loop in Flush. */
  function FlushStep(s: seq<Byte>, maxline: nat): (r: (Piece, seq<Byte>))
    requires maxline >= 2 && s != []
    ensures |r.1| < |s|
  {
    var found := FirstIndex(s, NEWLINE);
    var pos := if found < 0 then |s| else found;
    if pos > maxline then
      var brk := BreakPos(s, maxline);
      (Piece(s[..brk], Inserted), s[brk..])
    else if found < 0 then (Piece(s, EndOfBuffer), [])
    else (Piece(s[..pos], Newline), s[pos + 1..])
  }

  function FlushPieces(s: seq<Byte>, maxline: nat): seq<Piece>
    requires maxline >= 2
    decreases |s|
  {
    if s == [] then []
    else var (piece, rest) := FlushStep(s, maxline); [piece] + FlushPieces(rest, maxline)
  }

  lemma SliceAppend(a: seq<Byte>, b: seq<Byte>, k: nat)
    requires k <= |a|
    ensures (a + b)[..k] == a[..k] && (a + b)[k..] == a[k..] + b
  {
  }

  // ----- conservation and bounds

  /** The stream bytes a piece stands for: a newline is restored only where there was one. */
  function Bytes(pieces: seq<Piece>): seq<Byte> {
    if pieces == [] then [] else PieceBytes(pieces[0]) + Bytes(pieces[1..])
  }

  function PieceBytes(p: Piece): seq<Byte> {
    p.text + (if p.ending.Newline? then [NEWLINE] else [])
  }

  lemma {:induction false} BytesAppend(a: seq<Piece>, b: seq<Piece>)
    ensures Bytes(a + b) == Bytes(a) + Bytes(b)
  {
    if a == [] {
      assert a + b == b;
    } else {
      BytesAppend(a[1..], b);
      assert (a + b)[0] == a[0] && (a + b)[1..] == a[1..] + b;
      Associates(PieceBytes(a[0]), Bytes(a[1..]), Bytes(b));
    }
  }

  /** A piece is one line: it holds no newline and at most `maxline` bytes. */
  ghost predicate Bounded(pieces: seq<Piece>, maxline: nat) {
    forall i :: 0 <= i < |pieces| ==> NEWLINE !in pieces[i].text && |pieces[i].text| <= maxline
  }

  /** What Write keeps back: an unfinished line that is still short. */
  ghost predicate Kept(s: seq<Byte>, maxline: nat) {
    NEWLINE !in s && |s| < maxline
  }

  lemma OnePiece(p: Piece)
    ensures Bytes([p]) == PieceBytes(p)
  {
    assert [p][1..] == [];
  }

  lemma CutAt(s: seq<Byte>, pos: nat)
    requires pos <= |s|
    ensures s == s[..pos] + s[pos..]
    ensures pos < |s| ==> s == s[..pos] + [s[pos]] + s[pos + 1..]
  {
  }

  lemma NoNewlineBefore(s: seq<Byte>, pos: nat)
    requires pos <= |s| && (FirstIndex(s, NEWLINE) < 0 || pos <= FirstIndex(s, NEWLINE))
    ensures NEWLINE !in s[..pos]
  {
    var n := FirstIndex(s, NEWLINE);
    if n >= 0 { assert s[..n][..pos] == s[..pos]; }
  }

  lemma StepConserves(s: seq<Byte>, maxline: nat)
    requires maxline >= 2 && WriteStep(s, maxline).Emit?
    ensures var Emit(piece, rest) := WriteStep(s, maxline); s == Bytes([piece]) + rest && Bounded([piece], maxline)
  {
    var piece := WriteStep(s, maxline).piece;
    OnePiece(piece);
    CutAt(s, |piece.text|);
    NoNewlineBefore(s, |piece.text|);
  }

  /** The pieces a Write emits and the bytes it keeps are the bytes it was given. */
  lemma {:induction false} DrainConserves(s: seq<Byte>, maxline: nat)
    requires maxline >= 2
    ensures Bytes(Drain(s, maxline).0) + Drain(s, maxline).1 == s
    decreases |s|
  {
    match WriteStep(s, maxline)
    case Wait =>
    case Emit(piece, rest) =>
      StepConserves(s, maxline);
      DrainConserves(rest, maxline);
      var (pieces, kept) := Drain(rest, maxline);
      BytesAppend([piece], pieces);
      Associates(Bytes([piece]), Bytes(pieces), kept);
  }

  /** No emitted piece is longer than `maxline`; what is kept is an unfinished, shorter line. */
  lemma {:induction false} DrainBounds(s: seq<Byte>, maxline: nat)
    requires maxline >= 2
    ensures Bounded(Drain(s, maxline).0, maxline) && Kept(Drain(s, maxline).1, maxline)
    decreases |s|
  {
    match WriteStep(s, maxline)
    case Wait =>
    case Emit(piece, rest) =>
      StepConserves(s, maxline);
      DrainBounds(rest, maxline);
      BoundedAppend([piece], Drain(rest, maxline).0, maxline);
  }

  lemma BoundedAppend(a: seq<Piece>, b: seq<Piece>, maxline: nat)
    requires Bounded(a, maxline) && Bounded(b, maxline)
    ensures Bounded(a + b, maxline)
  {
  }

  lemma FlushStepConserves(s: seq<Byte>, maxline: nat)
    requires maxline >= 2 && s != []
    ensures var (piece, rest) := FlushStep(s, maxline); s == Bytes([piece]) + rest && Bounded([piece], maxline)
  {
    var piece := FlushStep(s, maxline).0;
    OnePiece(piece);
    CutAt(s, |piece.text|);
    NoNewlineBefore(s, |piece.text|);
  }

  lemma {:induction false} FlushConserves(s: seq<Byte>, maxline: nat)
    requires maxline >= 2
    ensures Bytes(FlushPieces(s, maxline)) == s && Bounded(FlushPieces(s, maxline), maxline)
    decreases |s|
  {
    if s == [] {
    } else {
      var (piece, rest) := FlushStep(s, maxline);
      FlushStepConserves(s, maxline);
      FlushConserves(rest, maxline);
      BytesAppend([piece], FlushPieces(rest, maxline));
      BoundedAppend([piece], FlushPieces(rest, maxline), maxline);
    }
  }

  // ----- cutting the stream into writes

  /** The writes of a list of chunks, starting from a kept buffer. */
  function WriteAll(kept: seq<Byte>, chunks: seq<seq<Byte>>, maxline: nat): (seq<Piece>, seq<Byte>)
    requires maxline >= 2
    decreases |chunks|
  {
    if chunks == [] then ([], kept)
    else
      var (first, mid) := Drain(kept + chunks[0], maxline);
      var (more, last) := WriteAll(mid, chunks[1..], maxline);
      (first + more, last)
  }

  function Concat(chunks: seq<seq<Byte>>): seq<Byte> {
    if chunks == [] then [] else chunks[0] + Concat(chunks[1..])
  }

  function Texts(pieces: seq<Piece>): (ts: seq<seq<Byte>>)
    ensures |ts| == |pieces|
  {
    seq(|pieces|, i requires 0 <= i < |pieces| => pieces[i].text)
  }

  /** The lines that reach the destination over all writes and a final flush. */
  function Output(chunks: seq<seq<Byte>>, maxline: nat): seq<seq<Byte>>
    requires maxline >= 2
  {
    var (pieces, kept) := WriteAll([], chunks, maxline);
    Texts(pieces + FlushPieces(kept, maxline))
  }

  /** Written in one go, the stream has a piece of exactly `maxline` bytes in front of a newline. */
  predicate ExactHit(s: seq<Byte>, maxline: nat)
    requires maxline >= 2
    decreases |s|
  {
    match WriteStep(s, maxline)
    case Wait => false
    case Emit(piece, rest) => (piece.ending.Newline? && |piece.text| == maxline) || ExactHit(rest, maxline)
  }

  /** A line hits when, broken as it is too long, it leaves a rest of exactly `maxline` bytes. */
  predicate LineHits(line: seq<Byte>, maxline: nat)
    requires maxline >= 2
    decreases |line|
  {
    if |line| <= maxline then |line| == maxline else LineHits(line[BreakPos(line, maxline)..], maxline)
  }

  /** The lines of a stream that end in a newline. */
  function EndedLines(s: seq<Byte>): seq<seq<Byte>>
    decreases |s|
  {
    var pos := FirstIndex(s, NEWLINE);
    if pos < 0 then [] else [s[..pos]] + EndedLines(s[pos + 1..])
  }

  lemma {:induction false} SpaceBeforeAppend(a: seq<Byte>, b: seq<Byte>, low: nat, p: int)
    requires p < |a|
    ensures SpaceBefore(a + b, low, p) == SpaceBefore(a, low, p)
    decreases p
  {
    if p >= low {
      SpaceBeforeAppend(a, b, low, p - 1);
    }
  }

  lemma NewlineStable(a: seq<Byte>, b: seq<Byte>, maxline: nat)
    requires maxline >= 2 && 0 <= FirstIndex(a, NEWLINE) <= maxline
    ensures WriteStep(a + b, maxline) == Emit(WriteStep(a, maxline).piece, WriteStep(a, maxline).rest + b)
  {
    FirstIndexAppend(a, b, NEWLINE);
    var pos := FirstIndex(a, NEWLINE);
    SliceAppend(a, b, pos);
    SliceAppend(a, b, pos + 1);
  }

  lemma BreakStable(a: seq<Byte>, b: seq<Byte>, maxline: nat)
    requires 2 <= maxline <= |a|
    ensures BreakPos(a + b, maxline) == BreakPos(a, maxline)
  {
    SpaceBeforeAppend(a, b, maxline * 2 / 3, maxline - 1);
  }

  /** A round that emits does the same when more bytes follow, unless those bytes turn a full
      window without newline into a line of exactly `maxline` bytes. */
  lemma StepStable(a: seq<Byte>, b: seq<Byte>, maxline: nat)
    requires maxline >= 2 && WriteStep(a, maxline).Emit?
    requires WriteStep(a, maxline).piece.ending.Newline? || FirstIndex(a + b, NEWLINE) != maxline
    ensures WriteStep(a + b, maxline) == Emit(WriteStep(a, maxline).piece, WriteStep(a, maxline).rest + b)
  {
    if WriteStep(a, maxline).piece.ending.Newline? {
      NewlineStable(a, b, maxline);
    } else {
      FirstIndexAppend(a, b, NEWLINE);
      BreakStable(a, b, maxline);
      SliceAppend(a, b, BreakPos(a, maxline));
    }
  }

  lemma NotAtMaxline(a: seq<Byte>, b: seq<Byte>, maxline: nat)
    requires maxline >= 2 && !ExactHit(a + b, maxline)
    ensures FirstIndex(a + b, NEWLINE) != maxline
  {
  }

  /** Writing a stream in two parts is writing it in one, unless it has an exact hit. */
  lemma {:induction false} DrainSplit(a: seq<Byte>, b: seq<Byte>, maxline: nat)
    requires maxline >= 2 && !ExactHit(a + b, maxline)
    ensures !ExactHit(Drain(a, maxline).1 + b, maxline)
    ensures var (first, mid) := Drain(a, maxline);
            Drain(a + b, maxline) == (first + Drain(mid + b, maxline).0, Drain(mid + b, maxline).1)
    decreases |a|
  {
    match WriteStep(a, maxline)
    case Wait =>
      assert [] + Drain(a + b, maxline).0 == Drain(a + b, maxline).0;
    case Emit(piece, rest) =>
      NotAtMaxline(a, b, maxline);
      StepStable(a, b, maxline);
      DrainSplit(rest, b, maxline);
      var (first, mid) := Drain(rest, maxline);
      assert [piece] + (first + Drain(mid + b, maxline).0) == [piece] + first + Drain(mid + b, maxline).0;
  }

  lemma {:induction false} WriteAllIsDrain(kept: seq<Byte>, chunks: seq<seq<Byte>>, maxline: nat)
    requires maxline >= 2 && Kept(kept, maxline) && !ExactHit(kept + Concat(chunks), maxline)
    ensures WriteAll(kept, chunks, maxline) == Drain(kept + Concat(chunks), maxline)
    decreases |chunks|
  {
    if chunks == [] {
      assert kept + [] == kept;
    } else {
      var rest := Concat(chunks[1..]);
      assert kept + Concat(chunks) == (kept + chunks[0]) + rest;
      DrainSplit(kept + chunks[0], rest, maxline);
      DrainBounds(kept + chunks[0], maxline);
      WriteAllIsDrain(Drain(kept + chunks[0], maxline).1, chunks[1..], maxline);
    }
  }

  // ----- when cutting matters

  /** The lines of one write of `a` and one of `b`, with a final flush. */
  function TwoWrites(a: seq<Byte>, b: seq<Byte>, maxline: nat): seq<seq<Byte>>
    requires maxline >= 2
  {
    var (first, mid) := Drain(a, maxline);
    var (second, kept) := Drain(mid + b, maxline);
    Texts(first + second + FlushPieces(kept, maxline))
  }

  function OneWrite(s: seq<Byte>, maxline: nat): seq<seq<Byte>>
    requires maxline >= 2
  {
    Texts(Drain(s, maxline).0 + FlushPieces(Drain(s, maxline).1, maxline))
  }

  lemma OutputOfOneOrTwo(a: seq<Byte>, b: seq<Byte>, maxline: nat)
    requires maxline >= 2
    ensures Output([a], maxline) == OneWrite(a, maxline)
    ensures Output([a, b], maxline) == TwoWrites(a, b, maxline)
  {
    assert [] + a == a && [a][1..] == [] && [a, b][1..] == [b] && [b][1..] == [];
    var (first, mid) := Drain(a, maxline);
    var (second, kept) := Drain(mid + b, maxline);
    assert WriteAll(mid, [b], maxline) == (second + [], kept);
    assert WriteAll([], [a], maxline) == (first + [], mid);
    assert WriteAll([], [a, b], maxline) == (first + (second + []), kept);
    assert second + [] == second && first + [] == first;
  }

  lemma TextsCons(p: Piece, a: seq<Piece>, b: seq<Piece>)
    ensures Texts([p] + a + b) == [p.text] + Texts(a + b)
  {
  }

  lemma OneWriteStep(s: seq<Byte>, maxline: nat)
    requires maxline >= 2 && WriteStep(s, maxline).Emit?
    ensures OneWrite(s, maxline) == [WriteStep(s, maxline).piece.text] + OneWrite(WriteStep(s, maxline).rest, maxline)
  {
    var Emit(piece, rest) := WriteStep(s, maxline);
    var (pieces, kept) := Drain(rest, maxline);
    assert Drain(s, maxline) == ([piece] + pieces, kept);
    TextsCons(piece, pieces, FlushPieces(kept, maxline));
  }

  lemma TwoWritesStep(a: seq<Byte>, b: seq<Byte>, maxline: nat)
    requires maxline >= 2 && WriteStep(a, maxline).Emit?
    ensures TwoWrites(a, b, maxline) ==
      [WriteStep(a, maxline).piece.text] + TwoWrites(WriteStep(a, maxline).rest, b, maxline)
  {
    var Emit(piece, rest) := WriteStep(a, maxline);
    var (first, mid) := Drain(rest, maxline);
    var (second, kept) := Drain(mid + b, maxline);
    var flushed := FlushPieces(kept, maxline);
    assert Drain(a, maxline) == ([piece] + first, mid);
    TextsCons(piece, first, second + flushed);
    assert [piece] + first + second + flushed == [piece] + first + (second + flushed);
    assert first + second + flushed == first + (second + flushed);
  }

  lemma PrefixEmits(head: seq<Byte>, tail: seq<Byte>, maxline: nat)
    requires maxline >= 2 && WriteStep(head + tail, maxline).Emit?
    requires |head| >= |head + tail| - |WriteStep(head + tail, maxline).rest|
    requires WriteStep(head + tail, maxline).piece.ending.Newline? || |head| >= maxline
    ensures WriteStep(head, maxline).Emit?
    ensures WriteStep(head, maxline).piece.ending.Newline? || FirstIndex(head + tail, NEWLINE) != maxline
  {
    FirstIndexAppend(head, tail, NEWLINE);
  }

  lemma SplitEnds(x: seq<Byte>, y: seq<Byte>, n: nat)
    requires n == |x|
    ensures (x + y)[..n] == x && (x + y)[n..] == y
  {
  }

  /** Cutting far enough behind a piece does not change how that piece is emitted. */
  lemma StepOfPrefix(s: seq<Byte>, n: nat, maxline: nat)
    requires maxline >= 2 && WriteStep(s, maxline).Emit? && n <= |WriteStep(s, maxline).rest|
    requires WriteStep(s, maxline).piece.ending.Newline? || n >= maxline
    ensures var Emit(piece, rest) := WriteStep(s, maxline);
            var k := |s| - |rest| + n;
            0 <= k <= |s| && WriteStep(s[..k], maxline) == Emit(piece, rest[..n]) && s[k..] == rest[n..]
  {
    var rest := WriteStep(s, maxline).rest;
    var k := |s| - |rest| + n;
    var head, tail := s[..k], s[k..];
    assert s == head + tail;
    PrefixEmits(head, tail, maxline);
    StepStable(head, tail, maxline);
    SplitEnds(WriteStep(head, maxline).rest, tail, n);
  }

  /** Cutting a stream there changes what comes out. */
  ghost predicate CutShows(s: seq<Byte>, k: nat, maxline: nat)
    requires maxline >= 2
  {
    k <= |s| && TwoWrites(s[..k], s[k..], maxline) != OneWrite(s, maxline)
  }

  lemma FirstDiffers(a: seq<seq<Byte>>, b: seq<seq<Byte>>, x: seq<Byte>, y: seq<Byte>, s: seq<seq<Byte>>,
                     t: seq<seq<Byte>>)
    requires a == [x] + s && b == [y] + t && |x| < |y|
    ensures a != b
  {
    assert a[0] == x && b[0] == y;
  }

  /** Cut behind its last byte, a full line is broken before its newline is seen. */
  lemma CutAtHit(s: seq<Byte>, maxline: nat)
    requires maxline >= 2 && WriteStep(s, maxline).Emit?
    requires WriteStep(s, maxline).piece.ending.Newline? && |WriteStep(s, maxline).piece.text| == maxline
    ensures CutShows(s, maxline, maxline)
  {
    var a, b := s[..maxline], s[maxline..];
    var Emit(piece, rest) := WriteStep(a, maxline);
    OneWriteStep(s, maxline);
    TwoWritesStep(a, b, maxline);
    FirstDiffers(TwoWrites(a, b, maxline), OneWrite(s, maxline), piece.text, WriteStep(s, maxline).piece.text,
      TwoWrites(rest, b, maxline), OneWrite(WriteStep(s, maxline).rest, maxline));
  }

  /** An exact hit can be cut so that the lines come out differently: behind the last byte of the full line. */
  lemma {:induction false} HitCanBeCut(s: seq<Byte>, maxline: nat) returns (k: nat)
    requires maxline >= 2 && ExactHit(s, maxline)
    ensures k >= maxline && CutShows(s, k, maxline)
    decreases |s|
  {
    var Emit(piece, rest) := WriteStep(s, maxline);
    if piece.ending.Newline? && |piece.text| == maxline {
      k := maxline;
      CutAtHit(s, maxline);
    } else {
      var n := HitCanBeCut(rest, maxline);
      k := |s| - |rest| + n;
      CutBehind(s, n, k, maxline);
    }
  }

  /** A cut that shows behind the first piece shows in the whole. */
  lemma CutBehind(s: seq<Byte>, n: nat, k: nat, maxline: nat)
    requires 2 <= maxline <= n && WriteStep(s, maxline).Emit? && k == |s| - |WriteStep(s, maxline).rest| + n
    requires CutShows(WriteStep(s, maxline).rest, n, maxline)
    ensures CutShows(s, k, maxline)
  {
    var Emit(piece, rest) := WriteStep(s, maxline);
    StepOfPrefix(s, n, maxline);
    OneWriteStep(s, maxline);
    TwoWritesStep(s[..k], s[k..], maxline);
    ConsDiffers(piece.text, TwoWrites(rest[..n], rest[n..], maxline), OneWrite(rest, maxline));
  }

  lemma ConsDiffers(x: seq<Byte>, a: seq<seq<Byte>>, b: seq<seq<Byte>>)
    requires a != b
    ensures [x] + a != [x] + b
  {
    assert ([x] + a)[1..] == a && ([x] + b)[1..] == b;
  }

  lemma WithoutHit(chunks: seq<seq<Byte>>, maxline: nat)
    requires maxline >= 2 && !ExactHit(Concat(chunks), maxline)
    ensures Output(chunks, maxline) == OneWrite(Concat(chunks), maxline)
  {
    assert [] + Concat(chunks) == Concat(chunks);
    WriteAllIsDrain([], chunks, maxline);
  }

  lemma WithHit(s: seq<Byte>, maxline: nat) returns (chunks: seq<seq<Byte>>)
    requires maxline >= 2 && ExactHit(s, maxline)
    ensures Concat(chunks) == s && Output(chunks, maxline) != OneWrite(s, maxline)
  {
    var k := HitCanBeCut(s, maxline);
    OutputOfOneOrTwo(s[..k], s[k..], maxline);
    ConcatOfTwo(s[..k], s[k..]);
    chunks := [s[..k], s[k..]];
  }

  /** No way of cutting the stream into writes shows in the output. */
  ghost predicate CuttingIsInvisible(s: seq<Byte>, maxline: nat)
    requires maxline >= 2
  {
    forall chunks {:trigger Output(chunks, maxline)} :: Concat(chunks) == s ==>
      Output(chunks, maxline) == OneWrite(s, maxline)
  }

  /** That is so exactly for the streams without a hit. */
  lemma CuttingIsInvisibleWithoutHit(s: seq<Byte>, maxline: nat)
    requires maxline >= 2
    ensures CuttingIsInvisible(s, maxline) <==> !ExactHit(s, maxline)
  {
    if ExactHit(s, maxline) {
      var chunks := WithHit(s, maxline);
    } else {
      forall chunks {:trigger Output(chunks, maxline)} | Concat(chunks) == s
        ensures Output(chunks, maxline) == OneWrite(s, maxline)
      {
        WithoutHit(chunks, maxline);
      }
    }
  }

  lemma ConcatOfTwo(a: seq<Byte>, b: seq<Byte>)
    ensures Concat([a, b]) == a + b
  {
    assert [a, b][1..] == [b] && Concat([b]) == b + Concat([b][1..]);
  }

  // ----- the hits of a stream, line by line

  lemma NewlineAfter(line: seq<Byte>, rest: seq<Byte>)
    requires NEWLINE !in line
    ensures FirstIndex(line + [NEWLINE] + rest, NEWLINE) == |line|
  {
    assert line + [NEWLINE] + rest == line + ([NEWLINE] + rest);
    FirstIndexAppend(line, [NEWLINE] + rest, NEWLINE);
  }

  lemma TailHasNoNewline(line: seq<Byte>, k: nat)
    requires NEWLINE !in line && k <= |line|
    ensures NEWLINE !in line[k..]
  {
  }

  /** The first line of a stream hits, or the rest of the stream does. */
  lemma {:induction false} HitOfFirstLine(line: seq<Byte>, rest: seq<Byte>, maxline: nat)
    requires maxline >= 2 && NEWLINE !in line
    ensures ExactHit(line + [NEWLINE] + rest, maxline) <==> LineHits(line, maxline) || ExactHit(rest, maxline)
    decreases |line|
  {
    var s := line + [NEWLINE] + rest;
    NewlineAfter(line, rest);
    if |line| <= maxline {
      assert s[..|line|] == line && s[|line| + 1..] == rest;
    } else {
      var brk := BreakPos(line, maxline);
      BreakStable(line, [NEWLINE] + rest, maxline);
      assert s == line + ([NEWLINE] + rest);
      SliceAppend(line, [NEWLINE] + rest, brk);
      assert line[brk..] + ([NEWLINE] + rest) == line[brk..] + [NEWLINE] + rest;
      TailHasNoNewline(line, brk);
      HitOfFirstLine(line[brk..], rest, maxline);
    }
  }

  lemma {:induction false} NoHitWithoutNewline(s: seq<Byte>, maxline: nat)
    requires maxline >= 2 && NEWLINE !in s
    ensures !ExactHit(s, maxline)
    decreases |s|
  {
    if |s| >= maxline {
      TailHasNoNewline(s, BreakPos(s, maxline));
      NoHitWithoutNewline(s[BreakPos(s, maxline)..], maxline);
    }
  }

  /** A stream has a hit exactly when one of its lines that end in a newline hits; a line of exactly
      `maxline` bytes does. */
  lemma {:induction false} HitsAreLines(s: seq<Byte>, maxline: nat)
    requires maxline >= 2
    ensures ExactHit(s, maxline) <==> exists l :: l in EndedLines(s) && LineHits(l, maxline)
    ensures (exists l :: l in EndedLines(s) && |l| == maxline) ==> ExactHit(s, maxline)
    decreases |s|
  {
    var pos := FirstIndex(s, NEWLINE);
    if pos < 0 {
      NoHitWithoutNewline(s, maxline);
    } else {
      var line, rest := s[..pos], s[pos + 1..];
      assert s == line + [NEWLINE] + rest;
      HitOfFirstLine(line, rest, maxline);
      HitsAreLines(rest, maxline);
      assert EndedLines(s) == [line] + EndedLines(rest);
    }
  }

  /** All ways of cutting a stream into writes give the same lines exactly when no line that ends in a
      newline hits. */
  lemma CuttingIsInvisibleExactly(s: seq<Byte>, maxline: nat)
    requires maxline >= 2
    ensures CuttingIsInvisible(s, maxline) <==> forall l :: l in EndedLines(s) ==> !LineHits(l, maxline)
  {
    CuttingIsInvisibleWithoutHit(s, maxline);
    HitsAreLines(s, maxline);
  }

  // ----- streams of short lines

  /** The lines of a stream; an unterminated rest counts as a line when it is not empty. */
  function Lines(s: seq<Byte>): seq<seq<Byte>>
    decreases |s|
  {
    var pos := FirstIndex(s, NEWLINE);
    if s == [] then []
    else if pos < 0 then [s]
    else [s[..pos]] + Lines(s[pos + 1..])
  }

  /** A stream without newline is kept as a whole and comes out when it is flushed. */
  lemma UnendedLine(s: seq<Byte>, maxline: nat)
    requires 2 <= maxline && s != [] && NEWLINE !in s && |s| < maxline
    ensures !ExactHit(s, maxline) && OneWrite(s, maxline) == [s] == Lines(s)
  {
    assert FlushPieces(s, maxline) == [Piece(s, EndOfBuffer)] + FlushPieces([], maxline) == [Piece(s, EndOfBuffer)];
    assert Drain(s, maxline) == ([], s);
    assert [] + [Piece(s, EndOfBuffer)] == [Piece(s, EndOfBuffer)];
  }

  lemma EndedLine(s: seq<Byte>, maxline: nat)
    requires maxline >= 2 && 0 <= FirstIndex(s, NEWLINE) < maxline
    ensures var pos := FirstIndex(s, NEWLINE);
            && OneWrite(s, maxline) == [s[..pos]] + OneWrite(s[pos + 1..], maxline)
            && (ExactHit(s, maxline) <==> ExactHit(s[pos + 1..], maxline))
  {
    OneWriteStep(s, maxline);
  }

  lemma {:induction false} ShortLinesInOneWrite(s: seq<Byte>, maxline: nat)
    requires maxline >= 2 && forall l :: l in Lines(s) ==> |l| < maxline
    ensures !ExactHit(s, maxline) && OneWrite(s, maxline) == Lines(s)
    decreases |s|
  {
    var pos := FirstIndex(s, NEWLINE);
    if s == [] {
      NothingIsWritten(maxline);
    } else if pos < 0 {
      assert s in Lines(s);
      UnendedLine(s, maxline);
    } else {
      var rest := s[pos + 1..];
      LinesFromRest(s[..pos], Lines(rest), maxline);
      ShortLinesInOneWrite(rest, maxline);
      EndedLine(s, maxline);
    }
  }

  lemma LinesFromRest(line: seq<Byte>, rest: seq<seq<Byte>>, maxline: nat)
    requires forall l :: l in [line] + rest ==> |l| < maxline
    ensures |line| < maxline && forall l :: l in rest ==> |l| < maxline
  {
    assert ([line] + rest)[0] == line;
    assert forall l :: l in rest ==> l in [line] + rest;
  }

  lemma NothingIsWritten(maxline: nat)
    requires maxline >= 2
    ensures !ExactHit([], maxline) && OneWrite([], maxline) == []
  {
    assert Drain([], maxline) == ([], []);
  }

  /** A stream whose lines all stay below `maxline` comes out as its lines, however it is cut. */
  lemma ShortLinesComeOut(chunks: seq<seq<Byte>>, maxline: nat)
    requires maxline >= 2 && forall l :: l in Lines(Concat(chunks)) ==> |l| < maxline
    ensures Output(chunks, maxline) == Lines(Concat(chunks))
  {
    var s := Concat(chunks);
    ShortLinesInOneWrite(s, maxline);
    WithoutHit(chunks, maxline);
  }
}
