/** The line-prefixing writer: a buffer that is drained in place (cmd/storx-sim/prefix.go).
    The prefix, id and time columns in front of each line are not modelled. */
module PrefixWriter {
  import opened Sequences
  import opened Keys
  import opened LineBreaking
  import opened LineCuts

  class PrefixWriter {
    const maxline: nat
    var buffer: seq<Byte>
    var out: seq<Piece>           // the lines handed to the destination
    ghost var written: seq<Byte>  // everything ever passed to Write

    /** Nothing is lost or invented: emitted lines and buffer are the bytes written. */
    ghost predicate Valid()
      reads this
    {
      && maxline >= 2
      && Kept(buffer, maxline)
      && Bounded(out, maxline)
      && Bytes(out) + buffer == written
    }

    constructor (maxline: nat)
      requires maxline >= 2
      ensures Valid() && this.maxline == maxline && out == [] && buffer == [] && written == []
    {
      this.maxline := maxline;
      buffer, out, written := [], [], [];
    }

    /** The loop over the final third of the window, from the right, for a space to break on. */
    method FindBreak(s: seq<Byte>) returns (pos: nat)
      requires 1 <= maxline <= |s|
      ensures pos == BreakPos(s, maxline) && BreakAt(s, maxline, pos)
    {
      BreakIsAt(s, maxline);
      pos := maxline - 1;
      var p := maxline - 1;
      while p >= maxline * 2 / 3
        invariant -1 <= p <= maxline - 1 && pos == maxline - 1
        invariant SpaceBefore(s, maxline * 2 / 3, p) == SpaceBefore(s, maxline * 2 / 3, maxline - 1)
        decreases p
      {
        if s[p] == SPACE {
          pos := p;
          break;
        }
        p := p - 1;
      }
    }

    /** Write emits every complete line, breaks overlong ones and keeps the unfinished rest. */
    method Write(data: seq<Byte>) returns (n: nat)
      requires Valid()
      modifies this
      ensures Valid() && n == |data|
      ensures written == old(written) + data
      ensures out == old(out) + Drain(old(buffer) + data, maxline).0
      ensures buffer == Drain(old(buffer) + data, maxline).1
      ensures old(out) <= out && CutInto(old(buffer) + data, out[|old(out)|..], buffer, maxline)
    {
      n := |data|;
      WriteIsValid(out, buffer, data, written, maxline);
      if |data| == 0 {
        assert buffer + data == buffer && written + data == written && out + [] == out;
        return;
      }
      var rest := data;
      if |buffer| > 0 {
        rest := buffer + data;
      }
      assert rest == buffer + data;
      written := written + data;
      buffer := WriteLines(rest);
    }

    /** The loop of Write: it hands out lines until it has to wait for more data. */
    method WriteLines(start: seq<Byte>) returns (rest: seq<Byte>)
      requires maxline >= 2
      modifies `out
      ensures out == old(out) + Drain(start, maxline).0 && rest == Drain(start, maxline).1
    {
      rest := start;
      ghost var done := [];
      while |rest| > 0
        invariant out == old(out) + done
        invariant done + Drain(rest, maxline).0 == Drain(start, maxline).0
        invariant Drain(rest, maxline).1 == Drain(start, maxline).1
        decreases |rest|
      {
        var pos := FirstIndex(rest, NEWLINE);
        var insertBreak := false;
        if pos < 0 && |rest| < maxline {
          // wait for more data
          break;
        }
        if pos < 0 || pos > maxline {
          pos := FindBreak(rest);
          insertBreak := true;
        }
        var piece := Piece(rest[..pos], if insertBreak then Inserted else Newline);
        ghost var before := rest;
        out := out + [piece];
        rest := rest[pos..];
        if !insertBreak && |rest| > 0 {
          rest := rest[1..];
        }
        DrainMovesOn(done, before, piece, rest, maxline);
        Associates(old(out), done, [piece]);
        done := done + [piece];
      }
      assert Drain(rest, maxline) == ([], rest);
      assert done + [] == done;
    }

    /** Flush empties the buffer; a kept rest comes out as one line. */
    method Flush()
      requires Valid()
      modifies this
      ensures Valid() && buffer == [] && written == old(written)
      ensures out == old(out) + FlushPieces(old(buffer), maxline)
      ensures FlushPieces(old(buffer), maxline) == if old(buffer) == [] then [] else [Piece(old(buffer), EndOfBuffer)]
    {
      var rest := buffer;
      buffer := [];
      FlushIsValid(out, rest, maxline);
      if |rest| == 0 {
        return;
      }
      FlushLines(rest);
    }

    /** The loop of Flush: it hands out everything. */
    method FlushLines(start: seq<Byte>)
      requires maxline >= 2
      modifies `out
      ensures out == old(out) + FlushPieces(start, maxline)
    {
      var rest := start;
      ghost var done := [];
      while |rest| > 0
        invariant out == old(out) + done
        invariant done + FlushPieces(rest, maxline) == FlushPieces(start, maxline)
        decreases |rest|
      {
        var found := FirstIndex(rest, NEWLINE);
        var pos := if found < 0 then |rest| else found;
        var insertBreak := false;
        if pos > maxline {
          pos := FindBreak(rest);
          insertBreak := true;
        }
        var ending := if insertBreak then Inserted else if pos == |rest| then EndOfBuffer else Newline;
        var piece := Piece(rest[..pos], ending);
        ghost var before := rest;
        out := out + [piece];
        rest := rest[pos..];
        if !insertBreak && |rest| > 0 {
          rest := rest[1..];
        }
        assert before[..|before|] == before && before[|before|..] == [];
        FlushMovesOn(done, before, piece, rest, maxline);
        Associates(old(out), done, [piece]);
        done := done + [piece];
      }
      assert done + [] == done;
    }
  }

  lemma FlushMovesOn(done: seq<Piece>, before: seq<Byte>, piece: Piece, rest: seq<Byte>, maxline: nat)
    requires maxline >= 2 && before != [] && FlushStep(before, maxline) == (piece, rest)
    ensures |rest| < |before|
    ensures done + [piece] + FlushPieces(rest, maxline) == done + FlushPieces(before, maxline)
  {
    Associates(done, [piece], FlushPieces(rest, maxline));
  }

  lemma DrainMovesOn(done: seq<Piece>, before: seq<Byte>, piece: Piece, rest: seq<Byte>, maxline: nat)
    requires maxline >= 2 && WriteStep(before, maxline) == Emit(piece, rest)
    ensures |rest| < |before|
    ensures done + [piece] + Drain(rest, maxline).0 == done + Drain(before, maxline).0
    ensures Drain(rest, maxline).1 == Drain(before, maxline).1
  {
    var (pieces, kept) := Drain(rest, maxline);
    assert Drain(before, maxline) == ([piece] + pieces, kept);
    Associates(done, [piece], pieces);
  }

  lemma CutsBehind(out: seq<Piece>, s: seq<Byte>, maxline: nat)
    requires maxline >= 2
    ensures var (pieces, kept) := Drain(s, maxline);
            out <= out + pieces && CutInto(s, (out + pieces)[|out|..], kept, maxline)
  {
    DrainCuts(s, maxline);
    assert (out + Drain(s, maxline).0)[|out|..] == Drain(s, maxline).0;
  }

  lemma WriteIsValid(out: seq<Piece>, buffer: seq<Byte>, data: seq<Byte>, written: seq<Byte>, maxline: nat)
    requires maxline >= 2 && Bounded(out, maxline) && Bytes(out) + buffer == written
    ensures var (pieces, kept) := Drain(buffer + data, maxline);
            && Bounded(out + pieces, maxline) && Kept(kept, maxline) && Bytes(out + pieces) + kept == written + data
            && out <= out + pieces && CutInto(buffer + data, (out + pieces)[|out|..], kept, maxline)
  {
    var (pieces, kept) := Drain(buffer + data, maxline);
    CutsBehind(out, buffer + data, maxline);
    DrainConserves(buffer + data, maxline);
    DrainBounds(buffer + data, maxline);
    BoundedAppend(out, pieces, maxline);
    BytesAppend(out, pieces);
    Associates(Bytes(out), Bytes(pieces), kept);
    Associates(Bytes(out), buffer, data);
  }

  lemma FlushIsValid(out: seq<Piece>, buffer: seq<Byte>, maxline: nat)
    requires maxline >= 2 && Bounded(out, maxline) && Kept(buffer, maxline)
    ensures var pieces := FlushPieces(buffer, maxline);
            && Bounded(out + pieces, maxline) && Bytes(out + pieces) + [] == Bytes(out) + buffer
            && pieces == if buffer == [] then [] else [Piece(buffer, EndOfBuffer)]
  {
    FlushConserves(buffer, maxline);
    BoundedAppend(out, FlushPieces(buffer, maxline), maxline);
    BytesAppend(out, FlushPieces(buffer, maxline));
    if buffer != [] {
      assert FlushStep(buffer, maxline) == (Piece(buffer, EndOfBuffer), []);
    }
  }
}
