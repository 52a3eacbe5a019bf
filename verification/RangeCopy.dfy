/** The copy loop cutting its parts from a reading handle, and what a printed byte range
    copies in the end (cmd/uplink/cmd_cp.go, cmd/uplink/ulfs/handle_generic.go). */
module RangeCopy {
  import opened Wrappers
  import opened Keys
  import opened Decimal
  import opened ByteRange
  import Copying = ParallelCopy

  // ----- the loop that cuts the parts

  /** The reading handle: a source and the offset of the next part. */
  class MultiReadHandle {
    const source: seq<Byte>
    var off: int

    constructor (source: seq<Byte>)
      ensures this.source == source && off == 0
    {
      this.source, off := source, 0;
    }

    method SetOffset(offset: int)
      modifies this
      ensures off == offset
    {
      off := offset;
    }

    method NextPart(length: int) returns (read: Copying.Read)
      modifies this
      ensures (read, off) == Copying.NextPart(|source|, old(off), length)
      ensures var at := if old(off) < 0 then old(off) + |source| else old(off);
              && (read.InvalidOffset? <==> at < 0 || at > |source|)
              && (read.Eof? <==> at == |source|)
              && (read.Part? ==> read.from == at && (at + |source| <= MAX_INT64 && at + length <= MAX_INT64 ==>
                   && off == at + read.length <= |source|
                   && (off == |source| || read.length == length) && (length >= 0 ==> read.length <= length)
                   && (length < 0 ==> off == |source|)))
    {
      var l := length;
      if off < 0 {
        off := off + |source|;
      }
      if off < 0 || off > |source| {
        return Copying.InvalidOffset;
      }
      if off == |source| {
        return Copying.Eof;
      }
      if l < 0 {
        l := |source|;
      }
      if Sum64(off, l) > |source| {
        l := |source| - off;
      }
      read := Copying.Part(off, l);
      off := Sum64(off, l);
    }
  }

  /** The parts cut so far, as finished parts of a copy. */
  ghost function Finished(c: Copying.Config, remaining: int, off: int, parts: seq<Copying.PartState>): Copying.State {
    Copying.State(Copying.Launching, remaining, off, parts, false, false, None)
  }

  ghost predicate AllCommitted(parts: seq<Copying.PartState>) {
    forall i :: 0 <= i < |parts| ==> parts[i].status.Committed?
  }

  lemma {:induction false} CommittedCountsZero(parts: seq<Copying.PartState>)
    requires AllCommitted(parts)
    ensures Copying.CountRunning(parts) == 0
  {
    if parts == [] {
    } else {
      CommittedCountsZero(parts[..|parts| - 1]);
    }
  }

  /** The loop invariant: the parts cut so far are the range from its start on. */
  ghost predicate Cut(c: Copying.Config, remaining: int, off: int, parts: seq<Copying.PartState>) {
    AllCommitted(parts) && Copying.PartsBound(c, parts) && Copying.RangeInv(c, Finished(c, remaining, off, parts))
  }

  ghost function NextRead(c: Copying.Config, remaining: int, off: int,
                          parts: seq<Copying.PartState>): (Copying.Read, int) {
    Copying.NextPart(|c.source|, off, Copying.Chunk(c, Finished(c, remaining, off, parts)))
  }

  /** The part that the reading handle hands out next. */
  ghost predicate NextIs(c: Copying.Config, remaining: int, off: int, parts: seq<Copying.PartState>,
                         p: Copying.PartState) {
    var read := NextRead(c, remaining, off, parts).0;
    && read.Part? && read.from + read.length <= |c.source|
    && p == Delivered(c, read)
  }

  /** A part that has been copied and committed. */
  function Delivered(c: Copying.Config, read: Copying.Read): Copying.PartState
    requires read.Part?
  {
    var to := if read.from + read.length <= |c.source| then read.from + read.length else |c.source|;
    Copying.PartState(if read.from <= to then c.source[read.from..to] else [], read.length, Copying.Committed)
  }

  /** Handing out the next part is the launch of the copy. */
  lemma CutIsLaunch(c: Copying.Config, remaining: int, off: int, parts: seq<Copying.PartState>, p: Copying.PartState)
      returns (q: Copying.PartState)
    requires c.Valid() && remaining != 0 && Cut(c, remaining, off, parts) && NextIs(c, remaining, off, parts, p)
    ensures var s := Finished(c, remaining, off, parts);
            && q.data == p.data
            && Copying.Apply(c, s, Copying.Launch) ==
               Some(Finished(c, Wrap64(remaining - Copying.Chunk(c, s)), NextRead(c, remaining, off, parts).1,
                             parts + [q]))
  {
    var s := Finished(c, remaining, off, parts);
    CommittedCountsZero(parts);
    q := Copying.NextState(c, s);
  }

  lemma SameRange(c: Copying.Config, remaining: int, off: int, parts: seq<Copying.PartState>,
                  parts': seq<Copying.PartState>)
    requires Copying.RangeInv(c, Finished(c, remaining, off, parts)) && parts != [] && parts' != []
    requires Copying.Handed(parts') == Copying.Handed(parts)
    ensures Copying.RangeInv(c, Finished(c, remaining, off, parts'))
  {
  }

  lemma CutRange(c: Copying.Config, remaining: int, off: int, parts: seq<Copying.PartState>, p: Copying.PartState)
    requires c.Valid() && remaining != 0 && Cut(c, remaining, off, parts) && NextIs(c, remaining, off, parts, p)
    ensures var s := Finished(c, remaining, off, parts);
            Copying.RangeInv(c, Finished(c, Wrap64(remaining - Copying.Chunk(c, s)),
                                         NextRead(c, remaining, off, parts).1, parts + [p]))
  {
    var s := Finished(c, remaining, off, parts);
    var q := CutIsLaunch(c, remaining, off, parts, p);
    Copying.LaunchKeepsRange(c, s);
    Copying.HandedAppend(parts, p);
    Copying.HandedAppend(parts, q);
    SameRange(c, Wrap64(remaining - Copying.Chunk(c, s)), NextRead(c, remaining, off, parts).1,
              parts + [q], parts + [p]);
  }

  lemma CommittedAppend(parts: seq<Copying.PartState>, p: Copying.PartState)
    requires AllCommitted(parts) && p.status.Committed?
    ensures AllCommitted(parts + [p]) && Copying.Handed(parts + [p]) == Copying.Handed(parts) + p.data
  {
    Copying.HandedAppend(parts, p);
  }

  lemma CutLength(c: Copying.Config, remaining: int, off: int, parts: seq<Copying.PartState>, p: Copying.PartState)
    requires c.Valid() && remaining != 0 && Cut(c, remaining, off, parts) && NextIs(c, remaining, off, parts, p)
    ensures var n := |Copying.Handed(parts)|;
            && n != c.Total() && c.Start() + n != |c.source| && 0 <= c.Start()
            && c.Start() + n + |p.data| <= |c.source| && |p.data| > 0
            && (|p.data| == c.chunkSize || n + |p.data| == c.Total() || c.Start() + n + |p.data| == |c.source|)
  {
  }

  lemma CutNext(c: Copying.Config, remaining: int, off: int, parts: seq<Copying.PartState>, p: Copying.PartState)
    requires c.Valid() && remaining != 0 && Cut(c, remaining, off, parts)
    requires NextRead(c, remaining, off, parts).0.Part? && p == Delivered(c, NextRead(c, remaining, off, parts).0)
    ensures var s := Finished(c, remaining, off, parts);
            Cut(c, Wrap64(remaining - Copying.Chunk(c, s)), NextRead(c, remaining, off, parts).1, parts + [p])
    ensures |Copying.Handed(parts)| < |Copying.Handed(parts + [p])| <= |c.source|
  {
    Copying.LaunchFacts(c, Finished(c, remaining, off, parts));
    CutRange(c, remaining, off, parts, p);
    CommittedAppend(parts, p);
    CutLength(c, remaining, off, parts, p);
    Copying.BoundArithmetic(|parts|, c.chunkSize);
  }

  /** What one round of the loop leaves: one more part, or the parts as they were. */
  ghost predicate CutMore(c: Copying.Config, read: Copying.Read, left: int, off: int, parts: seq<Copying.PartState>,
                          more: seq<Copying.PartState>) {
    if read.Part? then
      Cut(c, left, off, more) && |Copying.Handed(parts)| < |Copying.Handed(more)| <= |c.source|
    else more == parts
  }

  lemma RoundCuts(c: Copying.Config, remaining: int, off: int, parts: seq<Copying.PartState>,
                  read: Copying.Read, left: int, off': int, more: seq<Copying.PartState>)
    requires c.Valid() && remaining != 0 && Cut(c, remaining, off, parts)
    requires (read, off') == NextRead(c, remaining, off, parts)
    requires left == Wrap64(remaining - Copying.Chunk(c, Finished(c, remaining, off, parts)))
    requires more == if read.Part? then parts + [Delivered(c, read)] else parts
    ensures CutMore(c, read, left, off', parts, more)
  {
    if read.Part? {
      CutNext(c, remaining, off, parts, Delivered(c, read));
    }
  }

  /** One round of the loop: it counts the part down, asks for it and takes what it gets. */
  method CutOne(c: Copying.Config, src: MultiReadHandle, length: int, parts: seq<Copying.PartState>)
      returns (read: Copying.Read, left: int, more: seq<Copying.PartState>)
    requires c.Valid() && src.source == c.source && length != 0 && Cut(c, length, src.off, parts)
    modifies src
    ensures read == NextRead(c, length, old(src.off), parts).0
    ensures CutMore(c, read, left, src.off, parts, more)
  {
    var chunk := c.chunkSize;
    if length > 0 && chunk > length {
      chunk := length;
    }
    left := Wrap64(length - chunk);
    assert chunk == Copying.Chunk(c, Finished(c, length, src.off, parts));
    read := src.NextPart(chunk);
    more := if read.Part? then parts + [Delivered(c, read)] else parts;
    RoundCuts(c, length, old(src.off), parts, read, left, src.off, more);
  }

  /** The loop of parallelCopy when nothing fails: it cuts the source range into consecutive parts.
      It gives up exactly when it has something to cut and the offset is invalid; otherwise the parts
      are the bytes asked for, as many as a positive length says when the source can serve it. */
  method CutParts(c: Copying.Config) returns (ok: bool, parts: seq<Copying.PartState>)
    requires c.Valid()
    ensures ok <==> c.Total() == 0 || 0 <= c.Start() <= |c.source|
    ensures ok ==> Copying.Handed(parts) == c.Wanted() && Copying.PartsBound(c, parts)
    ensures ok && 0 < c.length && c.Start() + c.length <= |c.source| ==> |Copying.Handed(parts)| == c.length
  {
    var src := new MultiReadHandle(c.source);
    if c.offset != 0 {
      src.SetOffset(c.offset);
    }
    var length := c.length;
    parts := [];
    while length != 0
      invariant src.source == c.source && Cut(c, length, src.off, parts)
      decreases |c.source| - |Copying.Handed(parts)|
    {
      ghost var before, off := length, src.off;
      var read;
      read, length, parts := CutOne(c, src, length, parts);
      if read.InvalidOffset? {
        StartIsInvalid(c, before, off, parts);
        return false, parts;
      }
      if read.Eof? {
        EndIsWanted(c, before, off, parts);
        return true, parts;
      }
    }
    ok := true;
    LoopEndIsWanted(c, src.off, parts);
  }

  lemma WantedLength(c: Copying.Config)
    requires 0 < c.length && 0 <= c.Start() && c.Start() + c.length <= |c.source|
    ensures |c.Wanted()| == c.length
  {
  }

  lemma StartIsInvalid(c: Copying.Config, remaining: int, off: int, parts: seq<Copying.PartState>)
    requires c.Valid() && remaining != 0 && Cut(c, remaining, off, parts)
    requires NextRead(c, remaining, off, parts).0.InvalidOffset?
    ensures c.Total() != 0 && !(0 <= c.Start() <= |c.source|)
  {
  }

  lemma EndIsWanted(c: Copying.Config, remaining: int, off: int, parts: seq<Copying.PartState>)
    requires c.Valid() && remaining != 0 && Copying.RangeInv(c, Finished(c, remaining, off, parts))
    requires NextRead(c, remaining, off, parts).0.Eof?
    ensures Copying.Handed(parts) == c.Wanted() && 0 <= c.Start() <= |c.source|
    ensures 0 < c.length && c.Start() + c.length <= |c.source| ==> |Copying.Handed(parts)| == c.length
  {
    if 0 < c.length && 0 <= c.Start() && c.Start() + c.length <= |c.source| { WantedLength(c); }
    var s := Finished(c, remaining, off, parts);
    Copying.LoopEndKeepsRange(c, s, Copying.EndOfSource);
    Copying.HandedIsWanted(c, Copying.Apply(c, s, Copying.EndOfSource).value);
  }

  lemma LoopEndIsWanted(c: Copying.Config, off: int, parts: seq<Copying.PartState>)
    requires c.Valid() && Copying.RangeInv(c, Finished(c, 0, off, parts))
    ensures Copying.Handed(parts) == c.Wanted() && (c.Total() == 0 || 0 <= c.Start() <= |c.source|)
    ensures 0 < c.length && c.Start() + c.length <= |c.source| ==> |Copying.Handed(parts)| == c.length
  {
    if 0 < c.length && 0 <= c.Start() && c.Start() + c.length <= |c.source| { WantedLength(c); }
    var s := Finished(c, 0, off, parts);
    Copying.LoopEndKeepsRange(c, s, Copying.LoopDone);
    Copying.HandedIsWanted(c, Copying.Apply(c, s, Copying.LoopDone).value);
  }

  /** A part size that calculatePartSize accepts for the source never cuts more than 10000 parts. */
  lemma AcceptedSizeCutsFewParts(c: Copying.Config, preferred: int, parts: seq<Copying.PartState>)
    requires Copying.PartsBound(c, parts) && Copying.PartSize(|c.source|, preferred) == Some(c.chunkSize)
    ensures |parts| <= Copying.MAX_PART_COUNT
  {
    Copying.PartsFit(|c.source|, preferred, |parts|);
  }

  // ----- what a printed range copies

  ghost function CopyOf(source: seq<Byte>, range: Parsed, chunkSize: nat, parallelism: nat): Copying.Config
    requires range.Range?
  {
    Copying.Config(source, range.offset, range.length, chunkSize, parallelism)
  }

  /** The bytes of the source from one index up to another, as far as it has them. */
  function Clip(source: seq<Byte>, first: nat, end: nat): seq<Byte> {
    if first >= |source| || end <= first then [] else if end <= |source| then source[first..end]
    else source[first..]
  }

  lemma WantedOfClosedRange(c: Copying.Config, a: nat, b: nat)
    requires a <= b <= MAX_INT64 && c.offset == a && c.length == Wrap64(b - a + 1)
    ensures c.Total() == b - a + 1
    ensures a <= |c.source| ==> c.Wanted() == Clip(c.source, a, b + 1)
  {
  }

  /** The copy can be committed without a cancellation exactly when its range is acceptable; a run that
      is committed without one has this content, and so has every run in which nothing fails, once it
      can go no further. */
  ghost predicate Copies(c: Copying.Config, actions: seq<Copying.Action>, acceptable: bool, content: seq<Byte>) {
    && (Copying.CanCommit(c) <==> acceptable)
    && (Copying.Commits(c, actions) ==> acceptable && CommittedContent(c, actions) == Some(content))
    && (EndsUnharmed(c, actions) ==> CommittedContent(c, actions) == if acceptable then Some(content) else None)
  }

  ghost function CommittedContent(c: Copying.Config, actions: seq<Copying.Action>): Option<seq<Byte>> {
    var s := Copying.Execute(c, actions);
    if s.Some? then s.value.committed else None
  }

  /** A run in which nothing fails, until it can go no further. */
  ghost predicate EndsUnharmed(c: Copying.Config, actions: seq<Copying.Action>) {
    Copying.AllSmooth(actions) && Copying.Execute(c, actions).Some?
    && Copying.GoesNoFurther(c, Copying.Execute(c, actions).value)
  }

  lemma CopiesWanted(c: Copying.Config, actions: seq<Copying.Action>, acceptable: bool, content: seq<Byte>)
    requires c.Valid() && c.Total() > 0
    requires acceptable <==> 0 <= c.Start() <= |c.source|
    requires acceptable ==> content == c.Wanted()
    ensures Copies(c, actions, acceptable, content)
  {
    Copying.CommitsExactlyAcceptable(c);
    if Copying.Commits(c, actions) {
      Copying.CopyIsExact(c, actions);
    }
    if EndsUnharmed(c, actions) {
      Copying.UnharmedCopyCommits(c, actions);
    }
  }

  /** Copying with the range `a-b` commits exactly the bytes a to b that the source has, for every pair
      of 64-bit bounds and every interleaving; it can be committed exactly when a is not beyond the end. */
  lemma ClosedRangeIsCopied(source: seq<Byte>, a: nat, b: nat, chunkSize: nat, parallelism: nat,
                            actions: seq<Copying.Action>)
    requires a <= b <= MAX_INT64
    ensures ParseRange(Printed(Dec(a), Dec(b))).Range?
    ensures var c := CopyOf(source, ParseRange(Printed(Dec(a), Dec(b))), chunkSize, parallelism);
            c.Valid() ==> Copies(c, actions, a <= |source|, Clip(source, a, b + 1))
  {
    ClosedRange(a, b);
    var c := CopyOf(source, ParseRange(Printed(Dec(a), Dec(b))), chunkSize, parallelism);
    WantedOfClosedRange(c, a, b);
    if c.Valid() {
      CopiesWanted(c, actions, a <= |source|, Clip(source, a, b + 1));
    }
  }

  /** The suffix range `-n` commits the last n bytes, except that `-0` commits the whole source, where
      section 14.35.1 of RFC 2616 has no byte to deliver; it can be committed exactly when the suffix is
      no longer than the source, where that section asks for the whole source otherwise. */
  lemma SuffixRangeIsCopied(source: seq<Byte>, n: nat, chunkSize: nat, parallelism: nat, actions: seq<Copying.Action>)
    requires n <= MAX_INT64
    ensures ParseRange(Printed("", Dec(n))).Range?
    ensures var c := CopyOf(source, ParseRange(Printed("", Dec(n))), chunkSize, parallelism);
            c.Valid() ==> Copies(c, actions, n <= |source|, source[if 0 < n <= |source| then |source| - n else 0..])
  {
    SuffixRange(n);
    var c := CopyOf(source, ParseRange(Printed("", Dec(n))), chunkSize, parallelism);
    if c.Valid() {
      CopiesWanted(c, actions, n <= |source|, source[if 0 < n <= |source| then |source| - n else 0..]);
    }
  }

  /** The open range `a-` commits the bytes from a on; it can be committed exactly when a is not beyond
      the end. */
  lemma OpenRangeIsCopied(source: seq<Byte>, a: nat, chunkSize: nat, parallelism: nat, actions: seq<Copying.Action>)
    requires a <= MAX_INT64
    ensures ParseRange(Printed(Dec(a), "")).Range?
    ensures var c := CopyOf(source, ParseRange(Printed(Dec(a), "")), chunkSize, parallelism);
            c.Valid() ==> Copies(c, actions, a <= |source|, Clip(source, a, |source|))
  {
    OpenRange(a);
    var c := CopyOf(source, ParseRange(Printed(Dec(a), "")), chunkSize, parallelism);
    if c.Valid() {
      CopiesWanted(c, actions, a <= |source|, Clip(source, a, |source|));
    }
  }

  /** Without a range the whole source is copied, and that can always be committed. */
  lemma WholeIsCopied(source: seq<Byte>, x: string, chunkSize: nat, parallelism: nat, actions: seq<Copying.Action>)
    requires AllSpace(x)
    ensures ParseRange(x).Range?
    ensures var c := CopyOf(source, ParseRange(x), chunkSize, parallelism);
            c.Valid() ==> Copies(c, actions, true, source)
  {
    NoRangeIsEverything(x, "");
    var c := CopyOf(source, ParseRange(x), chunkSize, parallelism);
    if c.Valid() {
      CopiesWanted(c, actions, true, source);
    }
  }
}
