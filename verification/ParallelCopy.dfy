/** Copying a byte range in parts that finish in any order (cmd/uplink/cmd_cp.go), between
    handles that hand out consecutive parts (cmd/uplink/ulfs/handle_generic.go). */
module ParallelCopy {
  import opened Wrappers
  import opened Keys
  import opened Decimal

  // ----- part size

  const MIB64: int := 64 * 1024 * 1024
  const MAX_PART_COUNT: int := 10000

  /** Go's integer division truncates toward zero. */
  function TruncDiv(a: int, b: int): int
    requires b > 0
  {
    if a >= 0 then a / b else -((-a) / b)
  }

  /** The part size for a source of the given length; None when the preferred size is too small. */
  function PartSize(length: int, preferred: int): Option<int> {
    var required := (TruncDiv(TruncDiv(length, MAX_PART_COUNT), MIB64) + 1) * MIB64;
    if preferred == 0 then Some(required)
    else if required <= preferred then Some(preferred)
    else None
  }

  /** With no preference the size is the least multiple of 64 MiB whose 10000-fold exceeds the
      length; a preferred size is taken exactly when it is no smaller. */
  lemma PartSizeIsLeast(length: nat, preferred: int)
    ensures var least := PartSize(length, 0).value;
            && least % MIB64 == 0 && least > 0
            && MAX_PART_COUNT * (least - MIB64) <= length < MAX_PART_COUNT * least
            && PartSize(length, preferred) ==
              if preferred == 0 then Some(least) else if preferred >= least then Some(preferred) else None
  {
    var x := length / MAX_PART_COUNT;
    var q := x / MIB64;
    assert MAX_PART_COUNT * x <= length < MAX_PART_COUNT * x + MAX_PART_COUNT;
    assert MIB64 * q <= x < MIB64 * q + MIB64;
  }

  /** A source of unknown length, for which -1 is given, gets parts of 64 MiB. */
  lemma UnknownLengthGetsLeast(preferred: int)
    ensures PartSize(-1, preferred) ==
      if preferred == 0 then Some(67108864) else if preferred >= 67108864 then Some(preferred) else None
  {
    assert TruncDiv(-1, MAX_PART_COUNT) == 0;
  }

  lemma MulMonotone(a: nat, b: nat, c: nat)
    requires a <= b
    ensures a * c <= b * c
  {
    assert (b - a) * c >= 0;
  }

  /** Every accepted size cuts the source into at most 10000 parts. */
  lemma PartsFit(length: nat, preferred: int, parts: nat)
    requires PartSize(length, preferred).Some?
    requires parts > 0 ==> (parts - 1) * PartSize(length, preferred).value < length
    ensures parts <= MAX_PART_COUNT
  {
    PartSizeIsLeast(length, preferred);
    var size := PartSize(length, preferred).value;
    if parts > MAX_PART_COUNT {
      MulMonotone(MAX_PART_COUNT, parts - 1, size);
    }
  }

  // ----- the source hands out consecutive ranges

  datatype Read = Part(from: nat, length: nat) | Eof | InvalidOffset

  /** NextPart of the reading handle over a source of `size` bytes: the part and the offset after it;
      its sums are those of int64. */
  function NextPart(size: nat, off: int, length: int): (Read, int) {
    var o := if off < 0 then off + size else off;
    if o < 0 || o > size then (InvalidOffset, o)
    else if o == size then (Eof, o)
    else
      var l := if length < 0 then size else length;
      var clipped := if Sum64(o, l) > size then size - o else l;
      (Part(o, clipped), Sum64(o, clipped))
  }

  /** A part lies within the source exactly when its offset plus its length is an int64; otherwise the
      sum wraps around, the part is not clipped at the end of the source, and of a source of at most 2^62
      bytes no further part is handed out. */
  lemma PartIsClipped(size: nat, off: int, length: int)
    requires size <= MAX_INT64 && length <= MAX_INT64 && NextPart(size, off, length).0.Part?
    ensures var part := NextPart(size, off, length).0;
            part.from + part.length <= size <==> part.from + (if length < 0 then size else length) <= MAX_INT64
    ensures var (part, next) := NextPart(size, off, length);
            part.from + part.length > size && size <= TWO_64 / 4 ==>
              forall more :: NextPart(size, next, more).0.InvalidOffset?
  {
  }

  // ----- the copy as a state machine

  /** One copy: the source, the range as parseRange gives it, the part size and the parallelism. */
  datatype Config = Config(source: seq<Byte>, offset: int, length: int, chunkSize: nat, parallelism: nat) {
    ghost predicate Valid() {
      && |source| <= MAX_INT64 && MIN_INT64 <= length <= MAX_INT64
      && 1 <= chunkSize && |source| + chunkSize <= MAX_INT64 && parallelism >= 1
    }

    /** Where the range starts; a negative offset counts from the end. */
    function Start(): int {
      if offset < 0 then offset + |source| else offset
    }

    /** How many bytes the loop is willing to cut: a negative length wraps around as it is counted down. */
    function Total(): int {
      if length < 0 then length + TWO_64 else length
    }

    /** The bytes the copy is asked for, clipped at the end of the source. */
    function Wanted(): seq<Byte> {
      if Total() <= 0 || !(0 <= Start() <= |source|) then []
      else source[Start()..if Start() + Total() <= |source| then Start() + Total() else |source|]
    }
  }

  datatype Status = Running | Committed | Aborted

  /** A part in flight: what its reader will deliver and how much of it has been written. */
  datatype PartState = PartState(data: seq<Byte>, written: nat, status: Status)

  datatype Phase = Launching | Waiting | Done

  datatype State = State(
    phase: Phase,
    remaining: int,                   // the counter `length` of the loop
    off: int,                         // the offset of the reading handle
    parts: seq<PartState>,            // in NextPart order, which is the order the destination joins them in
    failed: bool,                     // an error has been recorded
    outerCancelled: bool,             // the context passed in has been cancelled
    committed: Option<seq<Byte>>)     // the content of the destination, once dst.Commit has succeeded

  datatype Action =
    | Launch | EndOfSource | ReaderFails | WriterFails | LimiterStops | LoopDone
    | Copy(i: nat, n: nat) | PartCommits(i: nat) | PartFails(i: nat)
    | OuterCancel | CommitSucceeds | CommitFails | GiveUp

  function Init(c: Config): State {
    State(Launching, c.length, c.offset, [], false, false, None)
  }

  /** The size of the next part. */
  function Chunk(c: Config, s: State): int {
    if s.remaining > 0 && c.chunkSize > s.remaining then s.remaining else c.chunkSize
  }

  function CountRunning(parts: seq<PartState>): nat {
    if parts == [] then 0
    else (if parts[|parts| - 1].status.Running? then 1 else 0) + CountRunning(parts[..|parts| - 1])
  }

  /** What the destination holds: the written bytes of the parts, joined in order. */
  function Joined(parts: seq<PartState>): seq<Byte> {
    if parts == [] then []
    else
      var last := parts[|parts| - 1];
      Joined(parts[..|parts| - 1]) + (if last.written <= |last.data| then last.data[..last.written] else [])
  }

  predicate NextFits(c: Config, s: State) {
    var read := NextPart(|c.source|, s.off, Chunk(c, s)).0;
    read.Part? && read.from + read.length <= |c.source|
  }

  /** The part that a launch starts. */
  function NextState(c: Config, s: State): PartState
    requires NextFits(c, s)
  {
    var read := NextPart(|c.source|, s.off, Chunk(c, s)).0;
    PartState(c.source[read.from..read.from + read.length], 0, Running)
  }

  /** One atomic step of the loop, of a part or of the environment; None when it is not enabled. */
  function Apply(c: Config, s: State, a: Action): Option<State> {
    match a
    case Launch =>
      if s.phase.Launching? && s.remaining != 0 && CountRunning(s.parts) < c.parallelism && NextFits(c, s) then
        Some(s.(remaining := Wrap64(s.remaining - Chunk(c, s)), off := NextPart(|c.source|, s.off, Chunk(c, s)).1,
                parts := s.parts + [NextState(c, s)]))
      else None
    case EndOfSource =>
      if s.phase.Launching? && s.remaining != 0 && NextPart(|c.source|, s.off, Chunk(c, s)).0.Eof? then
        Some(s.(phase := Waiting)) else None
    case ReaderFails =>
      // an invalid offset, or any error of the source; everything else is cancelled
      if s.phase.Launching? && s.remaining != 0 then Some(s.(phase := Waiting, failed := true)) else None
    case WriterFails =>
      if s.phase.Launching? && s.remaining != 0 then Some(s.(phase := Waiting, failed := true)) else None
    case LimiterStops =>
      // limiter.Go returns false only when the context is cancelled, and records no error
      if s.phase.Launching? && s.remaining != 0 && (s.failed || s.outerCancelled) then
        Some(s.(phase := Waiting)) else None
    case LoopDone =>
      if s.phase.Launching? && s.remaining == 0 then Some(s.(phase := Waiting)) else None
    case Copy(i, n) =>
      if i < |s.parts| && s.parts[i].status.Running? && n > 0 && s.parts[i].written + n <= |s.parts[i].data| then
        Some(s.(parts := s.parts[i := s.parts[i].(written := s.parts[i].written + n)])) else None
    case PartCommits(i) =>
      if i < |s.parts| && s.parts[i].status.Running? && s.parts[i].written == |s.parts[i].data| then
        Some(s.(parts := s.parts[i := s.parts[i].(status := Committed)])) else None
    case PartFails(i) =>
      if i < |s.parts| && s.parts[i].status.Running? then
        Some(s.(parts := s.parts[i := s.parts[i].(status := Aborted)], failed := true)) else None
    case OuterCancel => Some(s.(outerCancelled := true))
    case CommitSucceeds =>
      if s.phase.Waiting? && CountRunning(s.parts) == 0 && !s.failed then
        Some(s.(phase := Done, committed := Some(Joined(s.parts)))) else None
    case CommitFails =>
      if s.phase.Waiting? && CountRunning(s.parts) == 0 && !s.failed then
        Some(s.(phase := Done, failed := true)) else None
    case GiveUp =>
      if s.phase.Waiting? && CountRunning(s.parts) == 0 && s.failed then Some(s.(phase := Done)) else None
  }

  /** The state after a sequence of steps, None when one of them is not enabled. */
  function Execute(c: Config, actions: seq<Action>): Option<State> {
    if actions == [] then Some(Init(c))
    else
      var before := Execute(c, actions[..|actions| - 1]);
      if before.None? then None else Apply(c, before.value, actions[|actions| - 1])
  }

  // ----- the invariant

  /** What all readers together deliver. */
  function Handed(parts: seq<PartState>): seq<Byte> {
    if parts == [] then [] else Handed(parts[..|parts| - 1]) + parts[|parts| - 1].data
  }

  /** The bytes handed out so far are the range from its start on, without gap or overlap, and the
      counter knows how many are still to be cut unless the source is used up. */
  ghost predicate RangeInv(c: Config, s: State) {
    var n := |Handed(s.parts)|;
    && (s.parts == [] ==> s.off == c.offset)
    && (s.parts != [] ==> 0 <= c.Start() && c.Start() + n <= |c.source| && s.off == c.Start() + n
                          && Handed(s.parts) == c.source[c.Start()..c.Start() + n])
    && n <= c.Total()
    && (s.phase.Launching? ==> s.remaining == Wrap64(c.Total() - n) || c.Start() + n == |c.source|)
    && (!s.phase.Launching? && !s.failed && !s.outerCancelled ==>
         n == c.Total() || c.Start() + n == |c.source|)
  }

  ghost predicate PartsInv(s: State) {
    && (forall i :: 0 <= i < |s.parts| ==>
         && s.parts[i].written <= |s.parts[i].data|
         && (s.parts[i].status.Committed? ==> s.parts[i].written == |s.parts[i].data|)
         && (s.parts[i].status.Aborted? ==> s.failed))
    && (s.committed.Some? ==> s.phase.Done? && s.committed == Some(Joined(s.parts)))
    && (s.phase.Done? ==> CountRunning(s.parts) == 0 && (s.committed.Some? <==> !s.failed))
  }

  ghost predicate Inv(c: Config, s: State) {
    RangeInv(c, s) && PartsInv(s)
  }

  lemma {:induction false} HandedUpdate(parts: seq<PartState>, i: nat, p: PartState)
    requires i < |parts| && p.data == parts[i].data
    ensures Handed(parts[i := p]) == Handed(parts)
  {
    var n := |parts| - 1;
    if i < n {
      HandedUpdate(parts[..n], i, p);
      assert parts[i := p][..n] == parts[..n][i := p];
    } else {
      assert parts[i := p][..n] == parts[..n];
    }
  }

  lemma {:induction false} NoneRunning(parts: seq<PartState>, i: nat)
    requires i < |parts| && CountRunning(parts) == 0
    ensures !parts[i].status.Running?
  {
    if i < |parts| - 1 {
      NoneRunning(parts[..|parts| - 1], i);
    }
  }

  /** When every part is committed, the destination holds all that was handed out. */
  lemma {:induction false} AllCommitted(parts: seq<PartState>)
    requires forall i :: 0 <= i < |parts| ==> parts[i].status.Committed? && parts[i].written == |parts[i].data|
    ensures Joined(parts) == Handed(parts)
  {
    if parts == [] {
    } else {
      AllCommitted(parts[..|parts| - 1]);
    }
  }

  lemma WrapCounts(t: int, n: int, chunk: int)
    requires 0 <= chunk <= t - n && 0 <= n && t < TWO_64
    ensures Wrap64(Wrap64(t - n) - chunk) == Wrap64(t - n - chunk)
  {
  }

  /** When a part can be launched, the counter is exact and the part lies right behind the last one. */
  lemma LaunchFacts(c: Config, s: State)
    requires c.Valid() && RangeInv(c, s) && s.phase.Launching? && s.remaining != 0
    requires NextPart(|c.source|, s.off, Chunk(c, s)).0.Part?
    ensures var n := |Handed(s.parts)|;
            && 0 <= c.Start() && c.Start() + n < |c.source|
            && s.remaining == Wrap64(c.Total() - n)
            && 0 < Chunk(c, s) <= c.Total() - n
            && NextPart(|c.source|, s.off, Chunk(c, s)) ==
              var l := if c.Start() + n + Chunk(c, s) > |c.source| then |c.source| - c.Start() - n else Chunk(c, s);
              (Part(c.Start() + n, l), c.Start() + n + l)
  {
  }

  /** The part `p` lies right behind those of `s`, and `s'` is the state after its launch. */
  ghost predicate Behind(c: Config, s: State, s': State, p: PartState, chunk: int) {
    var n := |Handed(s.parts)|;
    && 0 <= c.Start() && c.Start() + n < |c.source|
    && c.Start() + n + |p.data| <= |c.source| && 0 <= chunk && n + chunk <= c.Total()
    && |p.data| == (if c.Start() + n + chunk > |c.source| then |c.source| - c.Start() - n else chunk)
    && p.data == c.source[c.Start() + n..c.Start() + n + |p.data|]
    && s'.parts == s.parts + [p] && s'.off == c.Start() + n + |p.data|
  }

  lemma LaunchIsBehind(c: Config, s: State)
    requires c.Valid() && RangeInv(c, s) && Apply(c, s, Launch).Some?
    ensures Behind(c, s, Apply(c, s, Launch).value, NextState(c, s), Chunk(c, s))
  {
    LaunchFacts(c, s);
  }

  lemma LaunchKeepsRange(c: Config, s: State)
    requires c.Valid() && RangeInv(c, s) && Apply(c, s, Launch).Some?
    ensures RangeInv(c, Apply(c, s, Launch).value)
  {
    LaunchIsBehind(c, s);
    LaunchCounts(c, s);
    HandedAppend(s.parts, NextState(c, s));
    LaunchedRange(c, s, Apply(c, s, Launch).value, NextState(c, s), Chunk(c, s));
  }

  lemma LaunchCounts(c: Config, s: State)
    requires c.Valid() && RangeInv(c, s) && Apply(c, s, Launch).Some?
    ensures Apply(c, s, Launch).value.remaining == Wrap64(c.Total() - |Handed(s.parts)| - Chunk(c, s))
  {
    LaunchFacts(c, s);
    WrapCounts(c.Total(), |Handed(s.parts)|, Chunk(c, s));
  }

  lemma HandedAppend(parts: seq<PartState>, p: PartState)
    ensures Handed(parts + [p]) == Handed(parts) + p.data
  {
    assert (parts + [p])[..|parts|] == parts;
  }

  lemma LaunchedRange(c: Config, s: State, s': State, p: PartState, chunk: int)
    requires c.Valid() && RangeInv(c, s) && s.phase.Launching? && s'.phase.Launching?
    requires Behind(c, s, s', p, chunk) && Handed(s'.parts) == Handed(s.parts) + p.data
    requires s'.remaining == Wrap64(c.Total() - |Handed(s.parts)| - chunk)
    ensures RangeInv(c, s')
  {
    var n := |Handed(s.parts)|;
    assert Handed(s'.parts) == c.source[c.Start()..c.Start() + n + |p.data|];
  }

  lemma LoopEndKeepsRange(c: Config, s: State, a: Action)
    requires c.Valid() && RangeInv(c, s) && Apply(c, s, a).Some? && (a.EndOfSource? || a.LoopDone?)
    ensures RangeInv(c, Apply(c, s, a).value)
  {
    var n := |Handed(s.parts)|;
    if a.LoopDone? && c.Start() + n != |c.source| {
      assert Wrap64(c.Total() - n) == 0;
      assert c.Total() == n;
    }
  }

  /** What a part does leaves what has been handed out alone. */
  lemma PartStepKeepsRange(c: Config, s: State, i: nat, p: PartState, failed: bool)
    requires RangeInv(c, s) && i < |s.parts| && p.data == s.parts[i].data && (s.failed ==> failed)
    ensures RangeInv(c, s.(parts := s.parts[i := p], failed := failed))
  {
    HandedUpdate(s.parts, i, p);
  }

  lemma StepKeepsRange(c: Config, s: State, a: Action)
    requires c.Valid() && RangeInv(c, s) && Apply(c, s, a).Some?
    ensures RangeInv(c, Apply(c, s, a).value)
  {
    match a
    case Launch => LaunchKeepsRange(c, s);
    case EndOfSource => LoopEndKeepsRange(c, s, a);
    case LoopDone => LoopEndKeepsRange(c, s, a);
    case Copy(i, n) => PartStepKeepsRange(c, s, i, s.parts[i].(written := s.parts[i].written + n), s.failed);
    case PartCommits(i) => PartStepKeepsRange(c, s, i, s.parts[i].(status := Committed), s.failed);
    case PartFails(i) => PartStepKeepsRange(c, s, i, s.parts[i].(status := Aborted), true);
    case _ => EndStepKeepsRange(c, s, a);
  }

  lemma EndStepKeepsRange(c: Config, s: State, a: Action)
    requires RangeInv(c, s) && Apply(c, s, a).Some?
    requires !a.Launch? && !a.EndOfSource? && !a.LoopDone? && !a.Copy? && !a.PartCommits? && !a.PartFails?
    ensures RangeInv(c, Apply(c, s, a).value)
  {
    var s' := Apply(c, s, a).value;
    assert s'.parts == s.parts && s'.off == s.off;
    assert s'.phase.Launching? ==> s.phase.Launching? && s'.remaining == s.remaining;
  }

  lemma StepKeepsParts(c: Config, s: State, a: Action)
    requires PartsInv(s) && Apply(c, s, a).Some?
    ensures PartsInv(Apply(c, s, a).value)
  {
    if s.phase.Done? && (a.Copy? || a.PartCommits? || a.PartFails?) {
      NoneRunning(s.parts, a.i);
    }
  }

  lemma {:induction false} Reachable(c: Config, actions: seq<Action>)
    requires c.Valid() && Execute(c, actions).Some?
    ensures Inv(c, Execute(c, actions).value)
  {
    if actions == [] {
    } else {
      var earlier := actions[..|actions| - 1];
      Reachable(c, earlier);
      StepKeepsRange(c, Execute(c, earlier).value, actions[|actions| - 1]);
      StepKeepsParts(c, Execute(c, earlier).value, actions[|actions| - 1]);
    }
  }

  /** A copy that is done has no part in flight, and reports an error exactly when nothing has been committed. */
  lemma ReportsWhatItDid(c: Config, actions: seq<Action>)
    requires c.Valid() && Execute(c, actions).Some? && Execute(c, actions).value.phase.Done?
    ensures var s := Execute(c, actions).value;
            && (forall i :: 0 <= i < |s.parts| ==> !s.parts[i].status.Running?)
            && (s.failed <==> s.committed.None?)
  {
    Reachable(c, actions);
    var s := Execute(c, actions).value;
    forall i | 0 <= i < |s.parts|
      ensures !s.parts[i].status.Running?
    {
      NoneRunning(s.parts, i);
    }
  }

  lemma FinalContent(c: Config, s: State)
    requires c.Valid() && Inv(c, s) && s.committed.Some?
    ensures !s.failed && forall i :: 0 <= i < |s.parts| ==> s.parts[i].status.Committed?
    ensures !s.outerCancelled ==> s.committed == Some(c.Wanted()) && (c.Total() > 0 ==> 0 <= c.Start() <= |c.source|)
  {
    forall i | 0 <= i < |s.parts|
      ensures s.parts[i].status.Committed?
    {
      NoneRunning(s.parts, i);
    }
    AllCommitted(s.parts);
    if !s.outerCancelled {
      HandedIsWanted(c, s);
    }
  }

  lemma HandedIsWanted(c: Config, s: State)
    requires c.Valid() && RangeInv(c, s) && !s.phase.Launching? && !s.failed && !s.outerCancelled
    ensures Handed(s.parts) == c.Wanted() && (c.Total() > 0 ==> 0 <= c.Start() <= |c.source|)
  {
    var n := |Handed(s.parts)|;
    if c.Total() > 0 && c.Start() + n == |c.source| {
      assert c.source[c.Start()..c.Start() + n] == c.source[c.Start()..];
    }
  }

  /** Parallel copy is exact. Whatever order the parts are cut, written, committed and failed in:
      when the destination has been committed, no part failed, and unless the context passed in was
      cancelled, its content is the requested range, clipped at the end of the source. */
  lemma CopyIsExact(c: Config, actions: seq<Action>)
    requires c.Valid() && Execute(c, actions).Some? && Execute(c, actions).value.committed.Some?
    ensures var s := Execute(c, actions).value;
            && !s.failed
            && (forall i :: 0 <= i < |s.parts| ==> s.parts[i].status.Committed?)
            && (!s.outerCancelled ==>
                 s.committed == Some(c.Wanted()) && (c.Total() > 0 ==> 0 <= c.Start() <= |c.source|))
  {
    Reachable(c, actions);
    FinalContent(c, Execute(c, actions).value);
  }

  /** Even a cancelled copy that is committed holds a prefix of what it was asked for. */
  lemma CommittedIsPrefix(c: Config, actions: seq<Action>)
    requires c.Valid() && Execute(c, actions).Some? && Execute(c, actions).value.committed.Some?
    ensures Execute(c, actions).value.committed.value <= c.Wanted()
  {
    Reachable(c, actions);
    var s := Execute(c, actions).value;
    FinalContent(c, s);
    AllCommitted(s.parts);
    HandedIsPrefix(c, s);
  }

  lemma PrefixOfSlice(source: seq<Byte>, first: nat, mid: nat, end: nat)
    requires first <= mid <= end <= |source|
    ensures source[first..mid] <= source[first..end]
  {
    assert source[first..end][..mid - first] == source[first..mid];
  }

  lemma HandedIsPrefix(c: Config, s: State)
    requires c.Valid() && RangeInv(c, s)
    ensures Handed(s.parts) <= c.Wanted()
  {
    var n := |Handed(s.parts)|;
    if s.parts != [] && c.Total() > 0 {
      PrefixOfSlice(c.source, c.Start(), c.Start() + n,
        if c.Start() + c.Total() <= |c.source| then c.Start() + c.Total() else |c.source|);
    }
  }

  /** Some run commits something else than what the copy is asked for. */
  ghost predicate MayCommitShort(c: Config) {
    exists actions :: CommitsShort(c, actions)
  }

  ghost predicate CommitsShort(c: Config, actions: seq<Action>) {
    var s := Execute(c, actions);
    s.Some? && s.value.committed.Some? && s.value.committed != Some(c.Wanted())
  }

  /** The proviso is needed for every copy of at least one byte, and only for these: cancelling the
      outer context lets the limiter stop the loop without an error, and a destination that does not
      look at the context is then committed short. */
  lemma CancelledCopyMayBeShort(c: Config)
    requires c.Valid()
    ensures MayCommitShort(c) <==> c.Wanted() != []
  {
    if c.Wanted() != [] {
      CancelledAtOnce(c);
      assert CommitsShort(c, [OuterCancel, LimiterStops, CommitSucceeds]);
    } else {
      forall actions | CommitsShort(c, actions)
        ensures false
      {
        CommittedIsPrefix(c, actions);
      }
    }
  }

  lemma CancelledAtOnce(c: Config)
    requires c.Valid() && c.length != 0
    ensures var s := Execute(c, [OuterCancel, LimiterStops, CommitSucceeds]); s.Some? && s.value.committed == Some([])
  {
    var s1 := Apply(c, Init(c), OuterCancel).value;
    var s2 := Apply(c, s1, LimiterStops).value;
    ExecuteSteps(c, [], OuterCancel);
    ExecuteSteps(c, [OuterCancel], LimiterStops);
    ExecuteSteps(c, [OuterCancel, LimiterStops], CommitSucceeds);
    assert [] + [OuterCancel] == [OuterCancel];
    assert [OuterCancel] + [LimiterStops] == [OuterCancel, LimiterStops];
    assert [OuterCancel, LimiterStops] + [CommitSucceeds] == [OuterCancel, LimiterStops, CommitSucceeds];
    assert Execute(c, [OuterCancel, LimiterStops]) == Some(s2);
  }

  lemma ExecuteSteps(c: Config, earlier: seq<Action>, a: Action)
    ensures Execute(c, earlier + [a]) ==
      if Execute(c, earlier).None? then None else Apply(c, Execute(c, earlier).value, a)
  {
    assert (earlier + [a])[..|earlier|] == earlier;
  }

  // ----- the number of parts

  /** All parts but the last have the full part size. */
  ghost predicate PartsBound(c: Config, parts: seq<PartState>) {
    var n := |Handed(parts)|;
    && n <= |c.source|
    && (parts != [] ==> (|parts| - 1) * c.chunkSize < n)
    && (n == |parts| * c.chunkSize || n == c.Total() || c.Start() + n == |c.source|)
  }

  lemma BoundArithmetic(count: nat, size: nat)
    ensures (count + 1) * size == count * size + size
  {
  }

  lemma LaunchKeepsBound(c: Config, s: State)
    requires c.Valid() && RangeInv(c, s) && PartsBound(c, s.parts) && Apply(c, s, Launch).Some?
    ensures PartsBound(c, Apply(c, s, Launch).value.parts)
  {
    LaunchFacts(c, s);
    HandedAppend(s.parts, NextState(c, s));
    BoundArithmetic(|s.parts|, c.chunkSize);
  }

  lemma UpdateKeepsBound(c: Config, parts: seq<PartState>, i: nat, p: PartState)
    requires PartsBound(c, parts) && i < |parts| && p.data == parts[i].data
    ensures PartsBound(c, parts[i := p])
  {
    HandedUpdate(parts, i, p);
  }

  lemma StepKeepsBound(c: Config, s: State, a: Action)
    requires c.Valid() && RangeInv(c, s) && PartsBound(c, s.parts) && Apply(c, s, a).Some?
    ensures PartsBound(c, Apply(c, s, a).value.parts)
  {
    match a
    case Launch => LaunchKeepsBound(c, s);
    case Copy(i, n) => UpdateKeepsBound(c, s.parts, i, s.parts[i].(written := s.parts[i].written + n));
    case PartCommits(i) => UpdateKeepsBound(c, s.parts, i, s.parts[i].(status := Committed));
    case PartFails(i) => UpdateKeepsBound(c, s.parts, i, s.parts[i].(status := Aborted));
    case _ =>
  }

  lemma {:induction false} BoundReached(c: Config, actions: seq<Action>)
    requires c.Valid() && Execute(c, actions).Some?
    ensures PartsBound(c, Execute(c, actions).value.parts)
  {
    if actions == [] {
    } else {
      var earlier := actions[..|actions| - 1];
      BoundReached(c, earlier);
      Reachable(c, earlier);
      StepKeepsBound(c, Execute(c, earlier).value, actions[|actions| - 1]);
    }
  }

  /** With a part size that calculatePartSize accepts for the source, no run ever has more than 10000
      parts. */
  lemma FewParts(c: Config, preferred: int, actions: seq<Action>)
    requires c.Valid() && PartSize(|c.source|, preferred) == Some(c.chunkSize) && Execute(c, actions).Some?
    ensures |Execute(c, actions).value.parts| <= 10000
  {
    BoundReached(c, actions);
    PartsFit(|c.source|, preferred, |Execute(c, actions).value.parts|);
  }

  // ----- the parts that are cut, and how many at a time

  /** Every part has a byte and at most the part size, and all are full until the range or the source is used up. */
  ghost predicate ChunksInv(c: Config, parts: seq<PartState>) {
    && (forall i :: 0 <= i < |parts| ==> 0 < |parts[i].data| <= c.chunkSize)
    && (forall i :: 0 <= i < |parts| - 1 ==> |parts[i].data| == c.chunkSize)
    && (parts != [] && |parts[|parts| - 1].data| < c.chunkSize ==>
         |Handed(parts)| == c.Total() || c.Start() + |Handed(parts)| == |c.source|)
  }

  lemma LaunchKeepsChunks(c: Config, s: State)
    requires c.Valid() && RangeInv(c, s) && ChunksInv(c, s.parts) && Apply(c, s, Launch).Some?
    ensures ChunksInv(c, Apply(c, s, Launch).value.parts)
  {
    LaunchFacts(c, s);
    AppendKeepsChunks(c, s.parts, NextState(c, s));
  }

  lemma AppendKeepsChunks(c: Config, parts: seq<PartState>, p: PartState)
    requires ChunksInv(c, parts) && 0 < |p.data| <= c.chunkSize
    requires var n := |Handed(parts)|;
             && n != c.Total() && c.Start() + n != |c.source|
             && (|p.data| == c.chunkSize || n + |p.data| == c.Total() || c.Start() + n + |p.data| == |c.source|)
    ensures ChunksInv(c, parts + [p])
  {
    HandedAppend(parts, p);
  }

  lemma UpdateKeepsChunks(c: Config, parts: seq<PartState>, i: nat, p: PartState)
    requires ChunksInv(c, parts) && i < |parts| && p.data == parts[i].data
    ensures ChunksInv(c, parts[i := p])
  {
    HandedUpdate(parts, i, p);
  }

  lemma StepKeepsChunks(c: Config, s: State, a: Action)
    requires c.Valid() && RangeInv(c, s) && ChunksInv(c, s.parts) && Apply(c, s, a).Some?
    ensures ChunksInv(c, Apply(c, s, a).value.parts)
  {
    if a.Launch? {
      LaunchKeepsChunks(c, s);
    } else {
      OtherStepKeepsChunks(c, s, a);
    }
  }

  lemma OtherStepKeepsChunks(c: Config, s: State, a: Action)
    requires ChunksInv(c, s.parts) && Apply(c, s, a).Some? && !a.Launch?
    ensures ChunksInv(c, Apply(c, s, a).value.parts)
  {
    match a
    case Copy(i, n) => UpdateKeepsChunks(c, s.parts, i, s.parts[i].(written := s.parts[i].written + n));
    case PartCommits(i) => UpdateKeepsChunks(c, s.parts, i, s.parts[i].(status := Committed));
    case PartFails(i) => UpdateKeepsChunks(c, s.parts, i, s.parts[i].(status := Aborted));
    case _ =>
  }

  lemma {:induction false} RunningUpdate(parts: seq<PartState>, i: nat, p: PartState)
    requires i < |parts| && parts[i].status.Running?
    ensures CountRunning(parts[i := p]) == CountRunning(parts) - (if p.status.Running? then 0 else 1)
  {
    var n := |parts| - 1;
    if i < n {
      RunningUpdate(parts[..n], i, p);
      assert parts[i := p][..n] == parts[..n][i := p];
    } else {
      assert parts[i := p][..n] == parts[..n];
    }
  }

  lemma StepKeepsLimit(c: Config, s: State, a: Action)
    requires Apply(c, s, a).Some? && CountRunning(s.parts) <= c.parallelism
    ensures CountRunning(Apply(c, s, a).value.parts) <= c.parallelism
  {
    match a
    case Launch => assert (s.parts + [NextState(c, s)])[..|s.parts|] == s.parts;
    case Copy(i, n) => RunningUpdate(s.parts, i, s.parts[i].(written := s.parts[i].written + n));
    case PartCommits(i) => RunningUpdate(s.parts, i, s.parts[i].(status := Committed));
    case PartFails(i) => RunningUpdate(s.parts, i, s.parts[i].(status := Aborted));
    case _ =>
  }

  /** In every run at most as many parts are in flight as the limiter admits, and every part but the last has
      the full part size. */
  lemma {:induction false} LimitsAreKept(c: Config, actions: seq<Action>)
    requires c.Valid() && Execute(c, actions).Some?
    ensures var parts := Execute(c, actions).value.parts; CountRunning(parts) <= c.parallelism && ChunksInv(c, parts)
  {
    if actions == [] {
    } else {
      var earlier := actions[..|actions| - 1];
      Reachable(c, earlier);
      LimitsAreKept(c, earlier);
      StepKeepsLimit(c, Execute(c, earlier).value, actions[|actions| - 1]);
      StepKeepsChunks(c, Execute(c, earlier).value, actions[|actions| - 1]);
    }
  }

  // ----- progress

  /** Work left: bytes not handed out, bytes not written, parts not finished, phases to come. */
  function PartsWork(parts: seq<PartState>): int {
    if parts == [] then 0
    else
      var last := parts[|parts| - 1];
      PartsWork(parts[..|parts| - 1]) + PartWork(last)
  }

  function Work(c: Config, s: State): int {
    3 * (|c.source| - |Handed(s.parts)|) + PartsWork(s.parts)
    + (match s.phase case Launching => 2 case Waiting => 1 case Done => 0)
  }

  function PartWork(p: PartState): int {
    |p.data| - p.written + (if p.status.Running? then 1 else 0)
  }

  lemma {:induction false} PartsWorkUpdate(parts: seq<PartState>, i: nat, p: PartState)
    requires i < |parts|
    ensures PartsWork(parts[i := p]) == PartsWork(parts) + PartWork(p) - PartWork(parts[i])
  {
    var n := |parts| - 1;
    if i < n {
      PartsWorkUpdate(parts[..n], i, p);
      assert parts[i := p][..n] == parts[..n][i := p];
    } else {
      assert parts[i := p][..n] == parts[..n];
    }
  }

  lemma WorkUpdate(c: Config, s: State, i: nat, p: PartState)
    requires i < |s.parts| && p.data == s.parts[i].data
    ensures Work(c, s.(parts := s.parts[i := p])) == Work(c, s) + PartWork(p) - PartWork(s.parts[i])
  {
    HandedUpdate(s.parts, i, p);
    PartsWorkUpdate(s.parts, i, p);
  }

  lemma {:induction false} PartsWorkNatural(parts: seq<PartState>)
    requires forall i :: 0 <= i < |parts| ==> parts[i].written <= |parts[i].data|
    ensures PartsWork(parts) >= 0 && CountRunning(parts) <= PartsWork(parts)
  {
    if parts == [] {
    } else {
      PartsWorkNatural(parts[..|parts| - 1]);
    }
  }

  /** Every step except a cancellation from outside uses up work, so a copy cannot go on forever. */
  lemma StepUsesWork(c: Config, s: State, a: Action)
    requires c.Valid() && Inv(c, s) && Apply(c, s, a).Some? && !a.OuterCancel?
    ensures 0 <= Work(c, Apply(c, s, a).value) < Work(c, s)
  {
    var s' := Apply(c, s, a).value;
    StepKeepsRange(c, s, a);
    StepKeepsParts(c, s, a);
    PartsWorkNatural(s.parts);
    PartsWorkNatural(s'.parts);
    WorkDecreases(c, s, a);
  }

  lemma LaunchUsesWork(c: Config, s: State)
    requires c.Valid() && Inv(c, s) && Apply(c, s, Launch).Some?
    ensures Work(c, Apply(c, s, Launch).value) < Work(c, s)
  {
    var s' := Apply(c, s, Launch).value;
    assert s'.parts[..|s'.parts| - 1] == s.parts;
  }

  lemma WorkDecreases(c: Config, s: State, a: Action)
    requires c.Valid() && Inv(c, s) && Apply(c, s, a).Some? && !a.OuterCancel?
    ensures Work(c, Apply(c, s, a).value) < Work(c, s)
  {
    match a
    case Launch => LaunchUsesWork(c, s);
    case Copy(i, n) => WorkUpdate(c, s, i, s.parts[i].(written := s.parts[i].written + n));
    case PartCommits(i) => WorkUpdate(c, s, i, s.parts[i].(status := Committed));
    case PartFails(i) => WorkUpdate(c, s, i, s.parts[i].(status := Aborted));
    case _ =>
  }

  lemma {:induction false} SomeRunning(parts: seq<PartState>) returns (i: nat)
    requires CountRunning(parts) > 0
    ensures i < |parts| && parts[i].status.Running?
  {
    if parts[|parts| - 1].status.Running? {
      i := |parts| - 1;
    } else {
      i := SomeRunning(parts[..|parts| - 1]);
    }
  }

  /** Anything that may go wrong can go wrong at any time, and a cancellation may stop the loop. */
  lemma AnythingMayFail(c: Config, s: State)
    ensures s.phase.Launching? && s.remaining != 0 ==> Apply(c, s, ReaderFails).Some? && Apply(c, s, WriterFails).Some?
    ensures s.phase.Launching? && s.remaining != 0 ==>
      (Apply(c, s, LimiterStops).Some? <==> s.failed || s.outerCancelled)
    ensures forall i :: 0 <= i < |s.parts| && s.parts[i].status == Running ==> Apply(c, s, PartFails(i)).Some?
    ensures s.phase.Waiting? && CountRunning(s.parts) == 0 ==>
      if s.failed then Apply(c, s, GiveUp).Some?
      else Apply(c, s, CommitSucceeds).Some? && Apply(c, s, CommitFails).Some?
    ensures Apply(c, s, OuterCancel).Some?
  {
  }

  /** No reachable state before the end is stuck. */
  lemma NotStuck(c: Config, s: State) returns (a: Action)
    requires c.Valid() && Inv(c, s) && !s.phase.Done?
    ensures Apply(c, s, a).Some? && !a.OuterCancel?
  {
    if CountRunning(s.parts) > 0 {
      var i := SomeRunning(s.parts);
      a := if s.parts[i].written == |s.parts[i].data| then PartCommits(i) else Copy(i, 1);
    } else if s.phase.Waiting? {
      a := if s.failed then GiveUp else CommitSucceeds;
    } else if s.remaining == 0 {
      a := LoopDone;
    } else {
      var read := NextPart(|c.source|, s.off, Chunk(c, s)).0;
      a := if read.Part? then Launch else if read.Eof? then EndOfSource else ReaderFails;
    }
  }

  // ----- when a copy commits

  /** The range starts within the source, or no byte is asked for. */
  predicate Acceptable(c: Config) {
    c.Total() == 0 || 0 <= c.Start() <= |c.source|
  }

  /** The steps of a copy in which nothing fails and nothing is cancelled. */
  predicate Smooth(a: Action) {
    a.Launch? || a.EndOfSource? || a.LoopDone? || a.Copy? || a.PartCommits? || a.CommitSucceeds?
  }

  predicate AllSmooth(actions: seq<Action>) {
    forall k :: 0 <= k < |actions| ==> Smooth(actions[k])
  }

  /** No step without a failure is possible any more. */
  ghost predicate GoesNoFurther(c: Config, s: State) {
    forall a :: Smooth(a) ==> Apply(c, s, a).None?
  }

  /** Nothing has failed, and only a commit has ended the copy. */
  predicate Unharmed(s: State) {
    !s.failed && !s.outerCancelled && (s.phase.Done? ==> s.committed.Some?)
  }

  lemma {:induction false} SmoothIsUnharmed(c: Config, actions: seq<Action>)
    requires Execute(c, actions).Some? && AllSmooth(actions)
    ensures Unharmed(Execute(c, actions).value)
  {
    if actions == [] {
    } else {
      SmoothIsUnharmed(c, actions[..|actions| - 1]);
      assert Smooth(actions[|actions| - 1]);
    }
  }

  /** While the copy is not done, it can go on without a failure if its range is acceptable. */
  lemma GoesOn(c: Config, s: State) returns (a: Action)
    requires c.Valid() && Inv(c, s) && Unharmed(s) && !s.phase.Done? && Acceptable(c)
    ensures Smooth(a) && Apply(c, s, a).Some?
  {
    if CountRunning(s.parts) > 0 {
      var i := SomeRunning(s.parts);
      a := if s.parts[i].written == |s.parts[i].data| then PartCommits(i) else Copy(i, 1);
    } else if s.phase.Waiting? {
      a := CommitSucceeds;
    } else if s.remaining == 0 {
      a := LoopDone;
    } else {
      var read := NextPart(|c.source|, s.off, Chunk(c, s)).0;
      if read.Part? {
        LaunchFacts(c, s);
        a := Launch;
      } else {
        a := EndOfSource;
      }
    }
  }

  /** Every run without a failure can be carried on to a commit if its range is acceptable. */
  lemma {:induction false} RunsToCommit(c: Config, actions: seq<Action>) returns (all: seq<Action>)
    requires c.Valid() && Execute(c, actions).Some? && AllSmooth(actions) && Acceptable(c)
    ensures actions <= all && AllSmooth(all) && Execute(c, all).Some? && Execute(c, all).value.committed.Some?
    decreases Work(c, Execute(c, actions).value)
  {
    var s := Execute(c, actions).value;
    Reachable(c, actions);
    SmoothIsUnharmed(c, actions);
    if s.phase.Done? {
      all := actions;
    } else {
      var a := GoesOn(c, s);
      StepUsesWork(c, s, a);
      ExecuteSteps(c, actions, a);
      all := RunsToCommit(c, actions + [a]);
    }
  }

  /** The run ends in a commit without a cancellation from outside. */
  ghost predicate Commits(c: Config, actions: seq<Action>) {
    Execute(c, actions).Some? && Execute(c, actions).value.committed.Some? && !Execute(c, actions).value.outerCancelled
  }

  ghost predicate CanCommit(c: Config) {
    exists actions :: Commits(c, actions)
  }

  /** A copy can be committed without a cancellation exactly when its range is acceptable. */
  lemma CommitsExactlyAcceptable(c: Config)
    requires c.Valid()
    ensures CanCommit(c) <==> Acceptable(c)
  {
    if Acceptable(c) {
      var all := RunsToCommit(c, []);
      SmoothIsUnharmed(c, all);
      assert Commits(c, all);
    } else {
      forall actions | Commits(c, actions)
        ensures false
      {
        CopyIsExact(c, actions);
      }
    }
  }

  /** A copy in which nothing fails commits what it is asked for: whenever no step without a failure is
      left, the destination holds the requested range if that is acceptable, and nothing is committed
      otherwise. */
  lemma UnharmedCopyCommits(c: Config, actions: seq<Action>)
    requires c.Valid() && Execute(c, actions).Some? && AllSmooth(actions)
    requires GoesNoFurther(c, Execute(c, actions).value)
    ensures Execute(c, actions).value.committed == if Acceptable(c) then Some(c.Wanted()) else None
  {
    var s := Execute(c, actions).value;
    Reachable(c, actions);
    SmoothIsUnharmed(c, actions);
    if s.committed.Some? {
      CopyIsExact(c, actions);
    } else if Acceptable(c) {
      var a := GoesOn(c, s);
      assert false;
    }
  }
}
