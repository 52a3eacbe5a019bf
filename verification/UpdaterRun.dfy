/** The updater's file operations, any of which may fail, and the check-then-swap sequence over them
    (cmd/storagenode-updater/update.go, restart.go, restart_linux.go). */
module UpdaterRun {
  import opened Wrappers
  import opened BinaryPaths
  import opened Updater

  /** What becomes of a download: nothing at the target, a leftover there after an error, or a file. */
  datatype Download = Missed | Leftover(rest: Binary) | Fetched(binary: Binary)

  /** Which operations of an attempt fail, and what the version service and the download deliver. */
  datatype World = World(
    decision: Option<string>, decisionFails: bool, cannotRun: bool, cannotRunNew: bool, download: Download,
    removeFails: bool, backupFails: bool, swapFails: bool, rollbackFails: bool, stopFails: bool)

  datatype Result = UpToDate | Updated | Exited | Failed

  function Moved(f: Files, from: string, to: string): Files
    requires from in f
  {
    (f - {from})[to := f[from]]
  }

  class FileSystem {
    var files: Files
    ghost var trail: seq<Files>  // the files after every operation

    constructor (files: Files)
      ensures this.files == files && trail == []
    {
      this.files, trail := files, [];
    }

    method Rename(from: string, to: string, fails: bool) returns (ok: bool)
      modifies this
      ensures ok <==> !fails && from in old(files)
      ensures files == if ok then Moved(old(files), from, to) else old(files)
      ensures trail == old(trail) + [files]
    {
      ok := !fails && from in files;
      if ok {
        files := Moved(files, from, to);
      }
      trail := trail + [files];
    }

    method Remove(path: string, fails: bool) returns (ok: bool)
      modifies this
      ensures ok <==> !fails && path in old(files)
      ensures files == if ok then old(files) - {path} else old(files)
      ensures trail == old(trail) + [files]
    {
      ok := !fails && path in files;
      if ok {
        files := files - {path};
      }
      trail := trail + [files];
    }

    /** The target is created exclusively, so an existing file makes the download fail. */
    method DownloadBinary(target: string, d: Download) returns (ok: bool)
      modifies this
      ensures ok <==> d.Fetched? && target !in old(files)
      ensures target in old(files) || d.Missed? ==> files == old(files)
      ensures target !in old(files) && d.Leftover? ==> files == old(files)[target := d.rest]
      ensures ok ==> files == old(files)[target := d.binary]
      ensures trail == old(trail) + [files]
    {
      ok := false;
      if target !in files {
        match d
        case Missed =>
        case Leftover(b) => files := files[target := b];
        case Fetched(b) => files := files[target := b]; ok := true;
      }
      trail := trail + [files];
    }

    method BinaryVersion(path: string, cannotRun: bool) returns (v: Option<SemVer>)
      ensures v == if path in files && !cannotRun then files[path].version else None
    {
      v := if path in files && !cannotRun then files[path].version else None;
    }

    /** The plain swap: the old binary becomes the backup, the new one takes its place; when the
        second rename fails the first is undone. */
    method Swap(location: string, newPath: string, backupPath: string, w: World, ghost a: Attempt) returns (ok: bool)
      requires Ready(a, files) && a.location == location && a.newPath == newPath && a.backup == backupPath
      modifies this
      ensures SafeSince(a, old(trail), trail, files)
      ensures ok <==> !w.backupFails && !w.swapFails
      ensures ok ==> files == Moved(Moved(old(files), location, backupPath), newPath, location)
      ensures !ok ==> (location in files <==> w.backupFails || !w.rollbackFails)
      ensures !ok && location in files ==> files[location] == a.before[location]
      ensures !ok ==> (newPath in files <==> w.backupFails || w.removeFails)
    {
      SwapIsSafe(a, files);
      ok := Rename(location, backupPath, w.backupFails);
      SafeStep(a, old(trail), files);
      if !ok {
        return;
      }
      ghost var moved, trail1 := files, trail;
      ok := Rename(newPath, location, w.swapFails);
      SafeStep(a, trail1, files);
      SafeSinceThen(a, old(trail), trail1, moved, trail, files);
      if !ok {
        Restore(location, newPath, backupPath, w, a);
        SafeSinceThen(a, old(trail), trail1 + [moved], moved, trail, files);
      }
    }

    /** Puts the backup back and removes the new binary, each if it can. */
    method Restore(location: string, newPath: string, backupPath: string, w: World, ghost a: Attempt)
      requires a.location == location && a.newPath == newPath && a.backup == backupPath
      requires location != newPath && location != backupPath && newPath != backupPath
      requires Safe(a, files) && backupPath in files && files[backupPath] == a.before[location] && location !in files
      requires newPath in files
      modifies this
      ensures SafeSince(a, old(trail), trail, files)
      ensures location in files <==> !w.rollbackFails
      ensures location in files ==> files[location] == a.before[location]
      ensures newPath in files <==> w.removeFails
    {
      UndoIsSafe(a, files);
      var restored := Rename(backupPath, location, w.rollbackFails);
      SafeStep(a, old(trail), files);
      ghost var moved, trail1 := files, trail;
      var removed := Remove(newPath, w.removeFails);
      SafeStep(a, trail1, files);
      SafeSinceThen(a, old(trail), trail1, moved, trail, files);
    }

    /** The swap of a service build: the updater itself exits, another service is stopped, and when
        that fails the old binary goes back over the new one. */
    method RestartService(updater: bool, location: string, newPath: string, backupPath: string, w: World,
                          ghost a: Attempt) returns (r: Result)
      requires Ready(a, files) && a.location == location && a.newPath == newPath && a.backup == backupPath
      modifies this
      ensures SafeSince(a, old(trail), trail, files)
      ensures r == if w.backupFails || w.swapFails || (!updater && w.stopFails) then Failed
                   else if updater then Exited else Updated
      ensures r != Failed ==> files == Moved(Moved(old(files), location, backupPath), newPath, location)
      ensures r == Failed && !w.rollbackFails ==> location in files && files[location] == a.before[location]
      ensures r == Failed ==> (newPath in files <==> w.backupFails || (w.swapFails && w.removeFails))
    {
      var ok := Swap(location, newPath, backupPath, w, a);
      if !ok {
        return Failed;
      }
      if updater {
        return Exited;
      }
      if w.stopFails {
        ghost var moved, trail1 := files, trail;
        UndoIsSafe(a, files);
        var restored := Rename(backupPath, location, w.rollbackFails);
        SafeStep(a, trail1, files);
        SafeSinceThen(a, old(trail), trail1, moved, trail, files);
        return Failed;
      }
      r := Updated;
    }

    /** Downloads the new binary and checks the version that it reports. */
    method Fetch(v: Versions, wanted: string, newVersionPath: string, w: World, ghost a: Attempt) returns (ok: bool)
      requires a.before == files && a.newPath == newVersionPath && a.newPath != a.location && a.location in files
      requires a.wanted == v.parse(wanted)
      modifies this
      ensures SafeSince(a, old(trail), trail, files)
      ensures ok <==> newVersionPath !in old(files) && Accepted(v, wanted, w)
      ensures ok ==> files == old(files)[newVersionPath := w.download.binary]
      ensures a.location in files && files[a.location] == a.before[a.location]
      ensures newVersionPath in old(files) ==> trail == old(trail) + [old(files)]
      ensures newVersionPath !in old(files) && !ok ==> (newVersionPath in files <==> Littered(v, wanted, w))
    {
      ok := DownloadBinary(newVersionPath, w.download);
      if !ok {
        return;
      }
      var downloadedVersion := BinaryVersion(newVersionPath, w.cannotRunNew);
      var newSemVer := v.parse(wanted);
      if downloadedVersion.None? || newSemVer.None? || newSemVer != downloadedVersion {
        var removed := Remove(newVersionPath, w.removeFails);
        ok := false;
      }
    }

    /** One attempt. The new binary is put in place exactly when every check and operation succeeds;
        after any other outcome the old one still is, unless undoing the swap failed as well. A failed
        attempt may leave the download behind, and then every later attempt at that version fails. */
    method Update(v: Versions, updater: bool, service: bool, location: string, w: World)
        returns (r: Result, ghost a: Attempt)
      requires Sound(v)
      modifies this
      ensures a.before == old(files) && a.location == location && trail == old(trail) + a.steps && files == End(a)
      ensures Follows(a) && Blocks(a) && Named(a) && (a.version == "" || w.decision == Some(a.version))
      ensures a.steps != [] <==> Downloads(old(files), location, w)
      ensures a.steps != [] ==>
        && a.wanted == v.parse(w.decision.value) && a.newPath == NewPath(location, w.decision.value)
        && a.backup == BackupPath(v, updater, location, old(files)[location].version.value)
      ensures r == Updated || r == Exited <==> Succeeds(v, updater, service, old(files), location, w)
      ensures r == Exited ==> service && updater
      ensures r == Updated ==> !(service && updater)
      ensures r == UpToDate <==>
        && location in old(files) && old(files)[location].version.Some? && !w.cannotRun
        && !w.decisionFails && w.decision.None?
      ensures r == Updated || r == Exited ==> Replaced(v, updater, old(files), files, location, w)
      ensures r == Updated || r == Exited ==> Swapped(v, updater, old(files), files, location, w)
      ensures r == UpToDate ==> files == old(files)
      ensures r == Failed && !w.rollbackFails && location in old(files) ==>
        location in files && files[location] == old(files)[location]
      ensures r == Failed && Downloads(old(files), location, w) ==>
        (NewPath(location, w.decision.value) in files <==>
          NewPath(location, w.decision.value) in old(files) || Littered(v, w.decision.value, w))
    {
      a := Attempt(files, [], location, PrependExtension(location, ""), PrependExtension(location, OLD), None, "", OLD);
      ExtensionIsLonger(location, OLD);
      ghost var start := trail;
      var currentVersion := BinaryVersion(location, w.cannotRun);
      if currentVersion.None? {
        return Failed, a;
      }
      if w.decisionFails {
        return Failed, a;
      }
      if w.decision.None? {
        return UpToDate, a;
      }
      PlannedIsNamed(v, updater, files, location, w.decision.value, currentVersion.value);
      ghost var before := files;
      r, a := Install(v, updater, service, location, w.decision.value, currentVersion.value, w);
      if r != Failed {
        SwappedIsReplaced(v, updater, before, files, location, w);
      }
    }

    /** The part of an attempt that touches files: download, check and swap. */
    method Install(v: Versions, updater: bool, service: bool, location: string, wanted: string, current: SemVer,
                   w: World)
        returns (r: Result, ghost a: Attempt)
      requires Sound(v) && location in files
      modifies this
      ensures trail == old(trail) + a.steps && a.steps != [] && files == End(a)
      ensures a.(steps := []) == Planned(v, updater, old(files), location, wanted, current)
      ensures Follows(a) && Blocks(a)
      ensures r == if !Installs(v, updater, service, old(files), location, wanted, w) then Failed
                   else if service && updater then Exited else Updated
      ensures r != Failed ==>
        var backup := BackupPath(v, updater, location, current);
        files == old(files)[location := w.download.binary][backup := old(files)[location]]
      ensures r == Failed && !w.rollbackFails ==> location in files && files[location] == old(files)[location]
      ensures r == Failed ==>
        (NewPath(location, wanted) in files <==> NewPath(location, wanted) in old(files) || Littered(v, wanted, w))
    {
      a := Planned(v, updater, files, location, wanted, current);
      var newVersionPath := NewPath(location, wanted);
      ghost var start := trail;
      PathsAreDistinct(v, updater, location, current, wanted);
      var ok := Fetch(v, wanted, newVersionPath, w, a);
      if !ok {
        Recorded(a, start, trail, files);
        a := a.(steps := trail[|start|..]);
        return Failed, a;
      }
      ghost var fetched, trail1 := files, trail;
      var backupPath := BackupPath(v, updater, location, current);
      SwapResult(a.before, location, newVersionPath, backupPath, w.download.binary);
      if service {
        r := RestartService(updater, location, newVersionPath, backupPath, w, a);
      } else {
        ok := Swap(location, newVersionPath, backupPath, w, a);
        r := if ok then Updated else Failed;
      }
      SafeSinceThen(a, start, trail1, fetched, trail, files);
      Recorded(a, start, trail, files);
      a := a.(steps := trail[|start|..]);
    }
  }

  /** An attempt before its first operation. */
  ghost function Planned(v: Versions, updater: bool, files: Files, location: string, wanted: string,
                         current: SemVer): Attempt {
    Attempt(files, [], location, NewPath(location, wanted), BackupPath(v, updater, location, current), v.parse(wanted),
            wanted, BackupExtension(v, updater, current))
  }

  lemma PlannedIsNamed(v: Versions, updater: bool, files: Files, location: string, wanted: string, current: SemVer)
    requires Sound(v)
    ensures Named(Planned(v, updater, files, location, wanted, current))
  {
  }

  /** A call of the update cycle, which updates the node and the updater in turn and does not stop at errors. */
  datatype Call = Call(updater: bool, service: bool, location: string, world: World)

  /** Calls for binaries that cannot meet: in one directory with names that differ up to the first dot,
      or in two with versions without slash. */
  ghost predicate CallsApart(calls: seq<Call>) {
    forall i, j :: 0 <= i < |calls| && 0 <= j < |calls| && calls[i].location != calls[j].location ==>
      || DifferentNames(calls[i].location, calls[j].location)
      || (Dir(calls[i].location) != Dir(calls[j].location) && Plain(calls[i].world) && Plain(calls[j].world))
  }

  predicate Plain(w: World) {
    w.decision.Some? ==> '/' !in w.decision.value
  }

  /** A history as the calls make it. */
  ghost predicate Made(v: Versions, calls: seq<Call>, h: seq<Attempt>, results: seq<Result>) {
    && |h| == |results| == |calls|
    && forall k :: 0 <= k < |h| ==> MadeBy(v, calls[k], h[k], results[k])
  }

  ghost predicate MadeBy(v: Versions, call: Call, a: Attempt, r: Result) {
    && a.location == call.location && Blocks(a) && Named(a)
    && (a.version == "" || call.world.decision == Some(a.version))
    && (r == Updated || r == Exited <==> Succeeds(v, call.updater, call.service, a.before, call.location, call.world))
    && (a.steps != [] <==> Downloads(a.before, call.location, call.world))
    && (a.steps != [] ==>
         && call.world.decision.Some? && a.version == call.world.decision.value
         && a.newPath == NewPath(call.location, call.world.decision.value))
  }

  lemma MadeNamesApart(v: Versions, calls: seq<Call>, h: seq<Attempt>, results: seq<Result>)
    requires Made(v, calls, h, results) && CallsApart(calls)
    ensures AllNamesApart(h) && AllBlock(h)
  {
    forall k, j | 0 <= k < |h| && 0 <= j < |h|
      ensures NamesApart(h[k], h[j])
    {
      assert MadeBy(v, calls[k], h[k], results[k]) && MadeBy(v, calls[j], h[j], results[j]);
    }
    forall k | 0 <= k < |h|
      ensures Named(h[k]) && Blocks(h[k])
    {
      assert MadeBy(v, calls[k], h[k], results[k]);
    }
  }

  /** After every operation there is a binary that the attempts so far can trust at the location or, when
      that is empty, at the backup path of one of them. */
  ghost predicate NothingLost(h: seq<Attempt>, location: string) {
    forall k, i :: 0 <= k < |h| && 0 <= i < |h[k].steps| ==>
      Recoverable(h[..k + 1], location, h[k].steps[i])
  }

  /** Once the location is empty it stays empty, with all its backups as they are. */
  ghost predicate EmptyIsKept(h: seq<Attempt>, location: string) {
    forall k, j, b :: 0 <= k <= j < |h| && 0 <= b < |h| && h[b].location == location && location !in h[k].before ==>
      && location !in End(h[j])
      && (h[b].backup in h[k].before ==> h[b].backup in End(h[j]) && End(h[j])[h[b].backup] == h[k].before[h[b].backup])
  }

  /** A version whose download is left behind is never installed, and attempts at it change no file. */
  ghost predicate LitterBlocks(v: Versions, calls: seq<Call>, h: seq<Attempt>, results: seq<Result>)
    requires |h| == |results| == |calls|
  {
    forall k, j :: 0 <= k < j < |h| && LeftBehind(v, calls[j], h[k]) ==>
      Unchanged(h[j]) && results[j] != Updated && results[j] != Exited
  }

  /** The download that a call asks for, of a proper version, is there when an attempt ends. */
  ghost predicate LeftBehind(v: Versions, call: Call, a: Attempt) {
    && call.world.decision.Some? && v.parse(call.world.decision.value).Some?
    && NewPath(call.location, call.world.decision.value) in End(a)
  }

  lemma CyclesLoseNothing(v: Versions, calls: seq<Call>, h: seq<Attempt>, results: seq<Result>, i: nat)
    requires Sound(v) && History(h) && Made(v, calls, h, results) && CallsApart(calls) && i < |h|
    ensures calls[i].location in h[0].before ==> NothingLost(h, calls[i].location)
    ensures EmptyIsKept(h, calls[i].location)
  {
    MadeNamesApart(v, calls, h, results);
    assert MadeBy(v, calls[i], h[i], results[i]);
    NamesMakeApart(h, i);
    var location := calls[i].location;
    if location in h[0].before {
      forall k, n | 0 <= k < |h| && 0 <= n < |h[k].steps|
        ensures Recoverable(h[..k + 1], location, h[k].steps[n])
      {
        NothingIsLost(h, location, k, n);
      }
    }
    forall k, j, b | 0 <= k <= j < |h| && 0 <= b < |h| && h[b].location == location && location !in h[k].before
      ensures location !in End(h[j])
      ensures h[b].backup in h[k].before ==>
        h[b].backup in End(h[j]) && End(h[j])[h[b].backup] == h[k].before[h[b].backup]
    {
      EmptyKeepsItsBackups(h, location, k, j, b);
    }
  }

  lemma CyclesAreSafe(v: Versions, calls: seq<Call>, h: seq<Attempt>, results: seq<Result>)
    requires Sound(v) && History(h) && Made(v, calls, h, results) && CallsApart(calls)
    ensures forall i :: 0 <= i < |calls| && calls[i].location in h[0].before ==> NothingLost(h, calls[i].location)
    ensures forall i :: 0 <= i < |calls| ==> EmptyIsKept(h, calls[i].location)
    ensures LitterBlocks(v, calls, h, results)
  {
    forall i | 0 <= i < |calls|
      ensures calls[i].location in h[0].before ==> NothingLost(h, calls[i].location)
      ensures EmptyIsKept(h, calls[i].location)
    {
      CyclesLoseNothing(v, calls, h, results, i);
    }
    CyclesAreBlocked(v, calls, h, results);
  }

  lemma CyclesAreBlocked(v: Versions, calls: seq<Call>, h: seq<Attempt>, results: seq<Result>)
    requires Sound(v) && History(h) && Made(v, calls, h, results) && CallsApart(calls)
    ensures LitterBlocks(v, calls, h, results)
  {
    MadeNamesApart(v, calls, h, results);
    forall k, j | 0 <= k < j < |h| && LeftBehind(v, calls[j], h[k])
      ensures Unchanged(h[j]) && results[j] != Updated && results[j] != Exited
    {
      CallIsBlocked(v, calls, h, results, k, j);
    }
  }

  lemma CallIsBlocked(v: Versions, calls: seq<Call>, h: seq<Attempt>, results: seq<Result>, k: nat, j: nat)
    requires Sound(v) && History(h) && Made(v, calls, h, results) && AllNamesApart(h) && AllBlock(h)
    requires k < j < |h| && LeftBehind(v, calls[j], h[k])
    ensures Unchanged(h[j]) && results[j] != Updated && results[j] != Exited
  {
    assert MadeBy(v, calls[j], h[j], results[j]);
    if h[j].steps != [] {
      LitterBlocksItsVersion(v, h, k, j);
    }
  }

  /** One call, as part of a history. */
  method MakeAttempt(fs: FileSystem, v: Versions, call: Call) returns (r: Result, ghost a: Attempt)
    requires Sound(v)
    modifies fs
    ensures Follows(a) && MadeBy(v, call, a, r) && a.before == old(fs.files) && fs.files == End(a)
  {
    r, a := fs.Update(v, call.updater, call.service, call.location, call.world);
  }

  /** Any number of calls, for any binaries that cannot meet, with any failures: nothing is lost, an
      empty location keeps its backups, and a download left behind blocks its version. */
  method RunCycles(fs: FileSystem, v: Versions, calls: seq<Call>) returns (ghost h: seq<Attempt>, results: seq<Result>)
    requires Sound(v) && CallsApart(calls)
    modifies fs
    ensures History(h) && Made(v, calls, h, results)
    ensures |h| > 0 ==> h[0].before == old(fs.files) && End(h[|h| - 1]) == fs.files
    ensures forall i :: 0 <= i < |calls| && calls[i].location in old(fs.files) ==> NothingLost(h, calls[i].location)
    ensures forall i :: 0 <= i < |calls| ==> EmptyIsKept(h, calls[i].location)
    ensures LitterBlocks(v, calls, h, results)
  {
    h, results := [], [];
    for i := 0 to |calls|
      invariant History(h) && Made(v, calls[..i], h, results)
      invariant if |h| > 0 then h[0].before == old(fs.files) && End(h[|h| - 1]) == fs.files
                else fs.files == old(fs.files)
    {
      var r, a := MakeAttempt(fs, v, calls[i]);
      ExtendHistory(v, calls, i, h, results, a, r);
      h, results := h + [a], results + [r];
    }
    assert calls[..|calls|] == calls;
    CyclesAreSafe(v, calls, h, results);
  }

  lemma ExtendHistory(v: Versions, calls: seq<Call>, i: nat, h: seq<Attempt>, results: seq<Result>, a: Attempt,
                      r: Result)
    requires i < |calls| && History(h) && Made(v, calls[..i], h, results)
    requires Follows(a) && MadeBy(v, calls[i], a, r) && (h != [] ==> a.before == End(h[|h| - 1]))
    ensures History(h + [a]) && Made(v, calls[..i + 1], h + [a], results + [r])
  {
    MadeExtends(v, calls, i, h, results, a, r);
    HistoryExtends(h, a);
  }

  lemma MadeExtends(v: Versions, calls: seq<Call>, i: nat, h: seq<Attempt>, results: seq<Result>, a: Attempt, r: Result)
    requires i < |calls| && Made(v, calls[..i], h, results) && MadeBy(v, calls[i], a, r)
    ensures Made(v, calls[..i + 1], h + [a], results + [r])
  {
    forall k | 0 <= k < i + 1
      ensures MadeBy(v, calls[..i + 1][k], (h + [a])[k], (results + [r])[k])
    {
      if k < i {
        assert MadeBy(v, calls[..i][k], h[k], results[k]);
      }
    }
  }

  /** A download that can be run and reports the wanted version. */
  predicate Accepted(v: Versions, wanted: string, w: World) {
    && w.download.Fetched? && !w.cannotRunNew
    && v.parse(wanted).Some? && w.download.binary.version == v.parse(wanted)
  }

  /** An attempt that gets as far as downloading. */
  predicate Downloads(files: Files, location: string, w: World) {
    location in files && files[location].version.Some? && !w.cannotRun && !w.decisionFails && w.decision.Some?
  }

  /** A failed attempt leaves its download behind: after an error while it was written, when the old
      binary could not be moved away, or when removing it failed. */
  predicate Littered(v: Versions, wanted: string, w: World) {
    match w.download
    case Missed => false
    case Leftover(_) => true
    case Fetched(_) => if Accepted(v, wanted, w) then w.backupFails || (w.swapFails && w.removeFails) else w.removeFails
  }

  /** Everything an update needs. */
  predicate Succeeds(v: Versions, updater: bool, service: bool, files: Files, location: string, w: World) {
    Downloads(files, location, w) && Installs(v, updater, service, files, location, w.decision.value, w)
  }

  predicate Installs(v: Versions, updater: bool, service: bool, files: Files, location: string, wanted: string,
                     w: World) {
    && NewPath(location, wanted) !in files && Accepted(v, wanted, w)
    && !w.backupFails && !w.swapFails && (service && !updater ==> !w.stopFails)
  }

  /** The downloaded binary is installed and the one it replaces is the backup. */
  ghost predicate Swapped(v: Versions, updater: bool, before: Files, after: Files, location: string, w: World) {
    && location in before && before[location].version.Some? && w.download.Fetched?
    && var backup := BackupPath(v, updater, location, before[location].version.value);
       after == before[location := w.download.binary][backup := before[location]]
  }

  /** The new binary is at its place and the old one beside it, under the name of a backup: the updater's with "old"
      put in front of the extension, any other with "old" and the version of the binary. Nothing else has changed,
      and the new binary reports the version that was offered. */
  ghost predicate Replaced(v: Versions, updater: bool, before: Files, after: Files, location: string, w: World) {
    && location in before && before[location].version.Some? && w.download.Fetched? && w.decision.Some?
    && exists backup :: IsReplaced(v, updater, before, after, location, w, backup)
  }

  ghost predicate IsReplaced(v: Versions, updater: bool, before: Files, after: Files, location: string, w: World,
                             backup: string)
    requires location in before && before[location].version.Some? && w.download.Fetched? && w.decision.Some?
  {
    && HasInserted(location, if updater then "old" else "old." + v.format(before[location].version.value), backup)
    && after.Keys == before.Keys + {backup} && after[backup] == before[location]
    && location in after && after[location] == w.download.binary
    && after[location].version.Some? && after[location].version == v.parse(w.decision.value)
    && forall p :: p in before && p != location && p != backup ==> after[p] == before[p]
  }

  lemma BackupIsNamed(v: Versions, updater: bool, location: string, current: SemVer)
    ensures var backup := BackupPath(v, updater, location, current);
            && HasInserted(location, if updater then "old" else "old." + v.format(current), backup)
            && backup != location
  {
    assert BackupExtension(v, updater, current) == if updater then "old" else "old." + v.format(current);
    ExtensionIsInserted(location, BackupExtension(v, updater, current));
    ExtensionIsLonger(location, BackupExtension(v, updater, current));
  }

  lemma SwappedIsReplaced(v: Versions, updater: bool, before: Files, after: Files, location: string, w: World)
    requires Swapped(v, updater, before, after, location, w) && w.decision.Some? && Accepted(v, w.decision.value, w)
    ensures Replaced(v, updater, before, after, location, w)
  {
    var current := before[location].version.value;
    BackupIsNamed(v, updater, location, current);
    assert IsReplaced(v, updater, before, after, location, w, BackupPath(v, updater, location, current));
  }

  /** The new binary is downloaded and checked, the old one is still in place. */
  ghost predicate Ready(a: Attempt, files: Files) {
    && a.location != a.newPath && a.location != a.backup && a.newPath != a.backup
    && Safe(a, files) && a.location in files && files[a.location] == a.before[a.location]
    && a.newPath in files && files[a.newPath].version == a.wanted && a.wanted.Some?
  }

  /** There were operations since a point of the trail, and all were safe. */
  ghost predicate SafeSince(a: Attempt, before: seq<Files>, now: seq<Files>, files: Files) {
    && |before| < |now| && before == now[..|before|]
    && (forall k :: |before| <= k < |now| ==> Safe(a, now[k]))
    && files == now[|now| - 1]
  }

  lemma SafeSinceThen(a: Attempt, t0: seq<Files>, t1: seq<Files>, f1: Files, t2: seq<Files>, f2: Files)
    requires SafeSince(a, t0, t1, f1) && SafeSince(a, t1, t2, f2)
    ensures SafeSince(a, t0, t2, f2)
  {
    assert t0 == t1[..|t0|] == t2[..|t1|][..|t0|] == t2[..|t0|];
    forall k | |t0| <= k < |t2|
      ensures Safe(a, t2[k])
    {
      if k < |t1| { assert t2[k] == t2[..|t1|][k] == t1[k]; }
    }
  }

  lemma SafeStep(a: Attempt, before: seq<Files>, s: Files)
    requires Safe(a, s)
    ensures SafeSince(a, before, before + [s], s)
  {
  }

  /** The safe operations since a point of the trail make an attempt. */
  lemma Recorded(a: Attempt, before: seq<Files>, now: seq<Files>, files: Files)
    requires SafeSince(a, before, now, files) && a.location != a.backup && a.location in a.before
    ensures var done := a.(steps := now[|before|..]);
            Follows(done) && now == before + done.steps && files == End(done)
  {
    var done := a.(steps := now[|before|..]);
    forall k | 0 <= k < |done.steps|
      ensures Safe(done, done.steps[k])
    {
      assert Safe(a, now[|before| + k]);
    }
  }

  /** The old binary moved to its backup, then the new one to its place. */
  lemma SwapIsSafe(a: Attempt, f: Files)
    requires Ready(a, f)
    ensures var g := Moved(f, a.location, a.backup);
            Safe(a, g) && a.newPath in g && Safe(a, Moved(g, a.newPath, a.location))
  {
  }

  lemma SwapResult(f: Files, location: string, newPath: string, backup: string, binary: Binary)
    requires location in f && newPath !in f && location != backup && newPath != backup
    ensures Moved(Moved(f[newPath := binary], location, backup), newPath, location) ==
      f[location := binary][backup := f[location]]
  {
  }

  /** Moving the backup back, and removing the new binary, is safe after either move. */
  lemma UndoIsSafe(a: Attempt, f: Files)
    requires a.location != a.newPath && a.location != a.backup && a.newPath != a.backup
    requires Safe(a, f) && a.backup in f && f[a.backup] == a.before[a.location]
    ensures Safe(a, Moved(f, a.backup, a.location)) && Safe(a, Moved(f, a.backup, a.location) - {a.newPath}) &&
      Safe(a, f - {a.newPath})
  {
  }
}
