/** The self-updater: what one attempt may do to the files, and what any number of attempts keeps
    (cmd/storagenode-updater). */
module Updater {
  import opened Wrappers
  import opened BinaryPaths

  datatype SemVer = SemVer(major: nat, minor: nat, patch: nat)

  /** A file, and the version it reports when run; None when it cannot be run. */
  datatype Binary = Binary(id: nat, version: Option<SemVer>)

  type Files = map<string, Binary>

  /** Reading and printing versions; no version reads like the start of a backup's extension, and
      none is printed with a slash. */
  datatype Versions = Versions(parse: string -> Option<SemVer>, format: SemVer -> string)

  ghost predicate Sound(v: Versions) {
    && (forall s :: v.parse(s).Some? ==> s != "" && s[0] != 'o')
    && forall x :: '/' !in v.format(x)
  }

  // ----- the three paths of an attempt

  const OLD := "old"

  function NewPath(location: string, wanted: string): string {
    PrependExtension(location, wanted)
  }

  function BackupExtension(v: Versions, updater: bool, current: SemVer): string {
    if updater then OLD else OLD + "." + v.format(current)
  }

  function BackupPath(v: Versions, updater: bool, location: string, current: SemVer): string {
    PrependExtension(location, BackupExtension(v, updater, current))
  }

  /** The binary location, the downloaded binary and the backup never share a path. */
  lemma PathsAreDistinct(v: Versions, updater: bool, location: string, current: SemVer, wanted: string)
    ensures NewPath(location, wanted) != location
    ensures BackupPath(v, updater, location, current) != location
    ensures Sound(v) && v.parse(wanted).Some? ==> NewPath(location, wanted) != BackupPath(v, updater, location, current)
  {
    ExtensionIsLonger(location, wanted);
    var extension := BackupExtension(v, updater, current);
    ExtensionIsLonger(location, extension);
    if Sound(v) && v.parse(wanted).Some? {
      ExtensionMatters(location, wanted, extension);
    }
  }

  // ----- what an attempt may do

  /** One attempt on a binary: the files before it and after each of its operations. */
  datatype Attempt = Attempt(
    before: Files, steps: seq<Files>, location: string, newPath: string, backup: string, wanted: Option<SemVer>,
    version: string, backupExt: string)

  /** The paths of an attempt are its location with the version, or the mark of a backup, put in. */
  ghost predicate Named(a: Attempt) {
    && a.newPath == PrependExtension(a.location, a.version) && a.backup == PrependExtension(a.location, a.backupExt)
    && OLD <= a.backupExt && '/' !in a.backupExt
  }

  /** A binary that is already at the new path stops an attempt before it changes anything. */
  ghost predicate Blocks(a: Attempt) {
    a.newPath in a.before ==> Unchanged(a)
  }

  ghost predicate Unchanged(a: Attempt) {
    forall k :: 0 <= k < |a.steps| ==> a.steps[k] == a.before
  }

  function End(a: Attempt): Files {
    if a.steps == [] then a.before else a.steps[|a.steps| - 1]
  }

  /** Between the operations the installed binary is at its place, or it is at the backup path and
      its place is empty or holds a binary that reported the wanted version. Other files stay. */
  ghost predicate Safe(a: Attempt, s: Files) {
    && a.location in a.before
    && OthersStay(a, s)
    && ((a.location in s && s[a.location] == a.before[a.location])
        || (a.backup in s && s[a.backup] == a.before[a.location]
            && (a.location in s ==> a.wanted.Some? && s[a.location].version == a.wanted)))
  }

  ghost predicate OthersStay(a: Attempt, s: Files) {
    forall p :: p != a.location && p != a.newPath && p != a.backup ==>
      (p in s <==> p in a.before) && (p in s ==> s[p] == a.before[p])
  }

  /** Every operation of an attempt is safe; with nothing installed there is none. */
  ghost predicate Follows(a: Attempt) {
    && a.location != a.backup
    && (a.location !in a.before ==> a.steps == [])
    && forall k :: 0 <= k < |a.steps| ==> Safe(a, a.steps[k])
  }

  // ----- any number of attempts

  ghost predicate History(h: seq<Attempt>) {
    && (forall k :: 0 <= k < |h| ==> Follows(h[k]))
    && forall k {:trigger End(h[k])} :: 0 <= k < |h| - 1 ==> h[k + 1].before == End(h[k])
  }

  lemma HistoryExtends(h: seq<Attempt>, a: Attempt)
    requires History(h) && Follows(a) && (h != [] ==> a.before == End(h[|h| - 1]))
    ensures History(h + [a])
  {
    var g := h + [a];
    forall k {:trigger End(g[k])} | 0 <= k < |g| - 1
      ensures g[k + 1].before == End(g[k])
    {
      assert g[k] == h[k];
      if k < |h| - 1 { assert h[k + 1].before == End(h[k]) && g[k + 1] == h[k + 1]; }
    }
  }

  /** Attempts on other binaries touch neither this binary's location nor its backups. */
  ghost predicate Apart(h: seq<Attempt>, location: string) {
    && (forall k :: 0 <= k < |h| && h[k].location != location ==> location != h[k].newPath && location != h[k].backup)
    && forall k, j :: 0 <= k < |h| && 0 <= j < |h| && h[k].location != location && h[j].location == location ==>
      h[j].backup != h[k].location && h[j].backup != h[k].newPath && h[j].backup != h[k].backup
  }

  /** A binary that was installed at the start or reported the version one of the attempts wanted. */
  ghost predicate Trusted(h: seq<Attempt>, location: string, b: Binary) {
    || (|h| > 0 && location in h[0].before && b == h[0].before[location])
    || exists j :: 0 <= j < |h| && h[j].location == location && h[j].wanted.Some? && b.version == h[j].wanted
  }

  ghost predicate Recoverable(h: seq<Attempt>, location: string, s: Files) {
    || (location in s && Trusted(h, location, s[location]))
    || (location !in s && exists j :: 0 <= j < |h| && h[j].location == location && BackedUp(h, location, s, j))
  }

  ghost predicate BackedUp(h: seq<Attempt>, location: string, s: Files, j: nat)
    requires j < |h|
  {
    h[j].backup in s && Trusted(h, location, s[h[j].backup])
  }

  lemma StepRecoverable(h: seq<Attempt>, location: string, k: nat, i: nat)
    requires History(h) && Apart(h, location) && k < |h| && i < |h[k].steps|
    requires Recoverable(h, location, h[k].before)
    ensures Recoverable(h, location, h[k].steps[i])
  {
    var a, s := h[k], h[k].steps[i];
    assert Safe(a, s);
    if a.location != location {
      assert location != a.newPath && location != a.backup;
      if location !in s {
        var j :| 0 <= j < |h| && h[j].location == location && BackedUp(h, location, a.before, j);
        assert BackedUp(h, location, s, j);
      }
    } else if location !in s {
      assert BackedUp(h, location, s, k);
    }
  }

  lemma {:induction false} BeforeRecoverable(h: seq<Attempt>, location: string, k: nat)
    requires History(h) && Apart(h, location) && k < |h| && location in h[0].before
    ensures Recoverable(h, location, h[k].before)
  {
    if k == 0 {
    } else {
      BeforeRecoverable(h, location, k - 1);
      assert h[k - 1 + 1].before == End(h[k - 1]);
      if h[k - 1].steps != [] {
        StepRecoverable(h, location, k - 1, |h[k - 1].steps| - 1);
      }
    }
  }

  lemma PrefixIsHistory(h: seq<Attempt>, location: string, n: nat)
    requires History(h) && Apart(h, location) && n <= |h|
    ensures History(h[..n]) && Apart(h[..n], location)
  {
    forall k {:trigger End(h[..n][k])} | 0 <= k < n - 1
      ensures h[..n][k + 1].before == End(h[..n][k])
    {
      assert h[k + 1].before == End(h[k]);
    }
  }

  /** After every operation of every attempt there is a binary at the location that was installed at the
      start or reported the version that this attempt or an earlier one wanted; or the location is empty
      and such a binary is at a backup path of the attempts made so far. */
  lemma NothingIsLost(h: seq<Attempt>, location: string, k: nat, i: nat)
    requires History(h) && Apart(h, location) && k < |h| && i < |h[k].steps|
    requires location in h[0].before
    ensures Recoverable(h[..k + 1], location, h[k].steps[i])
  {
    PrefixIsHistory(h, location, k + 1);
    BeforeRecoverable(h[..k + 1], location, k);
    StepRecoverable(h[..k + 1], location, k, i);
  }

  /** Once the location is empty it stays empty, and its backups stay as they are. */
  lemma {:induction false} EmptyKeepsItsBackups(h: seq<Attempt>, location: string, k: nat, j: nat, b: nat)
    requires History(h) && Apart(h, location) && k <= j < |h| && b < |h| && h[b].location == location
    requires location !in h[k].before
    ensures location !in End(h[j])
    ensures h[b].backup in h[k].before ==>
      h[b].backup in End(h[j]) && End(h[j])[h[b].backup] == h[k].before[h[b].backup]
    decreases j
  {
    if j > k {
      EmptyKeepsItsBackups(h, location, k, j - 1, b);
      assert h[j - 1 + 1].before == End(h[j - 1]);
    }
    if h[j].location != location && h[j].steps != [] {
      assert Safe(h[j], End(h[j]));
    }
  }

  // ----- what the names of the binaries give

  /** Attempts on two binaries that cannot meet: in one directory with names that differ up to the
      first dot, or in two with versions without slash. */
  ghost predicate NamesApart(a: Attempt, b: Attempt) {
    a.location != b.location ==>
      || DifferentNames(a.location, b.location)
      || (Dir(a.location) != Dir(b.location) && '/' !in a.version && '/' !in b.version)
  }

  lemma PathsApart(a: Attempt, b: Attempt)
    requires Named(a) && Named(b) && NamesApart(a, b) && a.location != b.location
    ensures a.location != b.newPath && a.location != b.backup
    ensures a.newPath != b.location && a.newPath != b.newPath && a.newPath != b.backup
    ensures a.backup != b.location && a.backup != b.newPath && a.backup != b.backup
  {
    forall e, e' | e in {a.version, a.backupExt} && e' in {b.version, b.backupExt}
      ensures PrependExtension(a.location, e) != PrependExtension(b.location, e')
      ensures PrependExtension(a.location, e) != b.location && a.location != PrependExtension(b.location, e')
    {
      if DifferentNames(a.location, b.location) {
        NamesKeepApart(a.location, b.location, e, e');
        NamesKeepApart(b.location, a.location, e', e);
      } else {
        DirsKeepApart(a.location, b.location, e, e');
        DirsKeepApart(b.location, a.location, e', e);
      }
    }
  }

  ghost predicate AllNamesApart(h: seq<Attempt>) {
    && (forall k :: 0 <= k < |h| ==> Named(h[k]))
    && forall k, j :: 0 <= k < |h| && 0 <= j < |h| ==> NamesApart(h[k], h[j])
  }

  ghost predicate AllBlock(h: seq<Attempt>) {
    forall k :: 0 <= k < |h| ==> Blocks(h[k])
  }

  /** Apart as they are named, attempts on one binary never touch another or its backups. */
  lemma NamesMakeApart(h: seq<Attempt>, i: nat)
    requires History(h) && AllNamesApart(h) && i < |h|
    ensures Apart(h, h[i].location)
  {
    var location := h[i].location;
    forall k | 0 <= k < |h| && h[k].location != location
      ensures location != h[k].newPath && location != h[k].backup
    {
      PathsApart(h[i], h[k]);
    }
    forall k, j | 0 <= k < |h| && 0 <= j < |h| && h[k].location != location && h[j].location == location
      ensures h[j].backup != h[k].location && h[j].backup != h[k].newPath && h[j].backup != h[k].backup
    {
      PathsApart(h[j], h[k]);
    }
  }

  // ----- a download left behind

  /** The new path of an attempt at a proper version is never the location or the backup of another. */
  lemma NewPathIsForeign(v: Versions, a: Attempt, b: Attempt)
    requires Sound(v) && Named(a) && Named(b) && NamesApart(a, b) && v.parse(a.version).Some?
    ensures a.newPath != b.location && a.newPath != b.backup
  {
    if a.location == b.location {
      ExtensionIsLonger(a.location, a.version);
      ExtensionMatters(a.location, a.version, b.backupExt);
      assert b.backupExt[0] == OLD[0];
    } else {
      PathsApart(a, b);
    }
  }

  lemma LitterOutlastsAttempt(a: Attempt, path: string)
    requires Follows(a) && Blocks(a) && path in a.before && path != a.location && path != a.backup
    ensures path in End(a)
  {
    if a.steps != [] {
      assert Safe(a, End(a));
    }
  }

  /** A path that is neither the location nor the backup of any attempt. */
  ghost predicate Foreign(h: seq<Attempt>, path: string) {
    forall m :: 0 <= m < |h| ==> path != h[m].location && path != h[m].backup
  }

  lemma {:induction false} LitterStays(h: seq<Attempt>, path: string, k: nat, m: nat)
    requires History(h) && AllBlock(h) && Foreign(h, path) && k <= m < |h| && path in End(h[k])
    ensures path in End(h[m])
    decreases m
  {
    if m > k {
      LitterStays(h, path, k, m - 1);
      assert h[m - 1 + 1].before == End(h[m - 1]);
      LitterOutlastsAttempt(h[m], path);
    }
  }

  /** Once a download has been left behind, no later attempt at its version changes any file. */
  lemma LitterBlocksItsVersion(v: Versions, h: seq<Attempt>, k: nat, j: nat)
    requires Sound(v) && History(h) && AllNamesApart(h) && AllBlock(h) && k < j < |h|
    requires v.parse(h[j].version).Some? && h[j].newPath in End(h[k])
    ensures h[j].newPath in h[j].before && Unchanged(h[j])
  {
    forall m | 0 <= m < |h|
      ensures h[j].newPath != h[m].location && h[j].newPath != h[m].backup
    {
      NewPathIsForeign(v, h[j], h[m]);
    }
    FoundBefore(h, h[j].newPath, k, j);
  }

  lemma FoundBefore(h: seq<Attempt>, path: string, k: nat, j: nat)
    requires History(h) && AllBlock(h) && Foreign(h, path) && k < j < |h| && path in End(h[k])
    ensures path in h[j].before && (path == h[j].newPath ==> Unchanged(h[j]))
  {
    LitterStays(h, path, k, j - 1);
    assert h[j - 1 + 1].before == End(h[j - 1]);
  }
}
