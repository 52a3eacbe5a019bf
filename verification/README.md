# Storx core: a verified model

This project models the parts of the storx repository whose correctness is not obvious from reading
one function, and proves what they promise. Each module follows one component.

| files | component |
|---|---|
| Keys, Listing, Paging, ListingResults, ListV2 | ordered keys, prefix listing with collapsing, and paging over a store |
| Migration, MigrationEffects, MigrationViews, MigrationRunner | the schema migration engine with failures and re-runs |
| LineBreaking, LineCuts, PrefixWriter | the buffering, line-breaking writer of the network simulator |
| Decimal, ByteRange, ParallelCopy, RangeCopy | part sizes, byte ranges and the parallel multipart copy |
| TypeGraph, TypeDefinitions, TypeNames, TypeScript, Sorting | the walk over Go types and the generated TypeScript definitions |
| Fences, Network | the start-up fences of simulated processes and the wait graph of the network |
| Authorization, AuthorizationResults, AuthorizationDB | single-use authorization tokens over whole histories |
| BinaryPaths, Updater, UpdaterRun | the self-updater's binary swap under failures |
| ExternalConfig, ConfigFile, LegacyConfig, LegacyResults, LegacyMigration | the uplink configuration file and the migration of the old one |
| Wrappers, Sequences | shared helpers |
| Address | EIP-55 addresses and hexadecimal parsing |

Code that changes state is modelled by classes and loops whose methods are proved against a
specification function or predicate; the laws are lemmas about that specification, and the modules
named Results, Effects, Cuts and Names say what it comes to without it. Protocols with
concurrency are transition systems over all interleavings. `dafny verify dfyconfig.toml` verifies the
whole project (Dafny 4.11); nothing of the original program is executed.

Inputs from outside are parameters: random token data, clocks, the hash function, base58, failing
transactions, file operations and downloads. The store iterator follows the in-memory store of the
repository (storage/teststore/store.go).

## Where the code differs from what is said about it

- `AfterPrefix` is wrong for a prefix ending in 0xFF: the byte wraps to 0 (`Keys.PrefixRangeExact`). The
  store iterator only uses it for prefixes that end in the delimiter.
- `ListV2` with collapsing needs a start key that is its own collapsed form (`Listing.CursorConditionExact`).
- A version query that fails inside a transaction that still commits is taken for version -1, so applied steps are
  executed again (`Migration.LostQueryRepeatsAStep`); `Migration.RecoveryIsExact` says exactly when recovery holds.
- A migration step with a negative version passes `ValidateSteps` and is never executed, unless a database already
  holds a version below -1 (`Migration.FreshRunsEverything`, `Migration.NegativeIsNeverExecuted`).
- A line of exactly `maxline` bytes comes out whole or broken, depending on how the stream is cut into
  writes (`LineBreaking.CuttingIsInvisibleExactly`).
- A suffix range longer than the source is an error and `-0` is the whole source, unlike section 14.35.1
  of RFC 2616 (`RangeCopy.SuffixRangeIsCopied`, `ByteRange.SuffixRange`).
- A copy of at least one byte may be committed short after a cancellation from outside (`ParallelCopy.CancelledCopyMayBeShort`).
- Generated TypeScript fields are never optional: nillability is asked of the struct, not of the field
  (`TypeScript.MarksAreRight`).
- `SaveConfig` and a later load disagree on keys whose last dot is their first character
  (`ExternalConfig.MemoryMatchesFile`), and migrated values move when they lie below a single empty key
  (`LegacyConfig.MigrationKeepsValues`).
- `loadConfig` is called idempotent, but a call after a failed one reports success (`ConfigFile.LoadTwice`).
- A failed update can leave its download behind, even when only the first rename failed; every later attempt at
  that version then fails, since the download creates its file exclusively (`UpdaterRun.RunCycles`).
- Unmarshalling an address does not verify its checksum (`Address.ChecksumIsNotVerified`), nor its length: too many
  digits panic, and too few are accepted and leave the other bytes as they were (`Address.LengthIsNotChecked`).
- Generated class names are not qualified: two reachable structs with one name are not told apart
  (`TypeScript.NamesStandForStructs`).

## Model

| member | source | states |
|---|---|---|
| Keys.AfterPrefix | storage/util.go:17-21 | the result is a fresh copy with its last byte incremented modulo 256, and the argument is left alone |
| Sequences.LessTrichotomy | storage/common.go:180-183 | byte order is total: two keys are equal or exactly one is less |
| Sequences.LessTransitive | storage/common.go:180 | byte order is transitive |
| Keys.NextKeyIsSuccessor | storage/util.go:12-14 | NextKey(k) is the immediate successor of k: no key lies strictly between them |
| Keys.PrefixContiguous | storage/common.go:99-103 | keys with a common prefix are contiguous: behind the first key that lacks it none has it |
| Keys.PrefixRange | storage/util.go:16-21 | [p, AfterPrefix(p)) is exactly the keys with prefix p when the last byte of p is below 0xFF |
| Keys.PrefixRangeExact | storage/util.go:16-21 | the range is right for all keys if and only if the last byte of p is below 0xFF |
| Listing.CutMonotone | storage/common.go:87-97 | collapsing at the first delimiter keeps the order of keys |
| Listing.EntriesAreSorted | storage/common.go:60-97 | the collapsed entries are strictly sorted and are exactly those of some item under the prefix |
| Listing.SortedUnique | storage/common.go:165-177 | a strictly sorted list is determined by its elements |
| Listing.AfterIsListing | storage/listv2.go:66-111 | one call lists exactly the sorted relative keys strictly after its start key, for every start key that is its own collapsed form (any start key in recursive mode) |
| Listing.CursorConditionExact | storage/listv2.go:66-104 | that condition on the start key is exact: for any other one some store makes the call return a wrong entry |
| ListingResults.EntriesAreListed | storage/teststore/store.go:258-299 | the entries of a listing are exactly the stored items under the prefix and, unless it is recursive, one entry for all items below a key that ends in its first delimiter |
| ListingResults.FirstArePage | storage/listv2.go:26-114 | the first results of the whole listing, presented, are a page: in order, at most the limit, nothing left out before the last of them, and more exactly when something follows |
| ListV2.SkipsExactly | storage/teststore/store.go:319-322 | seeking to AfterPrefix skips exactly the items below the collapsed prefix |
| ListV2.ProducesEntry | storage/teststore/store.go:258-299 | the entry of an item followed by the entries of the items behind its collapsed prefix are the entries from that item on |
| ListV2.Iterator.constructor | storage/teststore/store.go:311-317 | the iterator stands before the entries at or after the start key, or the prefix if that is later |
| ListV2.Iterator.Advance | storage/teststore/store.go:354-379 | the cursor hands out the item at its index and moves on, and closes itself at the end |
| ListV2.Iterator.Seek | storage/teststore/store.go:260-274 | the next item that does not belong to the prefix produced last |
| ListV2.Iterator.Produce | storage/teststore/store.go:281-298 | the entry produced and those still to come are the entries from the current item on |
| ListV2.Iterator.Next | storage/teststore/store.go:258-299 | each call returns the first of the remaining entries and leaves the others; none only when there is none |
| ListV2.Consume | storage/listv2.go:67-100 | the loop returns the first `limit` entries without a leading start key, and `more` is true exactly when another follows |
| ListV2.ListV2 | storage/listv2.go:26-114 | the page is the first items of the listing after StartAfter and `more` holds exactly when further items follow, said of the stored items: every result is a stored item with its value exactly when values are asked for, or one entry for all items below a key that ends in its first delimiter; at most the limit if that is between 1 and the lookup limit, otherwise at most the lookup limit; also the case of a lookup limit below one |
| ListV2.ConsumeKeys | storage/listkeys.go:22-31 | the loop returns the keys of the first entries up to the limit |
| ListV2.ListKeys | storage/listkeys.go:12-34 | the keys of the stored items from the first one at or after `first` on, as many as there are up to the limit, which is the lookup limit when none from 1 to that is given |
| Paging.ReturnedKeyIsCursor | storage/listv2.go:21-25 | every returned key is non-empty and a valid start key for the next call |
| Paging.ContinuesBehind | storage/listv2.go:21-25 | a call that starts after the k-th item of the listing lists exactly what is behind it |
| Paging.PagesGlue | storage/listv2.go:21-25 | pages of any sizes, each starting after the last key of the one before, concatenate to the rest of the listing |
| Paging.PagingIsComplete | storage/listv2.go:21-114 | the pages of repeated calls, for every sequence of limits, concatenate to the sorted listing of all non-empty relative keys |
| ListV2.NextPage | storage/listv2.go:21-114 | a call that starts after k listed items returns the next ones, at least one of them if it says that more follow |
| ListV2.ListAll | storage/listv2.go:21-114 | calling until `more` is false, with StartAfter the last returned key and any limits, ends and collects exactly the sorted listing of all non-empty relative keys: the stored items, with their values exactly when these are asked for, and one entry for each collapsed prefix |
| Migration.RunStepLatest | private/migrate/versions.go:159-211 | a step changes the latest version of its own database only, and lifts it exactly when it runs and is beyond it |
| Migration.LostQueryMatters | private/migrate/versions.go:242-261 | a version query that fails inside a committing transaction reads as -1; that changes a round exactly when a step from version 0 on is not pending, or a pending one is below 0 |
| Migration.PendingAtItsTurn | private/migrate/versions.go:179-189 | a step is pending at its turn exactly when it was pending at the start |
| Migration.PassesOver | private/migrate/versions.go:187-189 | processed steps are passed over without change unless their version query is lost and misread |
| Migration.TakesNextStep | private/migrate/versions.go:196-210 | the next step either fails and leaves the databases at the same prefix, or leads to the next prefix, unless a lost query is misread |
| Migration.RunAdvances | private/migrate/versions.go:153-225 | a run from a prefix that misreads no lost query executes exactly the pending steps up to where it stops and leaves the databases there |
| Migration.InterruptedRunsRecover | private/migrate/versions.go:153-225 | after any number of runs with any faults but a misread query the databases stand at a prefix of the steps, each pending step of which was executed once, in order |
| Migration.RecoveryIsExact | private/migrate/versions.go:153-261 | runs with any faults recover when no lost query is misread, and on databases without versions below -1 only then; otherwise a step took effect twice or without being pending |
| Migration.MisreadingShows | private/migrate/versions.go:249-261 | after a misread query in any of the runs some step has been executed twice or without having been pending |
| Migration.LostQueryRepeatsAStep | private/migrate/versions.go:249-261 | the input: an applied step of version 0 takes effect a second time |
| Migration.RecoveryEqualsOneRun | private/migrate/versions.go:153-225 | when the last run comes through, databases and executed steps equal those of one uninterrupted run, if and (on databases without versions below -1) only if no lost query was misread |
| Migration.FaultlessRunSucceeds | private/migrate/versions.go:153-225 | without faults a run over opened databases with a valid table name succeeds |
| MigrationEffects.RunIsDescribed | private/migrate/versions.go:153-225 | every run, with any faults, up to where it stops: exactly the steps are executed whose version is beyond all rows of their database at that point (or beyond -1 when the query is lost); no executed step failed and no round up to there did; it stops exactly at a failing round or a failing due action, and succeeds exactly when there is none; every database then holds its old rows followed by the versions of the executed steps on it, and the content that their actions made in order |
| Migration.FreshRunsEverything | private/migrate/versions.go:187-189 | on fresh databases a run without faults succeeds, and it executes every step if and only if no version is negative |
| Migration.NegativeIsNeverExecuted | private/migrate/versions.go:187-189 | over any number of runs with any faults, a step with a negative version is never executed, on databases without versions below -1 |
| Migration.AppliedStepsStayAPrefix | private/migrate/versions.go:153-225 | runs from a prefix execute a contiguous block behind it, so the applied steps stay a prefix, if and only if no lost query is misread |
| MigrationViews.UpToIsPrefix | private/migrate/versions.go:84-93 | for increasing versions the steps up to a version are a prefix |
| MigrationViews.TargetThenFull | private/migrate/versions.go:83-93 | migrating to a version and then fully gives the databases and the executed steps of one full migration, if and (on databases without versions below -1) only if neither run misreads a lost query |
| MigrationViews.ExpectedIsLast | private/migrate/versions.go:126-129 | the expected version of a database is that of the last step on it |
| MigrationViews.RunThenValidate | private/migrate/versions.go:120-150 | after a complete run with any faults the versions match if and only if no database was beyond its last step or kept from it by a lost query, which takes a last version below 0 and a database further below |
| MigrationViews.ValidatedRunsNothing | private/migrate/versions.go:120-189 | whenever the versions match, a run executes no action if and only if it misreads no lost query |
| MigrationViews.ValidationIsExact | private/migrate/versions.go:120-150 | for versions from 0 on validation accepts exactly when the versions match and every one of them is read |
| MigrationViews.LostQueryMayValidate | private/migrate/versions.go:120-150 | with any number of databases, one whose query is lost is accepted at any version if its last step has version -1, and refused otherwise |
| MigrationRunner.ValidateSteps | private/migrate/versions.go:110-118 | accepts exactly strictly increasing versions |
| MigrationRunner.TargetVersion | private/migrate/versions.go:84-93 | the loop keeps exactly the steps up to the version |
| MigrationRunner.Databases.EnsureVersionTable | private/migrate/versions.go:228-238 | creates the version table of one database if it is missing and changes nothing else |
| MigrationRunner.Databases.Run | private/migrate/versions.go:153-225 | the loop leaves databases, executed steps and result as the step machine specifies, and they are what is said of a run step by step; unordered steps are refused without change |
| MigrationRunner.Databases.CurrentVersion | private/migrate/versions.go:279-286 | reads the latest version after making sure that the table exists; failing transactions are errors, a lost query reads as -1 |
| MigrationRunner.Databases.ValidateVersions | private/migrate/versions.go:121-150 | succeeds exactly when the steps are ordered and every database is read to stand at the version of its last step, under any faults; at most version tables are created |
| MigrationRunner.ExpectedVersions | private/migrate/versions.go:126-129 | the filled map holds the expected versions |
| LineBreaking.StepsMakeProgress | cmd/storx-sim/prefix.go:137-185 | every round shortens the buffer for all buffers if and only if maxline is at least 2 |
| LineBreaking.DrainConserves | cmd/storx-sim/prefix.go:137-185 | the pieces, with newlines only where the stream had them, followed by the kept rest are all bytes given |
| LineBreaking.DrainBounds | cmd/storx-sim/prefix.go:141-160 | no piece exceeds maxline or holds a newline; the kept rest has no newline and is shorter than maxline |
| LineBreaking.FlushConserves | cmd/storx-sim/prefix.go:207-252 | a flush emits exactly the buffered bytes in pieces of at most maxline bytes |
| LineBreaking.StepStable | cmd/storx-sim/prefix.go:138-160 | a round that emits does the same when more bytes follow, unless these complete a line of exactly maxline bytes |
| LineBreaking.DrainSplit | cmd/storx-sim/prefix.go:112-185 | writing in two parts equals writing in one, unless the stream has a line piece of exactly maxline bytes |
| LineBreaking.WriteAllIsDrain | cmd/storx-sim/prefix.go:90-188 | any sequence of writes emits and keeps what one write would, under the same condition |
| LineBreaking.HitCanBeCut | cmd/storx-sim/prefix.go:144-150 | a stream with such a piece has a cut after which other lines come out |
| LineBreaking.CuttingIsInvisibleWithoutHit | cmd/storx-sim/prefix.go:90-255 | all ways of cutting a stream into writes and a final flush give the same lines if and only if there is no such piece |
| LineBreaking.HitsAreLines | cmd/storx-sim/prefix.go:144-160 | a stream has such a piece exactly when one of its lines that end in a newline leaves a rest of exactly maxline bytes when it is broken; a line of exactly maxline bytes does |
| LineBreaking.CuttingIsInvisibleExactly | cmd/storx-sim/prefix.go:90-255 | all ways of cutting a stream give the same lines if and only if no line that ends in a newline is such a line |
| LineBreaking.ShortLinesComeOut | cmd/storx-sim/prefix.go:90-255 | when every line stays below maxline, any cutting writes out exactly the lines of the stream, in order |
| LineCuts.DrainCuts | cmd/storx-sim/prefix.go:117-185 | every piece ends at the first newline within maxline bytes, or is broken at the last space of the final third of the window, or just before its end, exactly when there is no such newline in a stream of at least maxline bytes; what is kept is a shorter line without one |
| LineCuts.FlushCuts | cmd/storx-sim/prefix.go:190-240 | a flush cuts whatever is buffered in the same way, and ends it with the rest that fits a line |
| LineCuts.CutsOneWay | cmd/storx-sim/prefix.go:117-185 | there is only one way to cut a stream so |
| PrefixWriter.PrefixWriter.FindBreak | cmd/storx-sim/prefix.go:150-160 | the search loop ends at the last space of the final third of the window, or just before its end when there is none |
| PrefixWriter.PrefixWriter.Write | cmd/storx-sim/prefix.go:90-188 | the loop terminates, emits the specified pieces, keeps the specified rest and keeps conservation and bounds; the pieces cut the buffered stream as described byte by byte |
| PrefixWriter.PrefixWriter.Flush | cmd/storx-sim/prefix.go:191-255 | the loop terminates and empties the buffer; after writes a kept rest comes out as one line |
| ParallelCopy.PartSizeIsLeast | cmd/uplink/cmd_cp.go:309-321 | the computed size is the least multiple of 64 MiB whose 10000-fold exceeds the length; a preferred size is taken exactly when it is no smaller |
| ParallelCopy.UnknownLengthGetsLeast | cmd/uplink/cmd_cp.go:309-321 | a source of unknown length gets parts of 64 MiB or the preferred size when that is no smaller |
| ParallelCopy.PartsFit | cmd/uplink/cmd_cp.go:309-321 | every accepted size, whatever was preferred, needs at most 10000 parts |
| ParallelCopy.Reachable | cmd/uplink/cmd_cp.go:398-467 | in every interleaving the parts handed out are the requested range from its start on, and a committed destination holds finished parts only |
| ParallelCopy.CopyIsExact | cmd/uplink/cmd_cp.go:398-469 | when Commit has happened no part has failed and all are committed; without an outer cancellation its content is the requested range clipped at the end of the source, which then starts within it |
| ParallelCopy.CommittedIsPrefix | cmd/uplink/cmd_cp.go:398-469 | even with an outer cancellation the committed content is a prefix of the requested range |
| ParallelCopy.CancelledCopyMayBeShort | cmd/uplink/cmd_cp.go:423-467 | some run commits something else than the requested range if and only if that range has at least one byte |
| ParallelCopy.FewParts | cmd/uplink/cmd_cp.go:309-462 | with an accepted size no run ever has more than 10000 parts |
| ParallelCopy.LimitsAreKept | cmd/uplink/cmd_cp.go:361-462 | in every run at most as many parts are in flight as the limiter admits, and every part but the last has the full part size |
| ParallelCopy.ReportsWhatItDid | cmd/uplink/cmd_cp.go:459-469 | a copy that is done has no part in flight and reports an error exactly when nothing has been committed |
| ParallelCopy.StepUsesWork | cmd/uplink/cmd_cp.go:398-462 | every step other than an outer cancellation uses up work, so copies end |
| ParallelCopy.NotStuck | cmd/uplink/cmd_cp.go:398-469 | no state before the end is stuck |
| ParallelCopy.RunsToCommit | cmd/uplink/cmd_cp.go:398-469 | every run in which nothing has failed can be carried on to a commit when its range is acceptable |
| ParallelCopy.CommitsExactlyAcceptable | cmd/uplink/cmd_cp.go:398-469 | some uncancelled run commits if and only if the range starts within the source or asks for nothing |
| ParallelCopy.UnharmedCopyCommits | cmd/uplink/cmd_cp.go:398-469 | a run in which nothing fails or is cancelled, once it can go no further, has committed exactly the requested range if that starts within the source (or asks for nothing), and nothing otherwise |
| RangeCopy.MultiReadHandle.NextPart | cmd/uplink/ulfs/handle_generic.go:69-102 | the handle serves the next consecutive range, or the end, or an invalid offset; its sums wrap around like int64 |
| RangeCopy.CutOne | cmd/uplink/cmd_cp.go:398-413 | one round takes the next piece of the range and makes progress |
| RangeCopy.CutParts | cmd/uplink/cmd_cp.go:398-413 | the loop terminates; the data of the parts is the requested range, as many bytes as a positive length that the source can serve; refused exactly when the range starts outside the source |
| RangeCopy.AcceptedSizeCutsFewParts | cmd/uplink/cmd_cp.go:398-405 | with an accepted size the loop cuts at most 10000 parts |
| RangeCopy.ClosedRangeIsCopied | cmd/uplink/cmd_cp.go:346-519 | range `a-b` can be committed if and only if a is not beyond the end; every commit, and every run in which nothing fails, ends with exactly the bytes a to b, clipped, for all 64-bit bounds and all interleavings |
| RangeCopy.SuffixRangeIsCopied | cmd/uplink/cmd_cp.go:508-509 | range `-n` can be committed if and only if n is not beyond the length; every commit, and every run in which nothing fails, ends with exactly the last n bytes, and with the whole source for `-0` |
| RangeCopy.OpenRangeIsCopied | cmd/uplink/cmd_cp.go:510-511 | range `a-` can be committed if and only if a is not beyond the end; every commit, and every run in which nothing fails, ends with exactly the bytes from a on |
| RangeCopy.WholeIsCopied | cmd/uplink/cmd_cp.go:472-480 | without a range the whole source is copied, and that can always be committed |
| ByteRange.PrintedRange | cmd/uplink/cmd_cp.go:472-519 | parsing of any two digit strings around a dash, error cases included |
| ByteRange.ClosedRange | cmd/uplink/cmd_cp.go:510-518 | `a-b` is start a and length b-a+1, refused when a > b; only 0-9223372036854775807 has a length that wraps |
| ByteRange.OpenRange | cmd/uplink/cmd_cp.go:510-511 | `a-` starts at a and is open |
| ByteRange.SuffixRange | cmd/uplink/cmd_cp.go:508-509 | `-n` starts n bytes before the end; `-0` is the whole source |
| ByteRange.SpacesDoNotMatter | cmd/uplink/cmd_cp.go:475-478 | spaces around a range and the unit in front of it do not matter |
| ByteRange.SpacedRange | cmd/uplink/cmd_cp.go:489 | spaces around the bounds do not matter |
| ByteRange.NoRangeIsEverything | cmd/uplink/cmd_cp.go:475-480 | an argument of spaces only, with or without the unit, means everything from the start on |
| ByteRange.RefusedForms | cmd/uplink/cmd_cp.go:480-487 | more than one range and a range without a dash are refused, and nothing else for these reasons |
| ByteRange.RefusedRanges | cmd/uplink/cmd_cp.go:493-505 | a bound that is given and is no int64 numeral is refused |
| Decimal.ParseDec | cmd/uplink/cmd_cp.go:491-503 | the numeral of a number parses back, and is out of range exactly above the int64 maximum |
| Decimal.SignedIsParsed | cmd/uplink/cmd_cp.go:493-505 | a numeral with or without a sign is parsed to its value exactly when that is an int64 |
| Decimal.ParsedIsSigned | cmd/uplink/cmd_cp.go:493-505 | only such numerals are parsed |
| Decimal.LeadingZero | cmd/uplink/cmd_cp.go:493-505 | leading zeros do not matter |
| TypeGraph.ClosedSetHolds | private/apigen/tstypes.go:47-75 | a set closed under edges contains whatever is reachable from it |
| TypeGraph.ReachableIsClosure | private/apigen/tstypes.go:47-80 | what is reachable is the least set with the given types, and with the elements and the field types of everything in it that is no common class |
| TypeGraph.Walker.Walk | private/apigen/tstypes.go:48-75 | the depth-first search terminates on cyclic graphs, sees only reachable types, closes its set under edges, and panics only because of an unsupported type |
| TypeGraph.Walker.WalkFields | private/apigen/tstypes.go:62-65 | the same for the fields of a struct in turn |
| TypeDefinitions.All | private/apigen/tstypes.go:43-86 | each reachable type exactly once, nothing else, sorted by name; a panic exactly when a reachable type is unsupported |
| Sorting.Sort | private/apigen/tstypes.go:81-83 | sorting gives an ordered permutation, for any comparison |
| TypeNames.TypeNameIsKnown | private/apigen/tstypes.go:157-189 | the printed name of a type exists and is a primitive, a common class or a struct of its closure, with brackets for arrays |
| TypeNames.NameIsMeant | private/apigen/tstypes.go:157-189 | the name is that of the type at the end of the pointers, slices and arrays, with one pair of brackets for each slice and array but none for a slice of bytes: string exactly for strings and byte slices, number exactly for integers and floats, boolean exactly for booleans, the name of the struct or of the common class |
| TypeNames.MeantNameIsUnique | private/apigen/tstypes.go:157-189 | a type is meant to have one name only |
| TypeScript.WriteClass | private/apigen/tstypes.go:103-128 | exactly the fields whose json name is not `-` have a line, in order, under that name, with the name that their type is meant to have and no mark; a panic exactly on a field without json declaration |
| TypeScript.Imports | private/apigen/tstypes.go:135-154 | exactly the common classes reached are imported |
| TypeScript.Classes | private/apigen/tstypes.go:102-129 | one class for each struct of the list, in its order, and only for these |
| TypeScript.StructsAreChosen | private/apigen/tstypes.go:95-100 | the filtered types are exactly the structs that are no common classes, once each and in order |
| TypeScript.LinesResolve | private/apigen/tstypes.go:107-127 | every type name on the lines of a struct resolves, and no line is optional |
| TypeScript.MarksAreRight | private/apigen/tstypes.go:121-126 | the optional marks of a class agree with the field types if and only if no printed field may be nil |
| TypeScript.PointerIsNotOptional | private/apigen/tstypes.go:121-126 | the input: a struct with a pointer field is written without the mark |
| TypeScript.NamesStandForStructs | private/apigen/tstypes.go:89-132 | the name of a struct stands for its class alone if and only if no other reachable type brings in the same name |
| TypeScript.Generate | private/apigen/tstypes.go:89-132 | the generated definitions are closed, with one class for every reachable struct, in name order, and nothing else; a panic exactly for unsupported types and undeclared fields; the optional marks are right if and only if no printed field of a reachable struct may be nil; a field prints the name of its struct, and a name stands for that class alone if and only if no other reachable struct, common class or primitive has it |
| Fences.Reachable | cmd/storx-sim/process.go:217-334 | the invariant of all processes and fences holds after every run |
| Fences.FencesAreKept | cmd/storx-sim/process.go:221-318 | a process is launched only after all its fences are released; a finished one has released both of its own; Exited is released exactly by the end of the process, Started exactly by the launch of a process that starts at once, by the answering address of any other, or by its end |
| Fences.FencesTellEvents | cmd/storx-sim/process.go:217-334 | in every run launches, fences and cancellation agree with what has happened; each process waits, is delayed, prepares and starts in this order, gives up waiting only after a cancellation, and exits before it releases Exited and then Started |
| Fences.LaunchComesAfter | cmd/storx-sim/process.go:221-318 | whenever a process is launched, every process whose start it waits for is up by then, and every one whose exit it waits for is over |
| Fences.EveryStageMayFail | cmd/storx-sim/process.go:217-334 | at every stage of every run a process may go on or fail: after its waits it may be delayed to the end, or cut short exactly after a cancellation; prepared or fail to; launched or fail to start; exit; and its address may answer until it is through |
| Fences.NotStuck | cmd/storx-sim/process.go:228-334 | with an acyclic wait graph every reachable state with an unfinished process has an enabled step |
| Fences.EveryRunFinishes | cmd/storx-sim/process.go:217-334 | every step uses up one of finitely many, and a run that can go no further has finished all processes, released all fences and launched exactly the processes with arguments that did not give up |
| Fences.LeavesOnlyByGivingUp | cmd/storx-sim/process.go:221-334 | in every run a process with arguments leaves unlaunched if and only if its waiting or delay was cancelled or it failed to prepare or to start; one without arguments is never launched |
| Fences.CyclesBlock | cmd/storx-sim/process.go:228-233 | without a cancellation processes on a wait cycle never pass their waits |
| Network.Processes.New | cmd/storx-sim/process.go:188-204 | the process is appended to the list without waits |
| Network.Processes.WaitForStart | cmd/storx-sim/process.go:207-209 | the Started fence of the dependency is appended to the waits, and nothing else changes |
| Network.Processes.WaitForExited | cmd/storx-sim/process.go:212-214 | the Exited fence of the dependency is appended to the waits, and nothing else changes |
| Network.Processes.NewRedisServers | cmd/storx-sim/network.go:287-321 | one redis server for each satellite |
| Network.Processes.NewApi | cmd/storx-sim/network.go:325-412 | the API process waits for its redis server, if any, and its migration |
| Network.Processes.NewSatellite | cmd/storx-sim/network.go:325-481 | the seven processes of a satellite, in order, with their waits |
| Network.Processes.NewSatellites | cmd/storx-sim/network.go:323-482 | the processes of all satellites, in order |
| Network.Processes.NewGateways | cmd/storx-sim/network.go:484-498 | a gateway for each satellite, waiting for its start, unless left out |
| Network.Processes.NewStorageNodes | cmd/storx-sim/network.go:593-603 | storage nodes that each wait for the start of all satellites |
| Network.Processes.NewStorageNode | cmd/storx-sim/network.go:593-603 | one storage node with the start of every satellite as its waits |
| Network.Processes.NewNetwork | cmd/storx-sim/network.go:256-680 | exactly the processes a network is meant to have, each once, in order, with exactly the waits they are meant to have; refused exactly above the maximum counts |
| Network.NetworkIsComplete | cmd/storx-sim/network.go:256-680 | exactly the processes a network is meant to have, each once |
| Network.WaitsForNothingElse | cmd/storx-sim/network.go:256-680 | per role: what a process may wait for, and nothing else, nor the same fence twice |
| Network.NetworkIsAcyclic | cmd/storx-sim/network.go:256-680 | the wait graph is acyclic for every number of satellites and nodes |
| Network.MigrationsComeFirst | cmd/storx-sim/network.go:412-481 | per role, at every launch: the migration of its satellite is over before any process of a satellite, the redis server is up before an API process unless it is external, satellite i is up before gateway i, and all satellites before a storage node, where up means that the address has answered or the process starts at once or is through |
| Authorization.PrintedTokenParses | certificate/authorization/authorizations.go:94-118 | a printed token parses back if and only if it has a user ID and data of the right size; user IDs may hold colons |
| Sequences.LastIndexBefore | certificate/authorization/authorizations.go:95 | the last delimiter of two joined strings is the joining one when the second has none |
| Authorization.TokensOnlyGrow | certificate/authorization/db.go:274-284 | over any history the tokens of a group only grow by appending |
| Authorization.ChangesOnlyTheMatch | certificate/authorization/db.go:213-270 | Claim and Unclaim set or remove the claim of the first matching entry and change nothing else; a failure changes nothing |
| Authorization.StaysTaken | certificate/authorization/db.go:213-270 | only an unclaim of the token itself sets a taken token free, and a taken token is not claimed |
| Authorization.StaysOpen | certificate/authorization/db.go:213-270 | only a claim of the token itself closes an open token |
| Authorization.SingleUse | certificate/authorization/db.go:184-272 | between two successful claims of a token in any history lies a successful unclaim of it |
| Authorization.OpKeepsTidy | certificate/authorization/db.go:102-125 | with fresh random data every group keeps holding distinct tokens of its user |
| Authorization.HistoriesStayTidy | certificate/authorization/db.go:102-125 | that holds after every history of operations with fresh random data |
| Authorization.IssuedTokensAreDistinct | certificate/authorization/db.go:102-125 | from an empty store on, no two entries of the whole database ever hold the same token |
| Authorization.CreatesOnlyWhenNoneIsOpen | certificate/authorization/service.go:32-74 | GetOrCreate creates exactly when every token of the user is claimed, and always returns an open token of the stored group |
| AuthorizationResults.ClaimIsAccepted | certificate/authorization/db.go:184-249 | a request with a printed token is accepted if and only if its timestamp is at most five minutes off, its identity is usable and of at least the minimum difficulty, and the first entry with the token is not claimed |
| AuthorizationResults.ReturnedTokenIsAccepted | certificate/authorization/service.go:32-74 | the token returned, printed and sent back, is accepted after any history in which it was not claimed if and only if the request is in time and from a usable identity of sufficient difficulty |
| AuthorizationDB.DB.Add | certificate/authorization/db.go:274-284 | appends to the group of one user |
| AuthorizationDB.DB.Create | certificate/authorization/db.go:102-125 | the loop creates one open entry per random value and appends them to the group of the user, and no other group changes; an empty user and a count below one are refused |
| AuthorizationDB.DB.Claim | certificate/authorization/db.go:184-249 | the checks and the loop leave store and result as the specified claim: a token is claimed exactly when the request is in time, from a usable identity of sufficient difficulty, reads as that token and the token is open; the first entry with it then records address, identity, chain and second of the claim, and nothing else changes; otherwise nothing changes and the first failing condition is reported |
| AuthorizationDB.DB.Unclaim | certificate/authorization/db.go:252-272 | the loop leaves store and result as the specified unclaim, which succeeds for exactly the tokens that are there, claimed or not, and removes the claim of the first entry only |
| AuthorizationDB.Service.GetOrCreate | certificate/authorization/service.go:32-74 | the scan leaves store and result as specified: the first open token, or a new one appended exactly when there is none |
| BinaryPaths.ExtensionMatters | cmd/storagenode-updater/path.go:13-18 | different inserted extensions give different paths |
| BinaryPaths.ExtensionIsInserted | cmd/storagenode-updater/path.go:13-18 | the inserted extension stands behind the directory and the name and in front of the original extension, which is kept |
| BinaryPaths.NamesKeepApart | cmd/storagenode-updater/path.go:13-18 | binaries of one directory whose names differ up to their first dots never share a path |
| BinaryPaths.DirsKeepApart | cmd/storagenode-updater/path.go:13-18 | binaries of different directories never share a path when the inserted extensions have no slash |
| Updater.PathsAreDistinct | cmd/storagenode-updater/update.go:39-65 | location, new path and backup path of an attempt are distinct |
| Updater.NothingIsLost | cmd/storagenode-updater/update.go:16-74 | after every operation of every attempt the location holds a binary that was installed at the start or reported the version of this attempt or an earlier one, or it is empty and such a binary is at a backup path of the attempts made so far, when attempts on other binaries keep apart |
| Updater.EmptyKeepsItsBackups | cmd/storagenode-updater/update.go:17-20 | once the location is empty it stays empty and no later attempt changes or removes a backup, when attempts on other binaries keep apart |
| Updater.NamesMakeApart | cmd/storagenode-updater/path.go:13-18 | attempts keep apart as their binaries are named |
| Updater.LitterBlocksItsVersion | cmd/storagenode-updater/binary.go:102-105 | once a download has been left behind no later attempt at its version changes any file |
| UpdaterRun.FileSystem.Rename | cmd/storagenode-updater/restart.go:22-28 | an atomic rename that replaces its target, or fails without change |
| UpdaterRun.FileSystem.Remove | cmd/storagenode-updater/update.go:45-58 | removes one file or fails without change |
| UpdaterRun.FileSystem.DownloadBinary | cmd/storagenode-updater/binary.go:43-113 | creates the target exclusively; an error may leave something there, an existing target is untouched |
| UpdaterRun.FileSystem.Swap | cmd/storagenode-updater/restart.go:21-31 | both renames, or the state before; the location is empty only when undoing the first rename failed |
| UpdaterRun.FileSystem.RestartService | cmd/storagenode-updater/restart_linux.go:24-43 | the swap with exit or stop; after a failed stop the old binary is back unless that rename fails |
| UpdaterRun.FileSystem.Fetch | cmd/storagenode-updater/update.go:39-58 | a download is accepted exactly when it can be run and reports the wanted version |
| UpdaterRun.FileSystem.Update | cmd/storagenode-updater/update.go:16-74 | the new binary, which reports the offered version, is installed and the old one is beside it under the name of a backup if and only if every check and operation succeeds; otherwise the old one is in place unless undoing failed; up to date exactly when the service offers nothing; the paths of the attempt are the named ones, and every operation on the way is safe; exactly when a failed attempt leaves its download behind |
| UpdaterRun.FileSystem.Install | cmd/storagenode-updater/update.go:37-70 | the part of an attempt that touches files: its result, files and paths for every combination of failures |
| UpdaterRun.RunCycles | cmd/storagenode-updater/loop.go:18-38 | any number of update calls, with any failures, for binaries whose names differ up to the first dot: nothing is lost, judged after every operation by the attempts made so far; an empty location keeps its backups, and a download left behind blocks its version |
| LegacyConfig.LeavesAreExactly | cmd/uplink/external_migrate.go:88-138 | the leaves of the walk are exactly the scalars at the positions of the document, with the keys around them |
| LegacyResults.LeavesAreInOrder | cmd/uplink/external_migrate.go:88-138 | they come in the order of the document, each once |
| LegacyResults.WellFormedExactly | cmd/uplink/external_migrate.go:88-136 | a mapping is well-formed exactly when nowhere in it a mapping has an odd number of nodes, a key is no scalar or a value neither a scalar nor a mapping |
| LegacyConfig.CollectsFaithfully | cmd/uplink/external_migrate.go:108-125 | entries are exactly the leaves that are no access data, in order; each access has the value of the last leaf naming it; the default name is the last one given |
| LegacyConfig.LoadedUnderFullPath | cmd/uplink/external_migrate.go:95-125 | an entry is loaded under the full dotted path of its leaf if and only if the leaf is not right below a single empty key |
| LegacyConfig.MigrationKeepsValues | cmd/uplink/external_migrate.go:74-151 | loading the written entries gives every dotted path the values of its leaves, in order, if and only if no leaf is right below a single empty key |
| LegacyMigration.Parser.Walk | cmd/uplink/external_migrate.go:88-138 | the recursion fails exactly on ill-formed mappings and otherwise collects its leaves in pre-order |
| LegacyMigration.Parser.WalkPair | cmd/uplink/external_migrate.go:99-135 | one key and value: scalar key, and a scalar or a mapping as value |
| LegacyMigration.Parser.TakeScalar | cmd/uplink/external_migrate.go:109-125 | a scalar becomes the default name, an access or an entry |
| LegacyMigration.ParseLegacyConfig | cmd/uplink/external_migrate.go:74-151 | exactly documents with one well-formed mapping are parsed; of their scalars, in order, those keyed `accesses.x`, or x right below `accesses`, give the access x the value of the last of them, the last `access` is the default name, and all others become entries in the section of the keys around them |
| LegacyMigration.CandidatesDiffer | cmd/uplink/external_migrate.go:165-171 | the names tried are all different |
| LegacyMigration.CheckAccessMapping | cmd/uplink/external_migrate.go:153-175 | terminates; returns a name in the map; a missing name is bound to main, or to main-n for the least n from 2 on that is free, and nothing else changes |
| LegacyMigration.CheckTwice | cmd/uplink/external_migrate.go:153-175 | existing entries are untouched, the result names the access, and a second call changes nothing |
| LegacyMigration.MigrateAndLoad | cmd/uplink/external_migrate.go:41-69 | what is found is faithful to the old leaves; the accesses are those found with the default name bound in them, to the empty string when none was given; the new file says what the old leaves said under the condition above |
| ExternalConfig.SplitJoins | cmd/uplink/external_config.go:52-55 | a path split at its last dot joins back if and only if that dot is not its first character |
| ExternalConfig.AddHolds | cmd/uplink/external_config.go:32-38 | reading one more entry keeps the map equal to what the entries say |
| ExternalConfig.MemoryMatchesFile | cmd/uplink/external_config.go:47-77 | what SaveConfig keeps in memory is what loading its file gives if and only if no key has its last dot at index 0 |
| ConfigFile.External.LoadConfig | cmd/uplink/external_config.go:18-45 | every path has exactly the values of the entries under it, in the order of the file; a second call changes nothing, and reports no error even after a broken read |
| ConfigFile.External.SaveConfig | cmd/uplink/external_config.go:49-77 | writes one entry per key, ordered by section and key, and keeps the values; a failed write keeps the old ones |
| ConfigFile.LoadTwice | cmd/uplink/external_config.go:18-45 | a second load reports what the first did if and only if the first could open its file and read it to the end |
| ConfigFile.SaveThenLoad | cmd/uplink/external_config.go:18-77 | a second run loads what the first kept, under the exact condition |
| Address.Hex | private/blockchain/types.go:61-83 | the in-place loop raises exactly the letters whose nibble of the hash is 8 or more |
| Address.ChecksummedSpells | private/blockchain/types.go:61-83 | the checksummed form spells the nibbles of the address |
| Address.HexIsInjective | private/blockchain/types.go:61-83 | different addresses never print alike, for any hash function |
| Address.DigitsAreInOrder | private/blockchain/types.go:61-83 | digits stand for the nibbles in their usual order, in either case when read |
| Address.HashHexSpells | private/blockchain/types.go:35-40 | a hash prints its nibbles in lower case |
| Address.Decode | private/blockchain/types.go:113-115 | the decoding loop stores pair after pair: which bytes are stored, and which error or panic follows, for every input |
| Address.UnmarshalHexString | private/blockchain/types.go:103-126 | a non-string is refused without change; otherwise the digits behind an optional prefix are decoded as above |
| Address.LengthIsNotChecked | private/blockchain/types.go:103-115 | decoding panics exactly when more pairs of digits lead the input than fit, succeeds exactly for an even number of digits that fit, and sets every byte exactly when there are two digits for each |
| Address.ReportsFirstBadByte | private/blockchain/types.go:113-115 | the first byte that is no digit is reported, unless the room is used up before it |
| Address.PrefixIsOptional | private/blockchain/types.go:107-111 | digits decode alike with and without a prefix |
| Address.SpellingDecodes | private/blockchain/types.go:103-115 | a prefixed string decodes to some bytes exactly when it spells them, in any case of the letters |
| Address.ChecksumIsNotVerified | private/blockchain/types.go:103-115 | a spelling with a wrong checksum is accepted for exactly the addresses with a letter among their digits |
| Address.PrintThenParse | private/blockchain/types.go:61-94 | unmarshalling the quoted print of an address gives the address back |

## Left out

- Peer constructors, commands, servers, dashboards, RPC clients and generated protobuf code: wiring without a law of its own.
- The limit option of store iterators: the iterator is not cut off at it, since ListV2 reads past it; callback errors of ListV2Iterate, and the reuse of the item it passes.
- Stores that change while they are listed: the cursor's repositioning is not modelled.
- SQL, transactions, base58, protobuf, ini, YAML and Keccak themselves: they appear as atomic steps, as functions with stated contracts or as values.
- MigrationRunner.Databases.Run: an action only changes its own database, and CreateDB only opens or fails to open it. An action that fails after a lost query leaves what a failed query transaction leaves, and has no fault of its own.
- MigrationRunner.Databases.ValidateVersions: a missing database handle makes the original panic, so steps without one are excluded.
- The prefix, id and time columns of the prefix writer, write errors of its destination, and several writers sharing one destination.
- RangeCopy.MultiReadHandle.NextPart: a failing length query and the standard-input and remote handles are not modelled.
- ParallelCopy.UnharmedCopyCommits: copies are taken with a part size that keeps the source length plus one part within int64. Preferred part sizes near 2^63 are accepted too; there the sum of offset and part size may wrap around, and the handle then hands out a part that is not clipped and refuses the next one (ParallelCopy.PartIsClipped).
- RangeCopy.CutParts: follows the loop without failures or cancellation; those are covered by the transition system of ParallelCopy.
- Read buffers, progress bars, and Abort after an error in parallelCopy.
- TypeScript.Generate: the text layout and the order of imports are not modelled; a pure pointer, slice or array cycle is excluded, where the original does not end.
- Fences.EveryRunFinishes: a launched command is taken to end at some time, and an address to answer or time out.
- Network.Processes.NewNetwork: malformed database URLs, missing executables and failing directories, which also end newNetwork with an error, are left out, as are arguments, ports and directories.
- Concurrent callers of the authorization database, whose read and write are not atomic: histories are of one operation after another. Failing stores and random sources.
- AuthorizationDB.DB.Claim: request timestamps beyond the range of Go's time values are not modelled.
- BinaryPaths.ExtensionMatters: paths are taken as clean, so the cleaning that joining does has no effect.
- UpdaterRun.RunCycles: binaries whose paths may meet are left out: two of one directory that share the name up to the first dot, and two of different directories when an offered version holds a slash.
- UpdaterRun.FileSystem.Update: the version service's decision is a parameter, versions are compared by their three numbers, and the temporary archive is not modelled. The Windows variant of restarting is left out.
- LegacyMigration.MigrateAndLoad: the access file, directories and the flags that make the migration run once are left out, as are write errors.
- Address.Hex: the hash function is any function with 32-byte results on the printed digits.
- Marshalling of authorization groups, GroupByClaimed, and the slice helpers of the storage package.
- The revocation store, permission flags, dates, currencies and usage caches: they would only add easy members.
