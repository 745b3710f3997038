# A verified model of the WAL spool, the calendar, the build-time parsers and the packing of backups

This project models the parts of pgBackRust, a backup tool for PostgreSQL, in
which mistakes lose data or stay unseen:

* **`archive-push` and `archive-get`.** A push stages a WAL segment in the
  spool's `out/` directory, drains the whole backlog into every repository and
  answers by way of `.ok` and `.error` files; a get serves segments that were
  pre-fetched into `in/` under a byte cap shared by parallel workers.
  `DrainMachine`, `PushMachine`, `QueueCap` and `ArchiveGet` are state machines
  over single storage operations, any of which may fail or be the last one;
  `QueueRoom` says when the cap leaves nothing out without need.
  `Archiver` and `Restorer` are the commands as methods on the spool and the
  repositories. Every change they make is recorded as one machine step, so what
  is proved of all histories holds of them wherever they stop: `HostIsSafe` for
  pushes and drains, `SpoolIsTrue` for gets and pre-fetches.
* **Time stamps and segment names.** `Calendar` proves the conversion of epoch
  days to civil dates against the Gregorian calendar, `Timestamp` the text made
  of it, `WalWindow` the look-ahead window and the least and greatest name of an
  archive.
* **Texts read at build time.** `Mappings` and `YamlRewrite` are the rewriter
  that makes `config.yaml` free of duplicate keys, `ErrorTable` the reader of
  `error.yaml`, `ErrorTypes` the generated walk along parents, and `HelpXml`,
  `HelpParser` and `HelpReader` the parser of the help document.
* **Storage layout.** `BundlePacker` packs small files into bundles;
  `BlockPolicy` chooses block sizes and splits files.

Code that changes state in the source is a method with loops, a class or an
array here, each with a contract that ties it to a function or a machine whose
properties are then proved as lemmas.

Assumptions of the spool models: a WAL name always carries the same bytes (what
happens otherwise is `ArchiveGet.StaleForm`); segment names do not end in `.ok`
or `.error`; repositories never lose files; the spool starts empty; one storage
operation is atomic; undoing a repository's transform restores its input
(`Wal.Lossless`). Where the code differs from its own comments the code is
modelled: the walk along parents can run forever on a table that passes the
build script's check, and a bundle cap of zero does not give one file per
bundle, since it counts as one byte, which an empty file and an empty or
one-byte neighbour do not exceed (`BundlePacker.OnePerBundleExactlyWhen`).

Where the code keeps its promise on some inputs only, the exact condition is
proved: `Mappings.NoDuplicatesExactlyWhenApart` and
`Mappings.IdempotentExactlyWhenApart` for the rewriter,
`QueueCap.NobodyTurnedAwayExactlyWhenAllFit` and
`QueueRoom.FittingNeverTurnedAwayExactlyWhen` for the pre-fetch under a limit,
`HelpXml.StopsExactlyWhenCalm` for nested elements,
`ErrorTypes.EveryWalkEndsExactlyWhenLoopsInTime` for the walk along parents,
`Timestamp.TextOrderExactlyWhen` for the order of time stamps in all years.

## Model

| member | source | states |
|---|---|---|
| `DrainMachine.StepKeepsAccount` | crates/pgbr-command/src/archive.rs:1143-1192 | Whatever storage operation a drain makes next, in any interleaving of segments and targets, the disk stays what the disk before the drain and each segment's own progress determine: no operation touches what another segment's left behind |
| `DrainMachine.RunAccounted` | crates/pgbr-command/src/archive.rs:1175-1191 | The same at every point of every run, with failure a fixed function of segment and target: only failing segments are marked failed, no copy is made where it fails |
| `DrainMachine.CompleteRunOutcome` | crates/pgbr-command/src/archive.rs:1143-1192 | The disk at the end of a complete drain in closed form: a segment stays staged exactly when it fails at some target, it has an `.ok` exactly when it fails at none, an `.error` exactly when it fails at some, every repository has every copy of the segments that fail nowhere, and a repository differs otherwise at most in partial copies of failed segments |
| `DrainMachine.OrderDoesNotMatter` | crates/pgbr-command/src/archive.rs:1205-1294 | Any two complete runs, serial or by workers per segment or per target, end with the same staged set, the same kind of status for every segment and the same copies of every segment that fails nowhere |
| `DrainMachine.NeverStuck` | crates/pgbr-command/src/archive.rs:1356-1422 | From every point of every run that is not complete some step can be taken |
| `DrainMachine.StepLowers` | crates/pgbr-command/src/archive.rs:1143-1192 | Every step, a failure included, leaves less for the drain to do |
| `DrainMachine.RunsToCompletion` | crates/pgbr-command/src/archive.rs:1356-1422 | So every run, from wherever it has come to, goes on to a complete one under the same failures |
| `DrainMachine.UnderwayIsRun` | crates/pgbr-command/src/archive.rs:1143-1192 | A drain that recorded which copies failed is a run of the machine under exactly these failures |
| `DrainMachine.UnderwayOutcome` | crates/pgbr-command/src/archive.rs:1143-1192 | When it is complete the disk is, in the closed form, what these failures make of the disk before it |
| `DrainMachine.ArchivedAreGone` | crates/pgbr-command/src/archive.rs:1175-1191 | When it is complete the archived segments are exactly those that were staged before it and are no longer |
| `PushMachine.StepKeepsSafe` | crates/pgbr-command/src/archive.rs:703-845 | Every step of a push or drain, and a stop at any step, keeps: an accepted segment is staged or in every repository, an `.ok` means every repository holds the segment, and so does a success that was reported |
| `PushMachine.DrainStepKeepsSafe` | crates/pgbr-command/src/archive.rs:1313-1343 | The same for one storage operation of a drain, with what the progress of each segment stands for |
| `PushMachine.StepKeepsFaithful` | crates/pgbr-command/src/archive.rs:857-871 | Every staged copy carries the segment's content, and every repository copy decodes to it |
| `PushMachine.ReposNeverShrink` | crates/pgbr-command/src/archive.rs:839-844 | No step removes a file from a repository |
| `PushMachine.HistorySafe` | crates/pgbr-command/src/archive.rs:703-845 | From an empty spool, after any history of synchronous and asynchronous pushes, drains, leftover statuses and stops between any two storage operations, all of this holds |
| `PushMachine.SuccessMeansStored` | crates/pgbr-command/src/archive.rs:746-752 | A push that reports success leaves the segment in every repository, then and ever after, or was dropped because the backlog that its own limit speaks of, measured then, had reached that limit |
| `PushMachine.AcksLast` | crates/pgbr-command/src/archive.rs:903-929 | A reported success stays reported |
| `PushMachine.HistoryHandshake` | crates/pgbr-command/src/archive.rs:793-820 | While a push waits for its own drain, the statuses of its segment tell exactly what this drain has done with it |
| `PushMachine.DrainAlwaysAnswers` | crates/pgbr-command/src/archive.rs:817-824 | After its drain a push always finds exactly one status: `.ok` with the segment in every repository, or `.error` with the staged copy kept; looking into the repositories as a last resort is never reached in a history of one host |
| `PushMachine.BacklogGrows` | crates/pgbr-command/src/archive.rs:454-470 | A staged segment adds its size to the backlog of the spool, a status nothing |
| `PushMachine.SegmentsAreHexNames` | crates/pgbr-command/src/archive.rs:427-452 | The files of a WAL directory that count are those whose names are exactly 24 hex digits |
| `Archiver.Archiver.constructor` | crates/pgbr-command/src/archive.rs:703-711 | A host begins with an empty spool and the repositories it was given |
| `Archiver.Archiver.CopyTo` | crates/pgbr-command/src/archive.rs:1333-1341 | One copy to one target: the job's progress gains exactly this target, or is marked failed; nothing else about the drain changes |
| `Archiver.Archiver.DrainOneSerial` | crates/pgbr-command/src/archive.rs:1313-1343 | The targets in order: success exactly when nothing failed, and then every target has the copy; the spool is untouched |
| `Archiver.Archiver.DrainOnePooled` | crates/pgbr-command/src/archive.rs:1356-1422 | The targets in any order, all of them tried: success exactly when nothing failed, and then every target has the copy |
| `Archiver.Archiver.SendToAll` | crates/pgbr-command/src/archive.rs:1391-1422 | The copies of one segment in any order, none left out after a failure |
| `Archiver.Archiver.Settle` | crates/pgbr-command/src/archive.rs:1180-1187 | A segment in every repository loses its staged copy and gains `.ok`; a failed one keeps it and gains `.error` |
| `Archiver.Archiver.ListStaged` | crates/pgbr-command/src/archive.rs:1152-1161 | The segments staged, each once, no status among them |
| `Archiver.Archiver.DrainAndSettle` | crates/pgbr-command/src/archive.rs:1176-1189 | One round of the loop settles one more segment, counts it exactly when it was archived, and leaves the other staged copies alone |
| `Archiver.Archiver.DrainSerial` | crates/pgbr-command/src/archive.rs:1175-1191 | The serial drain: whatever failed, each listed segment is rejected exactly when a copy of it is blamed and else archived everywhere, the disk is the closed form for exactly these failures, and every segment that is not archived cost an operation that failed; the count is of the archived |
| `Archiver.Archiver.DrainEach` | crates/pgbr-command/src/archive.rs:1175-1191 | The loop of it: the ledger of settled and archived segments is true after each of them |
| `Archiver.Archiver.DrainPool` | crates/pgbr-command/src/archive.rs:1205-1294 | The drain by workers promises the same as the serial one, after faults as without |
| `Archiver.Archiver.SettleAll` | crates/pgbr-command/src/archive.rs:1279-1293 | The workers' results, settled in any order: a segment is archived exactly when its worker reported success and rejected otherwise, and the counts of both add up |
| `Archiver.Archiver.SettleEach` | crates/pgbr-command/src/archive.rs:1279-1293 | The loop of it, after each result taken from the pool |
| `Archiver.Archiver.RunWorkers` | crates/pgbr-command/src/archive.rs:1254-1272 | Workers let go on in any order by one operation at a time all end; one reports success exactly when every target has its segment, and no more report failure than operations failed |
| `Archiver.Archiver.CopyTick` | crates/pgbr-command/src/archive.rs:1265-1270 | One worker's next copy keeps every worker's account and brings the end nearer |
| `Archiver.Archiver.DrainOut` | crates/pgbr-command/src/archive.rs:1163-1173 | Serial or by workers, the drain completes with the same promise |
| `Archiver.Archiver.DrainPushSpool` | crates/pgbr-command/src/archive.rs:1092-1121 | A drain on its own, of whatever backlog there is: the disk after it is the disk before it with every segment whose copies did not fail archived, and the others kept with an `.error`; the count is of the segments that are no longer staged, and no more are kept than operations failed |
| `Archiver.Archiver.MeasureBacklog` | crates/pgbr-command/src/archive.rs:436-470 | The bytes staged, statuses not counted, for an asynchronous push, and those of the files named like segments in the WAL directory for a synchronous one; nothing when the listing fails |
| `Archiver.Archiver.ConsumeStatus` | crates/pgbr-command/src/archive.rs:912-929 | A leftover `.ok` is removed and answers success, else a leftover `.error` is removed and answers failure, else nothing changes |
| `Archiver.Archiver.Push` | crates/pgbr-command/src/archive.rs:703-845 | The command: success only if every repository holds the segment or the backlog had reached the limit; a synchronous push, however it ends, leaves its copies in the first repositories and nothing else; without a fault the answer, what is left in `out/` and every file of every repository are determined: the segment and the backlog in the form of the push's own suffix, every other file as it was |
| `Archiver.Archiver.PushAsync` | crates/pgbr-command/src/archive.rs:783-825 | The asynchronous half of it: a leftover status answers, else the segment is staged, the whole backlog drained into every repository in the form of the suffix, and the drain's own status answers |
| `Archiver.Archiver.StageAndDrain` | crates/pgbr-command/src/archive.rs:800-824 | Without a fault everything staged, the segment with it, is archived in this one call, in every repository under its own transform |
| `Archiver.Archiver.DrainAndConfirm` | crates/pgbr-command/src/archive.rs:812-824 | Without a fault the drain answers success and takes the answer away |
| `Archiver.Archiver.DrainBacklog` | crates/pgbr-command/src/archive.rs:812-817 | Without a fault the backlog is in every repository and each segment has left an `.ok` for itself |
| `Archiver.EverythingDrained` | crates/pgbr-command/src/archive.rs:1143-1192 | A drain in which nothing failed leaves exactly the staged segments' copies in every repository |
| `Archiver.Archiver.Confirm` | crates/pgbr-command/src/archive.rs:817-824 | The answer after the drain: with an `.ok` and no fault success, and the `.ok` is gone |
| `Archiver.Archiver.ConfirmInAllRepos` | crates/pgbr-command/src/archive.rs:886-903 | Success only if every repository holds the segment, and exactly then without a fault |
| `Archiver.Archiver.PushSync` | crates/pgbr-command/src/archive.rs:827-844 | The synchronous half: success means every repository has exactly this copy added, and comes exactly when the header matches if nothing fails |
| `Archiver.Archiver.CopyNow` | crates/pgbr-command/src/archive.rs:838-844 | One repository's copy of it: the repository gains exactly this file, or the push ends with nothing changed |
| `Archiver.HostIsSafe` | crates/pgbr-command/src/archive.rs:703-845 | After every storage operation that the methods of a host have recorded, in the middle of a call as well as at its end, no accepted segment is lost, no `.ok` and no reported success is false, and every copy decodes |
| `QueueCap.StepKeepsCounter` | crates/pgbr-command/src/archive.rs:1920-1923 | The shared counter is the backlog and every addition not taken back, through adds, checks, roll-backs and writes in any order, without wrapping |
| `QueueCap.StepKeepsPassing` | crates/pgbr-command/src/archive.rs:1922 | What the check lets through fits the limit together with the backlog |
| `QueueCap.StepKeepsInv` | crates/pgbr-command/src/archive.rs:1915-1934 | Counter and passing sum, what it means to be turned away, and that the spool holds no more than at the start and what was published |
| `QueueCap.StepKeepsTurned` | crates/pgbr-command/src/archive.rs:1920-1927 | If somebody is turned away then somebody is for whom there is no room beside what is let through |
| `QueueCap.RunInv` | crates/pgbr-command/src/archive.rs:1811-1939 | The same at every point of every interleaving of any number of workers |
| `QueueCap.CapIsKept` | crates/pgbr-command/src/archive.rs:1915-1928 | The counter's start and the published bytes never exceed the limit, or that start where it was over it; so the spool stays within the limit, or what it held, when it could be listed, and exceeds what it held by at most the limit when it could not |
| `QueueCap.CounterAtEnd` | crates/pgbr-command/src/archive.rs:1843 | When all workers have ended the counter is the backlog, the published bytes and the bytes of failed writes, nothing else |
| `QueueCap.FittingSegmentTurnedAway` | crates/pgbr-command/src/archive.rs:1915-1928 | The cap is not tight: with a limit of one byte two workers turn each other away although one segment of one byte would have fitted |
| `QueueRoom.FittingNeverTurnedAwayExactlyWhen` | crates/pgbr-command/src/archive.rs:1915-1928 | In no run is a worker turned away whose segment has room beside what is let through exactly when, beside whatever segments, there is room for all others alike or for none |
| `QueueRoom.OneSizeNeverTurnsAwayFitting` | crates/pgbr-command/src/archive.rs:1915-1928 | So with segments of one size, as full WAL segments are, none is |
| `QueueRoom.TurnedHaveNoRoom` | crates/pgbr-command/src/archive.rs:1922-1927 | Where there is room for all or none of the segments there are, nobody who is turned away has room |
| `QueueRoom.FittingTurnedAway` | crates/pgbr-command/src/archive.rs:1915-1928 | Where there is room for one and not for another, a run in which the other one turns it away |
| `QueueRoom.SomebodyHasNoRoom` | crates/pgbr-command/src/archive.rs:1920-1927 | In every run and without any condition: when somebody is turned away, somebody turned away has no room |
| `QueueCap.NobodyTurnedAwayExactlyWhenAllFit` | crates/pgbr-command/src/archive.rs:1915-1928 | No run turns a worker away exactly when the backlog and all segments together fit the limit |
| `QueueCap.StepKeepsBumped` | crates/pgbr-command/src/archive.rs:1920-1923 | Every addition saw at most the backlog and the segments added before it |
| `QueueCap.SomebodyTurnedAway` | crates/pgbr-command/src/archive.rs:1915-1928 | Where they do not all fit, a run that turns the last worker away |
| `ArchiveGet.CacheIsTransparent` | crates/pgbr-command/src/archive.rs:1666-1682 | After any sequence of prefetches, gets and pushes over repositories that never shrink, a segment in `in/` is what a synchronous get would deliver, and that is its content |
| `ArchiveGet.StepKeepsCache` | crates/pgbr-command/src/archive.rs:1758-1790 | Each prefetch, from whatever stored form it sees, each get and each push keeps that |
| `ArchiveGet.FaithfulFetch` | crates/pgbr-command/src/archive.rs:1626-1654 | From a repository with faithful copies a get delivers the content, whatever form is probed first |
| `ArchiveGet.FormsInOrder` | crates/pgbr-command/src/archive.rs:1635-1646 | The plain copy is served if there is one, then the forms in the order gz, zst, bz2, lz4 |
| `ArchiveGet.GetAfterPushes` | crates/pgbr-command/src/archive.rs:1635-1651 | After any list of pushes under any codecs a get delivers the last push in the stored form that is probed first, and finds nothing exactly when the name was never pushed |
| `ArchiveGet.DeliveredExactlyWhenLast` | crates/pgbr-command/src/archive.rs:1635-1651 | A get delivers given bytes exactly when they were the last pushed under the form that is probed first |
| `ArchiveGet.RoundTrip` | crates/pgbr-command/src/archive.rs:314-318 | Where a name always carries the same bytes, a get from the repository returns the bytes pushed |
| `ArchiveGet.StaleForm` | crates/pgbr-command/src/archive.rs:1636-1648 | A later push under another codec can stay unseen behind an earlier plain one |
| `Restorer.Restorer.Find` | crates/pgbr-command/src/archive.rs:1597-1607 | The stored form found is the one probed first of those there are; none is found exactly when there is none |
| `Restorer.Restorer.ReadFrom` | crates/pgbr-command/src/archive.rs:1626-1654 | One repository's answer: the decoded bytes of that form, or not found |
| `Restorer.Restorer.Pass` | crates/pgbr-command/src/archive.rs:1555-1560 | The first repository that holds the segment answers; no answer exactly when none holds it |
| `Restorer.Restorer.FetchWithRetry` | crates/pgbr-command/src/archive.rs:1544-1592 | What a fetch from the repositories as they were says, or if none held it, from the repositories as they are after the pause, which is made exactly then and only with the retry; a missing history file is no error |
| `Restorer.NobodyHas` | crates/pgbr-command/src/archive.rs:1574-1591 | What no repository has is no error if its name ends in `.history`, and else it is not found |
| `Restorer.Restorer.Get` | crates/pgbr-command/src/archive.rs:1455-1529 | An asynchronous get serves and consumes the pre-fetched copy, even where no repository has an `archive.info`; any other get fetches and leaves the spool alone, or finds nothing without an `archive.info`; nothing is looked up with the stop file there or without a repository. Where the repositories have always been faithful, asynchronous or not, the answer is that of the repositories |
| `Restorer.Restorer.ServeFromSpool` | crates/pgbr-command/src/archive.rs:1666-1682 | The pre-fetched copy is delivered and removed, and is what the repositories would answer |
| `Restorer.CachedIsFetched` | crates/pgbr-command/src/archive.rs:1666-1682 | A copy in a spool reached by recorded steps is what a fetch delivers now |
| `Restorer.SpoolIsTrue` | crates/pgbr-command/src/archive.rs:1666-1792 | After every step that the methods of a restore have recorded, in the middle of a pre-fetch too, each copy in `in/` carries its content and is what a fetch would deliver |
| `Restorer.Restorer.PrefetchSerial` | crates/pgbr-command/src/archive.rs:1758-1792 | What is staged is what the repository says of the held segments among the first ones asked for, in their order; only the limit or a failure ends it before the last; the limit is overshot by less than the last segment, and by what the spool held where it could not be listed; the count is theirs |
| `Restorer.Restorer.PrefetchPool` | crates/pgbr-command/src/archive.rs:1811-1945 | By workers the spool never exceeds the limit or what it held, or both together where it could not be listed; each segment staged is what the files seen say and the count is theirs; failures apart, a held segment is left out only by being turned away, then one turned away has no room beside what was published, and none has where there is room for all or none; nothing is left out without a limit or where all fit it |
| `Restorer.Restorer.Measure` | crates/pgbr-command/src/archive.rs:475-491 | The bytes the spool holds, or nothing when it cannot be listed |
| `Restorer.Restorer.LookUp` | crates/pgbr-command/src/archive.rs:1885-1902 | The files the workers see: all of the repository but those that cannot be looked at, which are taken for absent |
| `Restorer.Restorer.WorkerGoesOn` | crates/pgbr-command/src/archive.rs:1865-1940 | The next operation of a worker keeps every worker's account and brings the end nearer |
| `Restorer.PoolEnds` | crates/pgbr-command/src/archive.rs:1915-1945 | What it means for the spool that all workers have ended |
| `Restorer.Restorer.WorkerReads` | crates/pgbr-command/src/archive.rs:1889-1921 | A worker's fetch and its addition to the counter keep every worker's account |
| `Restorer.Restorer.WorkerChecks` | crates/pgbr-command/src/archive.rs:1922-1927 | So does its check, which takes back exactly its own addition |
| `Restorer.Restorer.WorkerWrites` | crates/pgbr-command/src/archive.rs:1933-1938 | So does its write |
| `WalNames.SpoolTextUnique` | crates/pgbr-command/src/archive.rs:381-390 | Two files of `out/` have one name only if they are one file, or a segment is named like a status |
| `WalNames.StatusTextTellsApart` | crates/pgbr-command/src/archive.rs:1157-1159 | The listing skips exactly the statuses, as long as no segment is named like one |
| `WalNames.RepoTextUnique` | crates/pgbr-command/src/archive.rs:839 | Two repository files have one name only if they are one file, or a segment is named like a compressed one |
| `WalNames.EndingTellsForm` | crates/pgbr-command/src/archive.rs:82 | The ending of a stored name tells its form, and taking it off gives the segment's name |
| `Calendar.CivilIsDayNumber` | crates/pgbr-command/src/info.rs:468-483 | For every day the computed year, month and day are a date of the Gregorian calendar (section 3.2.1 of ISO 8601:2004) whose day number is that day |
| `Calendar.DayNumberIsCivil` | crates/pgbr-command/src/info.rs:474-483 | Every date of the calendar is computed from its day number |
| `Calendar.CivilFollowsCalendar` | crates/pgbr-command/src/info.rs:468-483 | Day 0 is 1970-01-01 and day n + 1 is the calendar's successor of day n |
| `Calendar.DayNumberOrders` | crates/pgbr-command/src/info.rs:474-483 | Dates are ordered as their day numbers |
| `Calendar.NextDayCountsOne` | crates/pgbr-command/src/info.rs:474-483 | The successor of a date counts one day more |
| `Calendar.YearOfEra` | crates/pgbr-command/src/info.rs:477 | The year within the era is right for every day of the era, leap days of all four kinds included |
| `Calendar.MonthOfYear` | crates/pgbr-command/src/info.rs:480-481 | Month and day are right for every day of a year counted from March |
| `Calendar.NoOverflow` | crates/pgbr-command/src/info.rs:468-483 | For every 64-bit epoch no intermediate value leaves 64 bits, and each is in the range the comments give |
| `Timestamp.RoundTrip` | crates/pgbr-command/src/info.rs:468-486 | In years 0 to 9999 the text has 24 characters and reads back as the same second |
| `Timestamp.FormatIs` | crates/pgbr-command/src/info.rs:468-486 | Every second of every date of the calendar is written as the year, month and day, the hour, minute and second, and `+0000`, with their separators |
| `Timestamp.TextOrderIsTimeOrder` | crates/pgbr-command/src/info.rs:485 | In years 0 to 9999 texts are ordered as the instants, and equal only for one instant |
| `Timestamp.FiveDigitYearBreaksOrder` | crates/pgbr-command/src/info.rs:485 | Between years 9999 and 10000 the order of the texts is not that of the instants |
| `Timestamp.NegativeYearsReverseOrder` | crates/pgbr-command/src/info.rs:485 | Of two instants in different years from -999 to 9999 the texts are in order exactly when the later year is not negative; between negative years they are in reversed order |
| `Timestamp.TextOrderExactlyWhen` | crates/pgbr-command/src/info.rs:468-486 | For all instants: of two the later has the later text exactly when their years are the same, or the earlier year alone is negative, or neither is and the earlier is at most the first digits of the later, as many as it has itself, or both are and without its sign the later exceeds the first digits of the earlier, as many as it has itself |
| `Timestamp.SameYearInOrder` | crates/pgbr-command/src/info.rs:485 | Within any year, of either sign and any length, texts are ordered as the instants |
| `FixedWidth.NumbersBeforeHyphen` | crates/pgbr-command/src/info.rs:485 | Numbers of any lengths before a hyphen are ordered by their first digits |
| `WalWindow.WindowIsNextSegments` | crates/pgbr-command/src/lib.rs:306-329 | The window is exactly the names of the next `ahead` segments of the timeline, across the roll-over of the low half; it is empty for a name that is not a segment's and when the last one has no 32-bit high half |
| `WalWindow.NextSegment` | crates/pgbr-postgres/src/lsn.rs:167-181 | The next number steps the low half, or rolls it over into the high half after 255 |
| `WalWindow.RangeOfNumbers` | crates/pgbr-postgres/src/lsn.rs:156-185 | The names between two segment names are those of the numbers between them |
| `WalWindow.RangeExactlyWhen` | crates/pgbr-postgres/src/lsn.rs:156-185 | There is a range exactly between two names of one timeline in their order, as far as the high halves have 32 bits |
| `WalWindow.NameRead` | crates/pgbr-postgres/src/lsn.rs:127-135 | A formatted segment name parses to its three parts |
| `WalWindow.SegmentNamesAreHex` | crates/pgbr-postgres/src/lsn.rs:127-135 | The names that parse are those of exactly 24 hex digits of either case |
| `WalWindow.NameOrder` | crates/pgbr-command/src/info.rs:336-338 | Segment names are ordered as timeline, high half and low half |
| `WalWindow.WindowIncreases` | crates/pgbr-command/src/lib.rs:328 | The names of the window strictly increase |
| `WalWindow.WindowFollowsRequest` | crates/pgbr-command/src/lib.rs:316-319 | They all come after the requested name, whatever its low half |
| `WalWindow.Sort` | crates/pgbr-command/src/info.rs:336 | The names sorted in place: a permutation, ascending |
| `WalWindow.ScanWalRange` | crates/pgbr-command/src/info.rs:303-341 | The least and the greatest stripped name of the files listed; none when no file is |
| `WalWindow.StrippedIs` | crates/pgbr-command/src/info.rs:320-332 | Each of the four compression suffixes comes off once, and any other name stays as it is |
| `WalWindow.RangeEndsAreSegments` | crates/pgbr-command/src/info.rs:336-338 | In a listing of segments the ends are the earliest and the latest segment |
| `FixedWidth.DigitsOrdered` | crates/pgbr-command/src/lib.rs:326-327 | Digits of fixed width are ordered as the numbers |
| `FixedWidth.DigitsRead` | crates/pgbr-command/src/lib.rs:326-327 | Digits of fixed width read back as the number |
| `FixedWidth.ValueExactly` | crates/pgbr-postgres/src/lsn.rs:127-135 | What is read as a number is exactly what consists of digits, hexadecimal ones of either case |
| `FixedWidth.PaddedIsDigits` | crates/pgbr-command/src/info.rs:485 | Zero padding a number that fits gives its fixed-width digits |
| `Mappings.GroupIsMapping` | crates/pgbr-build/src/config.rs:318-324 | The lines collected for a key are exactly those entries of one mapping that have the key, in order |
| `Mappings.RewriteHasNoDuplicates` | crates/pgbr-build/src/config.rs:281-338 | Where every dropped line is a leaf, no mapping of the rewritten text has a key twice (section 3.2.1.1 of YAML 1.2) |
| `Mappings.NoDuplicatesExactlyWhenApart` | crates/pgbr-build/src/config.rs:281-338 | No mapping of the rewritten text has a key twice exactly when between every two lines that stay and have one indent and one key there stays a line that is less deep |
| `Mappings.LeavesStayApart` | crates/pgbr-build/src/config.rs:326-336 | Dropping only leaves is one such case |
| `Mappings.LeavesAreNotNeeded` | crates/pgbr-build/src/config.rs:326-336 | And not the only one |
| `Mappings.MappingsNotJoined` | crates/pgbr-build/src/config.rs:326-336 | Where every dropped line is a leaf, entries are of one mapping after the rewriting exactly when they were of one before |
| `Mappings.EveryKeyStays` | crates/pgbr-build/src/config.rs:350-384 | Each key stays exactly once: entries of a key with a plus or a minus between which there are only blanks and comments as one list at the place of the first, which reads back as all their values in order; any other at the place of its last with its last value |
| `Mappings.ListReadsBack` | crates/pgbr-build/src/config.rs:371-374 | A merged list, split again between its brackets at each comma with a blank, gives its values exactly when none of them holds a comma with a blank |
| `Mappings.GroupKeepsOne` | crates/pgbr-build/src/config.rs:371-382 | Of two entries with one key in one mapping at least one is dropped |
| `Mappings.RewriteOfCleanIsSame` | crates/pgbr-build/src/config.rs:352-354 | With no key twice in a mapping every line stays as it is |
| `Mappings.RewriteIsIdempotent` | crates/pgbr-build/src/config.rs:281-338 | Where every dropped line is a leaf, rewriting again changes nothing |
| `Mappings.FixedExactlyWhenClean` | crates/pgbr-build/src/config.rs:281-338 | A text is left as it is exactly when no mapping of it has a key twice |
| `Mappings.IdempotentExactlyWhenApart` | crates/pgbr-build/src/config.rs:281-338 | Rewriting again changes nothing exactly when the lines that stay are apart in the sense above |
| `Mappings.BlocksLeftBehind` | crates/pgbr-build/src/config.rs:378-382 | A text whose dropped line leaves its block behind, which joins the mapping before it: a key is repeated there, and rewriting again changes the text |
| `YamlRewrite.ParseKvLine` | crates/pgbr-build/src/config.rs:389-409 | The entry of a line: indent, key up to the first colon before a blank or the end, trimmed value; none for blanks, comments, items and lines without such a colon |
| `YamlRewrite.LineIs` | crates/pgbr-build/src/config.rs:389-409 | What a line is, from its characters: skipped, an item, an entry with its key up to the first colon that ends one, or neither |
| `YamlRewrite.MergedReadsBack` | crates/pgbr-build/src/config.rs:371-377 | The line put out for a merged key, indented by blanks alone, reads as an entry with the same indent and key and the list as its value |
| `YamlRewrite.FinalizeGroup` | crates/pgbr-build/src/config.rs:351-383 | The lines of one key get the marks of their fates, in place; no other line's marks change, and none of them was marked before |
| `YamlRewrite.FinalizeFrame` | crates/pgbr-build/src/config.rs:350-384 | The same for all keys of a mapping that has ended |
| `YamlRewrite.PopSettles` | crates/pgbr-build/src/config.rs:297-301 | A frame popped when its mapping ends holds the whole group of each of its entries, and no other frame holds them |
| `YamlRewrite.PushStep` | crates/pgbr-build/src/config.rs:304-309 | A deeper line opens a frame and the indents of the stack still strictly rise |
| `YamlRewrite.RecordStep` | crates/pgbr-build/src/config.rs:313-317 | A line is recorded in the one frame of its mapping |
| `YamlRewrite.Pass` | crates/pgbr-build/src/config.rs:288-322 | After the one pass with the frame stack every line is marked with its fate |
| `YamlRewrite.PutOut` | crates/pgbr-build/src/config.rs:324-337 | What is put out is what the marks leave |
| `YamlRewrite.PreprocessConfig` | crates/pgbr-build/src/config.rs:281-338 | The text put out is the rewritten text |
| `YamlRewrite.TextReadsAsRewrite` | crates/pgbr-build/src/config.rs:281-338 | Read again, it is the rewriting of what the text read as |
| `YamlRewrite.TextHasNoDuplicates` | crates/pgbr-build/src/config.rs:276-281 | The text put out has no key twice in a mapping exactly when the lines that stay are apart |
| `YamlRewrite.CleanTextIsSame` | crates/pgbr-build/src/config.rs:324-337 | A text with no key twice in a mapping comes out with the same lines |
| `YamlRewrite.TextRewriteIsIdempotent` | crates/pgbr-build/src/config.rs:281-338 | Rewriting the text put out gives the same lines exactly when the lines that stay are apart |
| `YamlRewrite.TextIsSameExactlyWhenClean` | crates/pgbr-build/src/config.rs:281-338 | A text comes out with the same lines exactly when no mapping of it has a key twice |
| `BundlePacker.Packer.constructor` | crates/pgbr-command/src/bundle.rs:69-76 | A packer starts with no file placed; a cap of zero becomes one byte |
| `BundlePacker.Packer.Place` | crates/pgbr-command/src/bundle.rs:90-104 | Each call hands out the next slot: behind the last file, or in a new bundle exactly when the file would exceed the cap |
| `BundlePacker.TiledExactlyWhenFits` | crates/pgbr-command/src/bundle.rs:90-104 | Files appended at their slots tile each bundle from 0 without gap or overlap, exactly when offsets do not saturate: for every cap below the largest 64-bit number, and at it when all files but the last fit 64 bits |
| `BundlePacker.SliceReturnsFile` | crates/pgbr-command/src/bundle.rs:11-12 | Slicing a finished bundle at a file's offset and length returns the file |
| `BundlePacker.OnlyLoneFileExceeds` | crates/pgbr-command/src/bundle.rs:45-50 | Only a bundle of a single file is larger than the cap |
| `BundlePacker.PackingIsOptimal` | crates/pgbr-command/src/bundle.rs:90-104 | No split of the files in their order into parts within the cap, or of a single file, has fewer parts than the packer opens bundles |
| `BundlePacker.BundlesAreHalfFull` | crates/pgbr-command/src/bundle.rs:91-96 | Twice the bytes placed is at least the bundles but one times the cap and one, plus the fill of the last |
| `BundlePacker.OnePerBundleExactlyWhen` | crates/pgbr-command/src/bundle.rs:65-76 | For every cap below the largest 64-bit number, each file lands in its own bundle exactly when no two neighbours fit the cap together |
| `BundlePacker.EmptyFilesShare` | crates/pgbr-command/src/bundle.rs:65-76 | At the cap of one byte that a cap of zero becomes, an empty file shares with an empty or a one-byte neighbour |
| `BlockPolicy.BlockSizeRange` | crates/pgbr-command/src/block.rs:244-269 | There is a block size exactly for files of 128 KiB or more and less than four weeks old, and it is a power of two from 8 KiB to 1 MiB |
| `BlockPolicy.BlockSizeExactly` | crates/pgbr-command/src/block.rs:244-269 | The block size in plain numbers: 8 KiB, doubled for 1 MiB and at each doubling from there, and for each whole week, up to 1 MiB |
| `BlockPolicy.BlockSizeMonotone` | crates/pgbr-command/src/block.rs:252-268 | Larger and older files get blocks at least as large |
| `BlockPolicy.SizeShift` | crates/pgbr-command/src/block.rs:254-261 | The doublings for size are one more than the binary logarithm of the whole MiB |
| `BlockPolicy.BlockCount` | crates/pgbr-command/src/block.rs:233-236 | A fresh file below 128 MiB has fewer than 128 blocks, and at least 64 from 1 MiB on |
| `BlockPolicy.Sort` | crates/pgbr-command/src/block.rs:142-145 | The buckets sorted in place by threshold: a permutation, ascending |
| `Sorting.Sort` | crates/pgbr-command/src/block.rs:142-145 | In-place sorting by any total preorder gives an ascending permutation |
| `BlockPolicy.NewOverrides` | crates/pgbr-command/src/block.rs:135-153 | Each map is kept as its buckets in ascending order |
| `BlockPolicy.LookupIgnoresOrder` | crates/pgbr-command/src/block.rs:165-170 | With distinct thresholds a lookup finds the largest threshold not above the probe, whatever the order the buckets were given in; nothing exactly when all are above |
| `BlockPolicy.OverridesKeepEligibility` | crates/pgbr-command/src/block.rs:184-187 | Overrides give a size exactly where the heuristic does, and the same one when the maps are empty |
| `BlockPolicy.OverrideLayers` | crates/pgbr-command/src/block.rs:189-208 | The size bucket's value or the heuristic's, times the age bucket's multiplier, or the largest 64-bit number where that is larger; with an age bucket the heuristic does not count the age again |
| `BlockPolicy.ChecksumLayers` | crates/pgbr-command/src/block.rs:210-217 | The checksum size is the value of the largest block-size bucket not above the block size, and the default when all buckets are above |
| `BlockPolicy.SplitThenReassemble` | crates/pgbr-command/src/block.rs:275-299 | For every block size, zero included, the blocks of a file put together are the file; all but the last are full |
| `BlockPolicy.ReassembleThenSplit` | crates/pgbr-command/src/block.rs:275-287 | Blocks that are all full but the last are found again from the file: no other splitting has that form |
| `BlockPolicy.Reassemble` | crates/pgbr-command/src/block.rs:292-299 | The blocks appended in order |
| `ErrorTable.ParseErrorYaml` | crates/pgbr-error/build.rs:54-124 | The line loop with its pending entry computes what the lines mean, and fails exactly when they do |
| `ErrorTable.ReadLine` | crates/pgbr-error/build.rs:68-111 | One line flushes, starts, completes or extends the pending entry, or fails |
| `ErrorTable.FileMeansItems` | crates/pgbr-error/build.rs:54-124 | A file of shorthands and of names with fields in any number and order reads as the entries they stand for: the last code, fatal and parent of each, defaults for what is not given, and no entry for a name without a code |
| `ErrorTable.BlanksDoNotMatter` | crates/pgbr-error/build.rs:59-62 | Blank lines and comments make no difference anywhere |
| `ErrorTable.NumberReadsBack` | crates/pgbr-error/build.rs:88-90 | A written number reads back exactly when it is one of 32 bits with a sign |
| `ErrorTable.NumberExactly` | crates/pgbr-error/build.rs:88-90 | A number is digits within 32 bits with at most one sign in front, and nothing else |
| `ErrorTable.ParseFailsExactlyWhen` | crates/pgbr-error/build.rs:62-111 | A text is refused exactly when one of its lines is wrong: without a colon, a name with a value that is no number, a field under no name, an unknown field, a code that is no number or an empty parent |
| `ErrorTable.NoColonReads` | crates/pgbr-error/build.rs:59-66 | A line without a colon before its comment that is not blank is such a line |
| `ErrorTable.LineReads` | crates/pgbr-error/build.rs:59-68 | A line gives its key and value whatever whitespace and comment surround them, and is a field exactly when it is indented |
| `ErrorTable.TextMeansItems` | crates/pgbr-error/build.rs:54-124 | The same of a whole text in any layout |
| `ErrorTable.EntriesReadBack` | crates/pgbr-error/build.rs:54-124 | Entries written in either form read back in order |
| `ErrorTable.TextReadsBack` | crates/pgbr-error/build.rs:54-124 | Well-named entries written as text, each in either form, read back from it in order |
| `ErrorTypes.ParentsAreTotal` | crates/pgbr-error/build.rs:126-139 | The check of the parents passes exactly when the parent of every entry is an entry and the default parent is one |
| `ErrorTypes.WalkAnswers` | crates/pgbr-error/build.rs:378-388 | When the walk ends it answers whether the target is one or more parent steps above |
| `ErrorTypes.WalkEndsExactlyWhen` | crates/pgbr-error/build.rs:378-388 | The walk ends exactly when the chain comes to the target or to an entry that is its own parent |
| `ErrorTypes.Extends` | crates/pgbr-error/build.rs:377-389 | The loop, wherever it ends, returns true exactly for a target above |
| `ErrorTypes.EveryWalkEndsExactlyWhenRooted` | crates/pgbr-error/build.rs:365-389 | With a root that is its own parent every walk ends exactly when every chain comes to a self-loop |
| `ErrorTypes.EveryWalkEndsExactlyWhenLoopsInTime` | crates/pgbr-error/build.rs:365-389 | Every walk ends exactly when, after as many parent steps as there are entries, every chain is at an entry that is its own parent: a check that always ends |
| `ErrorTypes.LoopInTime` | crates/pgbr-error/build.rs:378-388 | A self-loop that a chain comes to at all it comes to within as many steps as there are entries |
| `ErrorTypes.DepthRoots` | crates/pgbr-error/build.rs:365-389 | A depth that falls along every parent step to a root that is its own parent roots every chain, and every walk from an entry ends within its depth and one more steps |
| `ErrorTypes.ParentExistenceIsNotEnough` | crates/pgbr-error/build.rs:126-139 | A table that passes the check on which a walk never ends, whatever the number of steps |
| `HelpXml.CaptureRunsOver` | crates/pgbr-build/src/help.rs:407-454 | A capture runs over any well-formed piece, whatever its tags are called, writing all of it and keeping its depth |
| `HelpXml.SkipRunsOver` | crates/pgbr-build/src/help.rs:458-480 | A skip runs over any well-formed piece and keeps its count, although it counts one name only |
| `HelpXml.StopAtMatchingClose` | crates/pgbr-build/src/help.rs:407-480 | Both stop at exactly the matching close tag (section 3 of XML 1.0, Element Type Match), nested elements of the same name included |
| `HelpXml.ReadRunsOver` | crates/pgbr-build/src/help.rs:155-402 | Over any well-formed piece in which no loop at any level looks past an element of its own name a loop finds what the element tree holds and goes on after it |
| `HelpXml.LevelStops` | crates/pgbr-build/src/help.rs:221-238 | A loop stops at the close tag of its own element |
| `HelpXml.StopsExactlyWhenCalm` | crates/pgbr-build/src/help.rs:155-402 | With the inner loops calm, a loop stops at the close tag of its own element, having found what the element tree holds, exactly when it looks past no element of its own name itself |
| `HelpXml.NestedListStopsEarly` | crates/pgbr-build/src/help.rs:240-270 | A list loop that looks past an element of its own name stops there and loses what follows |
| `HelpParser.ParseIsHelpOf` | crates/pgbr-build/src/help.rs:155-178 | The help tree of the event stream is that of the element tree |
| `HelpParser.FindAttrIs` | crates/pgbr-build/src/help.rs:482-500 | The first attribute of a name counts; a broken one before it, or a value that cannot be read, is an error |
| `HelpParser.IdIsRequired` | crates/pgbr-build/src/help.rs:195-338 | Without an id nothing is built, without a name no section and no command |
| `HelpParser.SummaryIsRequired` | crates/pgbr-build/src/help.rs:240-338 | Without a summary no key and no command is built |
| `HelpParser.RenderThenParse` | crates/pgbr-build/src/help.rs:155-402 | Every help tree, rendered and parsed, comes back, its texts as the events inside them; whole exactly where they hold nothing but tags and text |
| `HelpParser.TextComesBackWhole` | crates/pgbr-build/src/help.rs:407-454 | A captured text has all its events exactly when none of them is a comment or the like |
| `HelpXml.KeptAll` | crates/pgbr-build/src/help.rs:407-454 | A capture writes every event exactly when none is a comment or the like |
| `HelpParser.KeyReadsBack` | crates/pgbr-build/src/help.rs:240-291 | A key comes back with its attributes, summary, text and example |
| `HelpParser.SectionReadsBack` | crates/pgbr-build/src/help.rs:221-238 | A section comes back with its text and its keys in order |
| `HelpParser.CommandReadsBack` | crates/pgbr-build/src/help.rs:340-359 | A command comes back with its summary, text and options in order |
| `HelpParser.OptionReadsBack` | crates/pgbr-build/src/help.rs:361-402 | An option comes back with its summary, text and example |
| `HelpReader.CaptureInnerXml` | crates/pgbr-build/src/help.rs:407-454 | The depth counter's loop captures and consumes what the capture should |
| `HelpReader.SkipElement` | crates/pgbr-build/src/help.rs:458-480 | The name counter's loop consumes what the skip should |
| `HelpReader.ParseConfigKeyBody` | crates/pgbr-build/src/help.rs:272-291 | Builds the key from what its element holds, and notes whether there was a summary |
| `HelpReader.ParseConfigKeyList` | crates/pgbr-build/src/help.rs:240-270 | Appends the keys of the list; fails without an id or a summary |
| `HelpReader.ParseConfigSectionBody` | crates/pgbr-build/src/help.rs:221-238 | Sets the text and appends the keys of every key list |
| `HelpReader.ParseConfigSectionList` | crates/pgbr-build/src/help.rs:195-219 | Appends the sections; fails without an id or a name |
| `HelpReader.ParseConfig` | crates/pgbr-build/src/help.rs:180-193 | Appends the sections of every section list |
| `HelpReader.ParseOptionBody` | crates/pgbr-build/src/help.rs:386-402 | Builds the option from what its element holds |
| `HelpReader.ParseOptionList` | crates/pgbr-build/src/help.rs:361-384 | Appends the options; fails without an id |
| `HelpReader.ParseCommandBody` | crates/pgbr-build/src/help.rs:340-359 | Builds the command from what its element holds, and notes whether there was a summary |
| `HelpReader.ParseCommandList` | crates/pgbr-build/src/help.rs:308-338 | Appends the commands; fails without an id, a name or a summary |
| `HelpReader.ParseOperation` | crates/pgbr-build/src/help.rs:293-306 | Appends the commands of every command list |
| `HelpReader.ParseHelp` | crates/pgbr-build/src/help.rs:155-178 | The parser computes the help tree of the event stream, and fails exactly when there is none |

## Left out

- Locks are not modelled; the stop file, `archive.info` and the header check are inputs of a push and a get (`Archiver.Gate`, `Restorer.Gate`); configuration loading, permissions, time-outs, sleeps and the choice of serial or parallel by `process-max` and locality are not modelled beyond choosing the branch.
- The codecs and ciphers are an arbitrary function and its inverse; the random salt of the cipher is not modelled, so a repeated push writes the same bytes. Bodies of `RepoTransform` and `ParallelExecutor` are not part of this model; the pool lets any unfinished worker go on next.
- Several repositories with different keys: a get undoes every transform with the first repository's key, as the code does, so the round trip is stated for one repository.
- The drains into a single repository (`drain_push_spool`, `drain_push_spool_keyed`), which a push does not use.
- A backlog is an unbounded sum; the shared counter of the parallel prefetch wraps at 64 bits and the total is assumed to fit.
- DrainMachine.OrderDoesNotMatter: assumes that target directories can be created and that failure is a fixed function of segment and target; a directory that cannot be created ends a drain by workers without statuses, as `Archiver.Archiver.DrainPool` shows.
- Restorer.Restorer.PrefetchPool: assumes that the backlog and all fetched segments together fit the 64-bit counter, as its cap is meaningless otherwise; a file that cannot be looked at is hidden from all workers alike, also from two that are asked for one segment.
- What a pre-fetch looks up before its loop (`archive.info`, the keys, the directories): without an `archive.info` there is nothing to fetch, and a failure there leaves the spool alone.
- Restorer.Restorer.Get: the destination file is not modelled, only the bytes delivered to it.
- Mappings.RewriteHasNoDuplicates: is the case of dropped leaves of `Mappings.NoDuplicatesExactlyWhenApart`, and so is `Mappings.RewriteIsIdempotent` of `Mappings.IdempotentExactlyWhenApart`.
- HelpXml.ReadRunsOver: assumes that no loop looks past an element of its own name; `HelpXml.StopsExactlyWhenCalm` is the exact form for one level over calm parts, and `HelpXml.NestedListStopsEarly` a document that stops early.
- BundlePacker.Packer.Place: bundle ids are unbounded; the code's would overflow after as many bundles as there are 64-bit numbers.
- Splitting a text at line ends and joining lines; whitespace and letters outside ASCII; the YAML parser that reads the rewritten text.
- XML tokenising: the stream of events is given, its errors are one event; the text of captured events is their sequence.
- `ErrorTypes` speaks of places in the table, where the generated code compares numeric codes; codes and type names are distinct or the generated code does not compile.
- The super-block sizes, the human-readable sizes and the layout of reports; SQL, configuration look-ups and metadata merges elsewhere, which would only add easy members.
- `lock.rs`, whose exclusion rests on the kernel's file locks.
