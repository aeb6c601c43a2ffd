# Verified model of the edge recorder and player

This project models the five parts of the edge video system where state, order and arithmetic interact,
and proves what each of them keeps over every run.

| module | what it models |
|---|---|
| `Recording`, `Wrappers` | the recording entry, its status values, time in nanoseconds |
| `SegmentLifecycle` | segment files and index rows under close, retention, crash and restart, as a step system |
| `RecorderStorage` | that step system on top of the real index: whether a mark reaches its row is decided by the cache |
| `RecorderWorkers` | the poll loop and its concurrent per-schedule workers, as a step system over consumer handles |
| `IndexCache` | the per-channel index with lazily opened databases and idle eviction, as a class and as a value |
| `TextTime` | timestamps stored as RFC 3339 text and compared as text, calendar included |
| `Retention` | the three in-place retention passes and the ten-per-pass batching |
| `PlaybackStart` | the resolution of a requested start time against a segment set that is queried by text |
| `IndexSource` | the cursor that plays segments, follows a growing index and hands over to the live buffer |
| `StreamSession` | the WebSocket stream session: ownership of hubs, handles and viewers, sequence numbers |
| `AnnexB` | the Annex B splitter (ITU-T H.264/H.265) and the length-prefixed writer (ISO/IEC 14496-15) |
| `Demuxer` | 64-bit tick conversion, codec announcements and packet durations of the camera demuxer |

Code that changes fields or arrays step by step is modelled by classes and methods (`SqliteIndex`,
`Cursor`, `Stream`, `FrameDemuxer`, the retention passes, the splitter). Each method is proved equal to a
function on values, and the main theorems are about those functions. The two concurrent protocols are step
systems whose steps are single lock sections, SQL statements or file operations; a step that is not enabled
changes nothing, so every sequence of steps is a run and a crash may come after any of them. Results of
external calls (does the file open, does Consume succeed, what does the clock say, what did the index
return) are parameters, and the statements hold for all their values.

`dafny verify dfyconfig.toml` checks everything.

## What the proofs found

Where code and documentation differ, the model follows the code.

- A row offered to readers can name a file that is not there although retention never touched it: after a
  crash between the rename and the row update of a closing segment, the sealed row keeps the old name
  (`SegmentLifecycle.CrashAfterRenameStrands`). `OfferedRowsHaveFiles` shows this is the only way.
- The comment at pkg/recorder/recorder.go:715-718 says an orphan file is cleaned up by the next retention
  pass. A crash between mark and remove does leave one (`SegmentLifecycle.CrashLeavesOrphan`), and it is
  never cleaned up (`SegmentLifecycle.OrphansAreForever`); `SegmentLifecycle.DeletedFileRemainsIff` says
  exactly when a deleted row's file is still there. Rows found corrupted are never reclaimed either, since
  retention queries only playable rows. The comment at pkg/recorder/index.go:33-35 has the order of marking
  and removing the other way round.
- `Delete` reaches only databases that are open (`IndexCache.DeleteTakesEffectIff`). Within ten minutes of
  the query and without a Close this is always so (`IndexCache.DeleteAfterQueryReachesRow`), which is all
  the segment protocol needs (`RecorderStorage.StoredRowsHaveFiles`).
- Stored times are compared as text. Two times of one second are ordered the wrong way round exactly when
  one is the other cut off behind some decimal place (`TextTime.TextOrderIff`), as a whole second is of
  everything else in it; such times are called confused. A query is exact if and only if no row's end is so related to the request
  (`PlaybackStart.QueryIsExactIff`). The consequences go both ways. A request for a whole second in which
  the last segment ends is answered `first_available` (`PlaybackStart.FirstAvailableReachedByText`). A
  request within a second at whose beginning a segment ended is answered `recorded`, at the requested time
  and without a gap, although the next footage may be hours away (`PlaybackStart.EndedRowKeptByText`).
  Asking again for an announced position may give another answer (`PlaybackStart.AnswerNotIdempotent`), and
  the factory may open a segment past the announced position (`PlaybackStart.LaterStartOpenedFirst`).
  `PlaybackStart.OpenEndedResolution` and `PlaybackStart.RecordedByIff` give the exact conditions.
- docs/seek-protocol.md:599 promises `first_available` for a seek before all recordings. The code answers
  `recorded`; the open-ended requests a session makes get `first_available` only through the text
  comparison just described.
- docs/seek-protocol.md:598 promises `gap: true` for a seek into a gap. The code sets it from five seconds
  on (`PlaybackStart.GapIffFiveSecondsEmpty`).
- "Live" stands for "nothing recorded from here on" exactly when the last-started segment is also the last
  to end; an interrupted last segment, whose end time stays zero, breaks it
  (`PlaybackStart.LiveMeansNothingLeftIff`).
- An interrupted segment has no end time, so the gap behind it is measured from an older end and can cover
  footage that was just played (`IndexSource.InterruptedSegmentMakesFalseGap`); the boundaries up to the
  first segment with an end time are not measured at all (`IndexSource.BoundaryUnmeasuredIff`).
- A free-space reading of zero or less switches the disk pass off, so a full disk frees nothing in the first
  pass (`Retention.FullDiskIsIgnored`).
- Two schedules with one id can lose a handle for good (`RecorderWorkers.LeakPossibleIff`); a second start
  command in live mode loses a handle and leaves a viewer counted (`StreamSession.SecondStartLeaks`).
- A segment found invalid is offered all the same, as interrupted, when writing its final row fails and the
  recorder restarts (`SegmentLifecycle.FailedCloseIsOffered`).
- Keeping one kind of footage longer can delete another: under a storage cap what a longer tier keeps pushes
  older footage out (`Retention.LongerTierCanPushOut`).
- A NAL unit ending in 00 in front of a 3-byte start code loses that byte
  (`AnnexB.ZeroBeforeShortCodeIsLost`). The branch for payloads without start codes is reached only by
  payloads that consist of nothing else (`AnnexB.AvccReadsBack`, `AnnexB.RawNalIsOnePiece`).
- Tick conversion wraps beyond 9,223,372,036 ticks (`Demuxer.ConversionAccurateIff`).

## Model

| member | source | states |
|---|---|---|
| `SegmentLifecycle.RunKeepsInv` | pkg/recorder/recorder.go:407-453 | every interleaving of close, retention, crash and restart keeps the invariant tying rows, files, segments being written and deletions in flight |
| `SegmentLifecycle.OfferedRowsHaveFiles` | pkg/recorder/recorder.go:423-453 | in every reachable state a complete row names an existing file, and a row readers are offered lacks its file exactly when its close broke off between rename and row update |
| `SegmentLifecycle.StepEvolves` | pkg/recorder/index_sqlite.go:281-352 | each single step moves a status at most from recording to complete, corrupted or interrupted, or from complete or interrupted to deleted |
| `SegmentLifecycle.RowsOnlyMoveForward` | pkg/recorder/index_sqlite.go:281-352 | over every run rows never disappear, their status only moves forward by such steps, and paths of finished rows never change |
| `SegmentLifecycle.ReaderMissesOnlyDeleted` | pkg/recorder/recorder.go:714-727 | a reader that saw a row with its file misses the file later only if retention deleted the row in between |
| `SegmentLifecycle.InvalidSegmentNeverOffered` | pkg/recorder/recorder.go:436-448 | a closed segment whose row was written is offered exactly when it was valid; an invalid one stays corrupted through every continuation |
| `SegmentLifecycle.FailedCloseIsOffered` | pkg/recorder/recorder.go:446-448 | when writing that row fails, the segment is offered as interrupted after a restart, valid or not |
| `SegmentLifecycle.SealingEndsRecordings` | pkg/recorder/index_sqlite.go:304-352 | sealing a channel leaves none of its rows in progress, turns those into interrupted ones and touches nothing else |
| `SegmentLifecycle.DeletedFileRemainsIff` | pkg/recorder/recorder.go:714-727 | in every reachable state a deleted row's file is on disk if and only if its removal is in flight or was cut off by a crash or an error, no other pass removed it, and it was not stranded before |
| `SegmentLifecycle.CrashLeavesOrphan` | pkg/recorder/recorder.go:714-727 | the run in which a crash between mark and remove leaves a file whose row no query returns |
| `SegmentLifecycle.OrphansAreForever` | pkg/recorder/recorder.go:714-727 | such a file stays on disk through every continuation |
| `SegmentLifecycle.DeleteNeedsOpenDatabase` | pkg/recorder/index_sqlite.go:281-302 | deleting a complete segment keeps complete rows backed by files if and only if the channel's database is open |
| `SegmentLifecycle.CrashAfterRenameStrands` | pkg/recorder/recorder.go:421-447 | the run in which a crash after the rename leaves an offered row without its file |
| `RecorderStorage.StepRefines` | pkg/recorder/recorder.go:407-453 | one step on the databases and their cache is one step of the segment protocol with the database open, and keeps the combined invariant |
| `RecorderStorage.MarkReaches` | pkg/recorder/index_sqlite.go:281-302 | a mark within the idle limit of the pass's query finds its database open, whatever else used the index |
| `RecorderStorage.StorageRefinesProtocol` | pkg/recorder/index_sqlite.go:281-352 | every run whose passes mark in time is a run of the segment protocol in which each Delete finds its database open |
| `RecorderStorage.StoredRowsHaveFiles` | pkg/recorder/recorder.go:659-727 | in every such run a complete row of any database names an existing file, and an offered one lacks it exactly when its close broke off between rename and row update |
| `RecorderStorage.StoredReaderMissesOnlyDeleted` | pkg/recorder/recorder.go:714-727 | on the databases themselves: a reader misses a file it saw only if retention marked the row in between |
| `RecorderStorage.StoredDeletedFileRemainsIff` | pkg/recorder/recorder.go:714-727 | on the databases themselves: exactly when a deleted row's file is still on disk |
| `RecorderStorage.StoredOrphansAreForever` | pkg/recorder/recorder.go:714-727 | on the databases themselves: a deleted row's file with no deletion in flight stays for good |
| `RecorderWorkers.RunKeepsInv` | pkg/recorder/recorder.go:290-393 | every interleaving of workers, ticks, stale collection and stop keeps the ownership invariant when no tick lists an id twice |
| `RecorderWorkers.OneHomePerHandle` | pkg/recorder/recorder.go:479-493 | a handle from Consume is in exactly one of: the active map, its worker, the list being closed, or closed once |
| `RecorderWorkers.OneHandlePerSchedule` | pkg/recorder/recorder.go:554-626 | no schedule ever has two open handles |
| `RecorderWorkers.StopClosesEverythingOnce` | pkg/recorder/recorder.go:628-645 | when Stop has returned, every handle ever opened was closed exactly once |
| `RecorderWorkers.OnlyListedRecord` | pkg/recorder/recorder.go:318-334 | whenever the loop is idle, an open handle belongs to a schedule the last tick listed and is the one in the map; the handles of all others were closed once |
| `RecorderWorkers.ListedKeepRecording` | pkg/recorder/recorder.go:318-334 | a listed schedule's handle open when the workers are done stays in the map and unclosed until the next tick or stop |
| `RecorderWorkers.WorkerStarts` | pkg/recorder/recorder.go:344-393 | in every interleaving, a worker that decides to start or rotate and whose Consume succeeds ends with a handle opened in this tick in the map |
| `RecorderWorkers.WorkerDeclines` | pkg/recorder/recorder.go:344-393 | in every interleaving, a worker that decides to do nothing leaves its schedule's recording as it was |
| `RecorderWorkers.DuplicateIdsLeak` | pkg/recorder/recorder.go:316-342 | for every tick list with a repeated id there is a run that stops with a handle never closed |
| `RecorderWorkers.LeakPossibleIff` | pkg/recorder/recorder.go:290-342 | runs whose ticks list given ids can stop with a handle not closed exactly once if and only if an id is repeated |
| `RecorderWorkers.CoveredChannels` | pkg/recorder/recorder.go:794-830 | the loop collects exactly the channels that have a schedule |
| `RecorderWorkers.AppendDefaults` | pkg/recorder/recorder.go:794-830 | the result is the explicit schedules followed by one default per uncovered channel, in channel order; unchanged without a channel list |
| `RecorderWorkers.EveryChannelRecorded` | pkg/recorder/recorder.go:794-830 | with defaults appended every listed channel has a schedule that records it, and one with a schedule of its own gets no default |
| `RecorderWorkers.DistinctAfterDefaults` | pkg/recorder/recorder.go:794-830 | the ids of that list are distinct if and only if explicit ids are, uncovered channels are, and no explicit id equals a default one |
| `IndexCache.SqliteIndex.constructor` | pkg/recorder/index_sqlite.go:36-42 | a new index has nothing open |
| `IndexCache.SqliteIndex.EvictIdleLocked` | pkg/recorder/index_sqlite.go:590-604 | the loop closes exactly the databases idle for more than ten minutes |
| `IndexCache.SqliteIndex.OpenDB` | pkg/recorder/index_sqlite.go:531-586 | the database is open and touched afterwards, idle ones evicted only at the threshold |
| `IndexCache.SqliteIndex.InsertEntry` | pkg/recorder/index_sqlite.go:44-69 | inserting replaces the row of that id in that channel and nothing else |
| `IndexCache.SqliteIndex.QueryTable` | pkg/recorder/index_sqlite.go:71-123 | a query sees the channel's whole table, evicted or not |
| `IndexCache.SqliteIndex.DeleteEntry` | pkg/recorder/index_sqlite.go:281-302 | the search over open databases in any order marks exactly one row of that id if an open database has one, and none otherwise; with unique ids it is the row |
| `IndexCache.SqliteIndex.SealInterrupted` | pkg/recorder/index_sqlite.go:304-352 | one pass over all database files, evicting on the way, seals every table and leaves every channel open |
| `IndexCache.SqliteIndex.CloseAll` | pkg/recorder/index_sqlite.go:354-369 | nothing is open afterwards and no table changed |
| `IndexCache.CacheIsTransparent` | pkg/recorder/index_sqlite.go:281-352 | for every history with unique ids and timely deletes the cached index answers exactly like one plain map |
| `IndexCache.NewIndexIsTransparent` | pkg/recorder/index_sqlite.go:36-42 | so from a new index on |
| `IndexCache.StepSimulates` | pkg/recorder/index_sqlite.go:531-604 | each operation keeps the simulation between cache and plain map |
| `IndexCache.DeleteAfterQueryReachesRow` | pkg/recorder/recorder.go:659-706 | after a query of a channel, whatever else the index does short of Close, the database is still open for a Delete within the idle limit |
| `IndexCache.DeleteTakesEffectIff` | pkg/recorder/index_sqlite.go:281-302 | a Delete has its intended effect if and only if the row's database is open or the row was already marked |
| `IndexCache.EvictedIff` | pkg/recorder/index_sqlite.go:531-604 | opening a channel closes another if and only if the channel was not open, a hundred are, and the other was idle for more than ten minutes |
| `IndexCache.SealReachesEveryChannel` | pkg/recorder/index_sqlite.go:304-352 | sealing turns every recording row into interrupted, in evicted and never opened channels too, and keeps its end time |
| `IndexCache.EvictedChannelMissesDelete` | pkg/recorder/index_sqlite.go:590-604 | once a channel has been evicted a Delete leaves its rows as they were |
| `TextTime.TextOrderIsTimeOrder` | pkg/recorder/index_sqlite.go:54-63 | for UTC times in years 0000 to 9999 in different seconds, order of the stored text is order in time |
| `TextTime.SameSecondOrderIff` | pkg/recorder/index_sqlite.go:54-63 | inside one second the two orders agree if and only if neither printed fraction is a proper prefix of the other |
| `TextTime.CivilOfInstant` | pkg/recorder/index_sqlite.go:54-63 | every instant in years 0000 to 9999 has a valid calendar reading that names it |
| `TextTime.CivilIsUnique` | pkg/recorder/index_sqlite.go:54-63 | no two valid calendar readings name the same instant |
| `TextTime.WrittenForm` | pkg/recorder/index_sqlite.go:54-63 | the stored text: the fields with their separators, the fraction and Z |
| `TextTime.DigitsReadBack` | pkg/recorder/index_sqlite.go:163-184 | printed numbers read back |
| `TextTime.FractionIsShortest` | pkg/recorder/index_sqlite.go:54-63 | a fraction is written in full precision without trailing zeros, and not at all when it is zero |
| `TextTime.PrefixIffCutOff` | pkg/recorder/index_sqlite.go:54-63 | one printed fraction is a proper prefix of another if and only if its number is the other's cut off behind some decimal place |
| `TextTime.TextOrderIff` | pkg/recorder/index_sqlite.go:87-99 | the byte order of two stored texts is the order of the times, or exactly its reverse when one time is the other cut off within its second |
| `PlaybackStart.IndexComparesText` | pkg/recorder/index_sqlite.go:87-103 | the range test and the listing order the resolution is stated with are comparisons of the stored texts |
| `TextTime.TextIsInjective` | pkg/recorder/index_sqlite.go:163-184 | different instants have different texts, so nothing is lost in storage |
| `TextTime.RangeQueryExactOutsideBoundSecond` | pkg/recorder/index_sqlite.go:87-99 | the textual range test is exact for every row outside the bound's own second |
| `TextTime.WholeSecondBoundMisses` | pkg/recorder/index_sqlite.go:87-99 | a whole-second bound misses every row that ends later within that second, and a bound within a second keeps a row that ended when it began |
| `Retention.ApplyTimeTiers` | pkg/recorder/retention.go:45-57 | the pass flags exactly the entries past their tier's cutoff, on top of what was flagged |
| `Retention.ApplyStorageCap` | pkg/recorder/retention.go:59-86 | the pass flags the entries in front of the first position from which the unflagged bytes fit the cap |
| `Retention.ApplyDiskFreeCap` | pkg/recorder/retention.go:88-119 | the pass flags the entries in front of the first position at which enough has been freed, and only below the minimum |
| `Retention.EvaluateRetention` | pkg/recorder/retention.go:19-43 | the result is the flagged entries in input order |
| `Retention.TiersDecide` | pkg/recorder/retention.go:122-137 | without byte bounds an entry is deleted if and only if it outlived its own tier: objects first, then motion, then continuous, each only when set |
| `Retention.LongerTiersKeepMore` | pkg/recorder/retention.go:122-137 | without byte bounds, raising the days of tiers that are set never adds a deletion |
| `Retention.OtherTiersDoNotMatter` | pkg/recorder/retention.go:122-137 | without byte bounds, a tier that does not govern an entry cannot change its fate |
| `Retention.LongerTierCanPushOut` | pkg/recorder/retention.go:30-86 | under a storage cap, keeping motion footage longer deletes older footage that was kept before |
| `Retention.AgeLimitDecides` | pkg/recorder/recorder.go:671-675 | a schedule that sets only the age limit deletes exactly what is older |
| `Retention.MarkedIff` | pkg/recorder/retention.go:19-119 | an entry is flagged if and only if it expired, or the unexpired bytes from it on exceed the cap, or deleting all that is expired or older would not free enough |
| `Retention.OldestFirst` | pkg/recorder/retention.go:59-119 | if an unexpired entry goes, so does everything listed in front of it |
| `Retention.TighterDeletesMore` | pkg/recorder/retention.go:59-119 | lowering the cap or raising the free-space minimum only adds deletions |
| `Retention.RetentionIsStable` | pkg/recorder/retention.go:19-119 | evaluating the survivors again, with the freed bytes back, deletes nothing, if and only if free space read positive, or is no longer short, or nothing survived |
| `Retention.FullDiskIsIgnored` | pkg/recorder/retention.go:88-98 | a free-space reading of zero makes the second evaluation delete what the first kept |
| `Retention.EnforceRetention` | pkg/recorder/recorder.go:659-712 | one pass removes the victims from the listing, only the first ten unless the disk is short |
| `Retention.BatchedPasses` | pkg/recorder/recorder.go:692-705 | k passes delete exactly the first 10k victims of the unlimited pass and leave the others as victims |
| `Retention.BatchingConverges` | pkg/recorder/recorder.go:692-705 | after ceil(n/10) passes and not before, the listing is exactly what one unlimited evaluation lets survive |
| `Retention.WithoutSelected` | pkg/recorder/recorder.go:703-705 | deleting the selected entries by id leaves exactly the unselected ones, in order |
| `Retention.CriticalPassSettles` | pkg/recorder/recorder.go:692-705 | below the minimum a single pass leaves exactly the survivors, and with the freed bytes back the next evaluation marks nothing |
| `Retention.LimitedPassesSettle` | pkg/recorder/recorder.go:692-705 | limited passes settle too, if and only if the freed bytes do not first switch the disk pass on |
| `PlaybackStart.QueryIsExactIff` | pkg/recorder/index_sqlite.go:87-99 | the query returns exactly the rows ending at or after the request if and only if no row's end is confused with it |
| `PlaybackStart.OpenEndedResolution` | pkg/edgeview/stream.go:257-304 | for every open-ended request: an error exactly without rows and not in the future; live exactly beyond the end of the last-started segment; first_available exactly when confusion hides every row that is left, at the least start in listing order; and a recorded answer is the least covered instant not before the request exactly when confusion neither kept nor hid nor misplaced a row that matters |
| `PlaybackStart.ClearResolution` | pkg/edgeview/stream.go:257-304 | a request that nothing is confused with is never answered first_available, and recorded names the least covered instant |
| `PlaybackStart.FirstAvailableReachedByText` | pkg/edgeview/stream.go:285-303 | a request for a whole second within which the last segment ends falls back to first_available |
| `PlaybackStart.EndedRowKeptByText` | pkg/edgeview/stream.go:285-294 | a request within a second at whose beginning a segment ended is answered recorded at its own time without a gap, although five seconds and more are empty |
| `PlaybackStart.LiveMeansNothingLeftIff` | pkg/edgeview/stream.go:265-283 | live means no footage left for every request if and only if the last-started segment ends last |
| `PlaybackStart.RecordedByIff` | pkg/edgeview/stream.go:265-294 | a request is answered recorded at or before a given time if and only if it is not beyond the last end and some row that passes the textual test starts by then with none that starts later listed in front of it |
| `PlaybackStart.RecordedAnswerIsLeastIff` | pkg/edgeview/stream.go:285-294 | from rows and request alone, with starts not confused and the request past the first second of year 1: a recorded answer is the least covered instant if and only if the request is covered, should an ended row be kept, and otherwise every hidden row is shadowed by one that is not |
| `PlaybackStart.ResolutionIsMonotoneIff` | pkg/edgeview/stream.go:265-294 | a recorded answer is never before its request; live stays live for later requests; when the later request is recorded, the earlier one is recorded no later if and only if something plays for it by then, which holds for clear requests |
| `PlaybackStart.ResolutionIsIdempotentIff` | pkg/edgeview/stream.go:265-294 | resolving a recorded answer again returns the same answer if and only if it is not beyond the last end and something plays for it at once, which holds for clear requests |
| `PlaybackStart.AnswerNotIdempotent` | pkg/edgeview/stream.go:285-303 | a segment that starts on a whole second and ends within it: its start is announced as recorded, and resolving that start gives first_available |
| `PlaybackStart.AnswerNotMonotone` | pkg/edgeview/stream.go:285-303 | a segment that ends within a second: a request for the second gives first_available, a later one for the very end is recorded |
| `PlaybackStart.FactoryOpensAnnouncedSegmentIff` | pkg/edgeview/stream.go:350-394 | with distinct starts, the second query's first segment contains the announced position if and only if some segment does whose end is not confused with it and which is listed in front of every row that passes the textual test |
| `PlaybackStart.LaterStartOpenedFirst` | pkg/edgeview/stream.go:358-363 | two segments that start in one second, the earlier on the whole second: the factory opens the later one, past the position the earlier one contains |
| `PlaybackStart.FactoryOpensAnnouncedSegment` | pkg/edgeview/stream.go:350-394 | for clear requests it contains the position, and is the segment the resolution found when start times are distinct |
| `PlaybackStart.GapIffFiveSecondsEmpty` | pkg/edgeview/ws_stream.go:664-685 | a recorded answer reports a gap if and only if nothing plays within five seconds of the request; for answers at the least covered instant and for all clear requests, if and only if those five seconds are empty |
| `PlaybackStart.BoundedRequestFallsBack` | pkg/edgeview/stream.go:296-303 | a bounded request yields first_available if and only if it is not beyond the last end and no row passes both textual tests; with clear bounds, if and only if nothing between them is covered |
| `IndexSource.Cursor.constructor` | pkg/edgeview/stream.go:381-390 | the cursor a factory builds: all listed ids seen, positioned behind the opened entry, no end time seeded |
| `IndexSource.Cursor.OpenEntry` | pkg/edgeview/stream.go:688-722 | gap and last end after opening an entry |
| `IndexSource.Cursor.NextSegment` | pkg/edgeview/stream.go:620-656 | the next segment, live buffer or end, and the whole cursor afterwards |
| `IndexSource.Cursor.Wait` | pkg/edgeview/stream.go:765-817 | polling appends unseen entries and ends with the first that opens |
| `IndexSource.Cursor.SeekTo` | pkg/edgeview/stream.go:564-618 | a seek replaces the listing, or changes nothing when it fails |
| `IndexSource.OpenFirst` | pkg/edgeview/stream.go:492-514 | the search finds the first entry that opens behind missing ones only, or stops at the first error |
| `IndexSource.PlaybackOpensIff` | pkg/edgeview/stream.go:350-394 | a playback starts with the first file that is there; without any, with the live buffer from the requested time exactly for a follower that has one |
| `IndexSource.NextOk` | pkg/edgeview/stream.go:620-684 | one Next keeps listed ids distinct and seen, only extends the listing, returns the entry just behind the cursor, and gives the live buffer only once, with the cursor at the end and from the last listed end |
| `IndexSource.OpenAtOk` | pkg/edgeview/stream.go:564-618 | a seek keeps the invariant and forgets no seen id; a failed one changes nothing |
| `IndexSource.SeekOutcomeIff` | pkg/edgeview/stream.go:564-618 | a seek opens the first file that is there, ends exactly when none is, and fails exactly on a query error or when the first one there cannot be opened |
| `IndexSource.SeekPlaysAnswer` | pkg/edgeview/stream.go:564-618 | the segment a seek opens and then Next until the end play exactly what exists of the index's answer |
| `IndexSource.RunKeepsWf` | pkg/edgeview/stream.go:564-817 | over every run of Next and OpenAt with a growing index and vanishing files, listed ids stay distinct and seen |
| `IndexSource.LiveBufferAtMostOnce` | pkg/edgeview/stream.go:660-684 | over every run the live buffer is handed out at most once |
| `IndexSource.NextGoesLiveIff` | pkg/edgeview/stream.go:620-684 | Next hands over to the live buffer if and only if it follows, a buffer is configured, exists and was not used, and no remaining listed nor newly reported file is there; from the last listed end, or thirty seconds back; without follow it ends exactly when no remaining file is there |
| `IndexSource.HandOverIff` | pkg/edgeview/stream.go:660-684 | over every run from an unused buffer, seeks included, the first Next that finds the cursor ready hands over, and no other |
| `IndexSource.NoSegmentTwice` | pkg/edgeview/stream.go:620-817 | between seeks no segment is opened twice |
| `IndexSource.NotOpenedAgain` | pkg/edgeview/stream.go:564-656 | nor is the one a seek opened, from the first Next on |
| `IndexSource.FactoryPlaybackRepeatsNothing` | pkg/edgeview/stream.go:350-394 | from the factory on, ids stay distinct and seen, and without a seek no segment is played twice, the factory's own included |
| `IndexSource.NextPlays` | pkg/edgeview/stream.go:620-817 | one Next in any mode moves past missing files up to the segment it returns or the file that breaks, gives up or waits only with every listed entry tried, and lists every unseen entry the index reported |
| `IndexSource.FollowPlaysWhatOpens` | pkg/edgeview/stream.go:620-817 | over any number of Next calls the segments played are exactly the listed entries the cursor passed whose files opened, in order |
| `IndexSource.FollowIsComplete` | pkg/edgeview/stream.go:727-817 | when a follower is cancelled while waiting, everything listed was played if its file opened, and everything the index reported to any call of the run is listed or was known before |
| `IndexSource.PlaybackIsComplete` | pkg/edgeview/stream.go:492-514 | without follow mode the first segment and Next until it yields none play exactly the entries whose files exist, in order, up to the first file that is there but cannot be opened |
| `IndexSource.GapsAreMeasured` | pkg/edgeview/stream.go:688-722 | in every run, at every segment Next opens, the gap is the distance to the end of the last segment opened before it that had an end time, from five seconds on; interrupted segments in between do not count |
| `IndexSource.BoundaryUnmeasuredIff` | pkg/edgeview/stream.go:381-390 | a boundary goes unmeasured, however long the gap, if and only if no segment opened since the factory had an end time |
| `IndexSource.InterruptedSegmentMakesFalseGap` | pkg/edgeview/stream.go:704-718 | after a seek, playing an interrupted segment and then another reports the whole distance as a gap although the interrupted one was played in between |
| `StreamSession.Stream.StopSession` | pkg/edgeview/ws_stream.go:395-429 | everything held is closed once, the viewer released, all fields cleared |
| `StreamSession.Stream.AttachNow` | pkg/edgeview/ws_stream.go:236-284 | what an attach obtains in live and recorded mode, and what it overwrites |
| `StreamSession.Stream.ResolveAndStartSeek` | pkg/edgeview/ws_stream.go:649-686 | which mode a seek lands in, with a failed resolution going live only in the future |
| `StreamSession.Stream.Execute` | pkg/edgeview/ws_stream.go:591-645 | stop, resolve, stale check, attach, reply; the session after each failure |
| `StreamSession.Stream.SeekCommand` | pkg/edgeview/ws_stream.go:500-550 | a seek's effect on session, numbers and replies |
| `StreamSession.Stream.SkipCommand` | pkg/edgeview/ws_stream.go:554-587 | a skip's effect, relative to the last seek time or the clock |
| `StreamSession.Stream.Serve` | pkg/edgeview/ws_stream.go:433-486 | the read loop runs the commands in order until one fails, then stops the session |
| `StreamSession.ModesExclude` | pkg/edgeview/ws_stream.go:163-284 | at every point live mode excludes a playback hub, and a live handle is held if and only if a viewer is counted for it |
| `StreamSession.FinalAccount` | pkg/edgeview/ws_stream.go:395-429 | after any command sequence every resource was closed exactly once except live handles that a start overwrote, each of which leaves one viewer |
| `StreamSession.NoLeakIff` | pkg/edgeview/ws_stream.go:332-360 | a session loses nothing if and only if no start attaches while a live handle is held |
| `StreamSession.EverythingReturnedIff` | pkg/edgeview/ws_stream.go:332-429 | every resource is closed exactly once if and only if no start reattaches, and the viewer count is restored if and only if none does |
| `StreamSession.SessionClosesEverythingOnce` | pkg/edgeview/ws_stream.go:332-429 | with start sent once and first, everything is closed exactly once and the viewer count is restored, whatever fails |
| `StreamSession.SecondStartLeaks` | pkg/edgeview/ws_stream.go:353-357 | two starts in live mode lose the first handle and a viewer |
| `StreamSession.SequenceNumbersIncrease` | pkg/edgeview/ws_stream.go:500-615 | over every command sequence accepted numbers and numbers on seeked replies strictly increase and the second stale check never fires |
| `StreamSession.SessionNumbersIncrease` | pkg/edgeview/ws_stream.go:433-486 | so in every session from its beginning |
| `StreamSession.BadTargetsAndNumbers` | pkg/edgeview/ws_stream.go:500-587 | an invalid seek time gets an error reply and consumes its number; an invalid skip offset gets one, stale or not, and does not |
| `StreamSession.InvalidSeekRetiresNumbers` | pkg/edgeview/ws_stream.go:500-587 | after an invalid seek numbered n no later command with a positive number up to n is accepted or answered, whatever follows |
| `StreamSession.SkipBaseSurvives` | pkg/edgeview/ws_stream.go:513-534 | over any commands that do not seek or skip to a time, seeking to "now" included, the base of later skips is unchanged |
| `StreamSession.SessionBeginsIff` | pkg/edgeview/ws_stream.go:154-234 | when a session begins, in which mode, and from which position |
| `StreamSession.StartAttachesIff` | pkg/edgeview/ws_stream.go:236-284 | start attaches where the session is, if and only if the writer is built, the hub takes the consumer and there is a hub without one |
| `StreamSession.SeekNowAnsweredIff` | pkg/edgeview/ws_stream.go:513-534 | a seek to "now" that is not stale is answered live at the clock, and attached, if and only if the live hub takes the consumer |
| `StreamSession.SeekAnsweredIff` | pkg/edgeview/ws_stream.go:591-686 | a seek to a time that is not stale is answered once, and attached in the mode it names, if and only if the time resolves or lies in the future, a needed hub starts, and the consumer is taken |
| `StreamSession.SeekAnswersWithFootage` | pkg/edgeview/ws_stream.go:591-686 | for every such seek, against the channel's rows: when it is answered, and the reply's mode, position and gap flag, with the exact condition for the least covered instant |
| `StreamSession.PositionIsKept` | pkg/edgeview/ws_stream.go:591-645 | over every command sequence the last seek time is the time of the last reply to a seek or skip to a time, or the resolved start until there is one |
| `StreamSession.SkipAnswersWithFootage` | pkg/edgeview/ws_stream.go:554-587 | a skip, after any commands of any session, aims at that position, or the clock, plus its offset, and is answered as a seek to that time |
| `StreamSession.NothingAfterFailure` | pkg/edgeview/ws_stream.go:433-486 | the first command that fails is the last one the session handles |
| `AnnexB.SplitAnnexB` | internal/avgrabber/convert.go:40-66 | the scan computes the split: the non-empty stretches between start codes |
| `AnnexB.SplitOfStream` | internal/avgrabber/convert.go:40-80 | what comes out of any stream of code-free pieces with any mix of start codes |
| `AnnexB.RecoveredExactlyWhenUnambiguous` | internal/avgrabber/convert.go:40-80 | a list of NAL units survives joining and splitting if and only if none ending in 00 precedes a 3-byte code |
| `AnnexB.ZeroBeforeShortCodeIsLost` | internal/avgrabber/convert.go:70-80 | the smallest stream that loses a byte |
| `AnnexB.LongCodesRecoverEverything` | internal/avgrabber/convert.go:40-80 | 4-byte codes recover every list of non-empty code-free NAL units |
| `AnnexB.ResplitIsIdentity` | internal/avgrabber/convert.go:40-80 | for every byte string, splitting, rejoining with 4-byte codes and splitting again changes nothing |
| `AnnexB.SplitEmptyIff` | internal/avgrabber/convert.go:40-66 | the split is empty if and only if the payload is a concatenation of start codes |
| `AnnexB.VideoPayloadToAVCC` | internal/avgrabber/convert.go:94-120 | the loop writes the kept NAL units with 4-byte lengths, or the raw payload when the split is empty |
| `AnnexB.DecodeEncodeIff` | internal/avgrabber/convert.go:110-120 | length-prefixed writing reads back if and only if every length fits 32 bits |
| `AnnexB.AvccReadsBack` | internal/avgrabber/convert.go:94-145 | a sample reader gets exactly the split NAL units without parameter sets, in order, if and only if lengths fit |
| `AnnexB.OnlyParamSetsDropped` | internal/avgrabber/convert.go:127-145 | for NAL units given by their headers, exactly those of types 7 and 8, or 32 to 34, are left out, the others kept in order |
| `AnnexB.RawNalIsOnePiece` | internal/avgrabber/convert.go:94-106 | a payload without start codes is split into itself and does not take the fallback branch |
| `Demuxer.ConversionAccurateIff` | internal/avgrabber/demuxer.go:255-271 | the 64-bit tick conversion is off by less than 1 ns if and only if the tick magnitude is at most 9,223,372,036 |
| `Demuxer.ConversionMonotone` | internal/avgrabber/demuxer.go:255-271 | in that range it keeps the order of timestamps |
| `Demuxer.ConversionWraps` | internal/avgrabber/demuxer.go:255-271 | one tick beyond, the result is negative |
| `Demuxer.FrameDemuxer.VideoDuration` | internal/avgrabber/demuxer.go:287-301 | the distance to the last DTS when positive, else the nominal duration; the DTS is remembered |
| `Demuxer.FrameDemuxer.ApplyH264ParamSet` | internal/avgrabber/demuxer.go:315-348 | the loop keeps the last SPS and PPS; a codec is installed only from a complete set that parses |
| `Demuxer.FrameDemuxer.ApplyH265ParamSet` | internal/avgrabber/demuxer.go:350-388 | the same with VPS, SPS and PPS |
| `Demuxer.FrameDemuxer.AudioToPacket` | internal/avgrabber/demuxer.go:217-252 | payload, timing and duration of an audio packet, and the DTS remembered; a malformed header drops the frame |
| `Demuxer.FrameDemuxer.FrameToPacket` | internal/avgrabber/demuxer.go:172-282 | one frame's packet, video or audio, with codec tag, stamps and flags, and the whole new demuxer state |
| `Demuxer.PacketsCarryNals` | internal/avgrabber/demuxer.go:192-212 | over every run a sample reader gets from a video packet exactly the NAL units of the frame's bytes without parameter sets, in order, if and only if their lengths fit |
| `Demuxer.PacketsCarryPictures` | internal/avgrabber/demuxer.go:192-212 | for NAL units given by their headers and joined without ambiguity, the packet carries all of them except parameter sets |
| `Demuxer.PacketsAreStamped` | internal/avgrabber/demuxer.go:255-282 | over every run DTS and PTS offset are within a nanosecond of their ticks on the clock of the last codec installed, and tag, flags, frame id and wall clock are the frame's |
| `Demuxer.PacketsLast` | internal/avgrabber/demuxer.go:287-301 | over every run a video packet's duration is the distance to the packet before when DTS grew, and the last codec's nominal duration otherwise |
| `Demuxer.H264ParserReceives` | internal/avgrabber/demuxer.go:315-348 | the parser receives the last SPS and the last PPS in this order, what it returns is installed, and the frame is an error exactly when it refuses them |
| `Demuxer.H265ParserReceives` | internal/avgrabber/demuxer.go:350-388 | the same for the last VPS, SPS and PPS |
| `Demuxer.AudioPacketsCarry` | internal/avgrabber/demuxer.go:217-252 | over every run an audio frame yields a packet if and only if a format is known and its header can be stripped, with that payload, tag and stamps on the format's sample rate |
| `Demuxer.CodecState` | internal/avgrabber/demuxer.go:183-388 | over every frame sequence the current codec is the last complete set installed, and the dirty flag says whether one was installed since the last key frame |
| `Demuxer.KeyPacketsAnnounceCodecs` | internal/avgrabber/demuxer.go:183-215 | a key packet carries codecs if and only if a complete set was installed since the previous key packet, and then the last one with the first audio format; delta packets never do |
| `Demuxer.IncompleteSetsChangeNothing` | internal/avgrabber/demuxer.go:304-388 | a parameter-set frame leaves the state alone if and only if it installs nothing new |
| `Demuxer.DurationsPositive` | internal/avgrabber/demuxer.go:287-301 | with positive nominal durations every video packet has a positive duration, whatever the timestamps do |
| `Demuxer.AudioDurationsExact` | internal/avgrabber/demuxer.go:240-247 | over every run audio durations never wrap: within a nanosecond of the sample count, or the time since the packet before, never negative |
| `Demuxer.DurationsTelescope` | internal/avgrabber/demuxer.go:287-301 | for increasing DTS the durations after a packet sum to the time passed since it |
| `Demuxer.DurationsCoverTheRun` | internal/avgrabber/demuxer.go:287-301 | for increasing DTS the durations from the second packet on sum exactly to last DTS minus first DTS |

## Left out

- The relay hub, chaining demuxer, packet buffer, segment muxer and MSE writer come from another module; only their outcomes appear, as parameters.
- The cgo capture session, HTTP routing, authentication, OpenAPI registration and the embedded UI: foreign calls and plumbing.
- Channel and schedule providers, CSV import and export, configuration, logging, metrics, the load test and the analytics simulator: thin wrappers and measurement.
- `codecChanged`, codec strings, mode-change messages, closing of the MSE writer, and pause and resume: they only pass through the session; pause and resume are the `Ignored` command.
- The analytics variant of the playback factory: it opens segments like the plain one and merges in data from another module.
- Conversion of GB settings from floating point to bytes: the byte bounds are inputs; sums of sizes are unbounded integers.
- SQL text, WAL mode, transactions and database open errors: each statement is one atomic table operation; the seek-position table, Vacuum and the all-channels query would only add easy members.
- IndexCache.CacheIsTransparent: sequential histories only, with one clock reading per operation; the unlocked fast path of getDB racing with eviction is not modelled.
- SegmentLifecycle.RunKeepsInv: ids and paths handed out are new ones; the source derives them from times, with millisecond and one-second resolution, so two segments of a channel must not begin in the same second.
- SegmentLifecycle.OfferedRowsHaveFiles: assumes the channel's database is open at each Delete; RecorderStorage.StoredRowsHaveFiles derives that from the passes being timely.
- RecorderStorage.StoredRowsHaveFiles: an insert that fails leaves the cache alone, and the index is closed only when the process ends.
- Retention.MarkedIff: sizes are not negative; "older" means earlier in the listing the index query returns.
- Retention.BatchingConverges: every deletion of a pass succeeds.
- RecorderWorkers.RunKeepsInv: ring buffers, the failed-start log and the disk check inside processSchedule hold no handles and are not modelled; Stop arrives between ticks, as the loop sees it.
- PlaybackStart.FactoryOpensAnnouncedSegmentIff: distinct start times; for equal ones the index may list either segment first.
- PlaybackStart.RecordedAnswerIsLeastIff: start times not confused with one another; PlaybackStart.OpenEndedResolution has the condition without that, in terms of the row listed first.
- PlaybackStart.OpenEndedResolution: requests after the zero time in years 0000 to 9999; the two error values for "no recordings" and "only corrupted ones" are one.
- IndexSource.Cursor.NextSegment: within one call a file's outcome depends only on its entry, since each entry is opened at most once.
- Demuxer.FrameDemuxer.FrameToPacket: the pending parameter-set fields, which nothing reads, are dropped.
