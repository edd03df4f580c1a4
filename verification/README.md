# hashline-rs: a verified model of versioned file editing

hashline-rs serves positional reads, greps, edits and writes of text files. Every read names the exact
bytes it showed by a content identity; every edit and overwrite names the snapshot it was made for, and is
refused when the file no longer holds those bytes. This project models that logic in Dafny and proves what
it is for:

- **No lost update.** `Pipeline.dfy` is a state machine of server threads and an external writer over one
  path: chunked reads between stamps, the path lock, temporary files, the stamp-then-content check, rename,
  link. `PipelineTheorems.dfy` proves over every interleaving that the path is an atomic compare-and-swap
  register, that creates are exclusive, and that an error means nothing was changed. `Requests.dfy` puts
  the edit and write rules into the machine. `Schedules.dfy` puts runs together step by step. With them `Progress.dfy`
  proves that a thread fails only for a reason and exactly which requests can succeed, and `Unguarded.dfy` which two
  requests can meet on the one path that is not guarded so that a change is lost unseen.
- **A cache that agrees with the file.** `FileSystem.dfy` states when a metadata stamp proves content
  (granularity plus bracket within the two-second racy window, and that this bound is exact). `Disk.dfy` is
  a disk on which an arbitrary external writer acts before each system call, `Cache.dfy` and `Persist.dfy`
  are the cache and the atomic write on top of it, call by call, and `Tools.dfy` the edit and write tools: what
  an answer is based on, at which instant the path changed, and that on a calm path the answer is the right one.
  `SingleFlight.dfy` is the concurrent in-flight protocol of the cache as a second state machine, and `FlightRuns.dfy`
  says where its answers come from, that every call ends, and what is left then.
- **Batch edits.** `Batch.dfy` and `Protocol.dfy` give the reference rules, `EditTheorems.dfy` their meaning,
  `Acceptance.dfy` what is accepted and why not in terms of the request alone, `Answers.dfy` and `ToolAnswers.dfy` what
  a caller is told otherwise,
  `Ties.dfy` and `EditOrder.dfy` when the order of a batch shows, `Engine.dfy` the fast engine that refines the
  rules on a `Snapshots.dfy` snapshot.
- **Line index, paging, tokens, grep.** `Text.dfy`, `Unicode.dfy`, `Snapshots.dfy`, `Words.dfy` and `RankSelect.dfy` are the
  line-start vector and its fast forms; `Tokens.dfy`, `Render.dfy`, `Read.dfy`, `Paging.dfy` and
  `LineDisplay.dfy` are tokens, pages, cursor chains and what a line shows; `Spans.dfy`, `Grep.dfy`, `GrepOutput.dfy`, `GrepRows.dfy` and `GrepReading.dfy` are the grep
  sections, the budget and what a reader of the response gets back.

Objects the source updates in place are classes (`Snapshot`, `SnapshotCache`, `Device`, `RankSelectBitmap`);
its loops are methods proved against functions whose own properties are lemmas.

Assumptions, all explicit in the contracts: kernel timestamps lag by at most `Timing.granularity`; each
stat-to-stat, stat-to-clock and rename-to-stat bracket lasts at most `Timing.bracket`, and where the
sequential model lets a bracket take longer it raises the flag `late`, which a call can do only by taking longer
than the bound (`Device.elapsed`), and never with an empty script; `Sound(timing)` says that both together fit
the racy window. The content identity is an arbitrary function. Claims about identities need
nothing more; where bytes are compared by identity instead, the state machine excludes a collision in that
comparison, and the sequential methods claim that the path held the base only if its identity has one preimage
(`Unmistakable`).

The sequential contracts speak of instants: `Device.trail` holds every state of the files, `Device.swaps` the
instants at which the server itself renamed or linked a file onto a path, and at every other instant either an
outsider acted or all paths kept their files. A path is calm over a stretch of instants when it names one
unchanged file; with nobody interfering (an empty script) it always is.

Where a comment and the code disagree the code is followed: the comment in `render_snapshot_page` about an
empty file below a start line beyond the end (`src/render.rs:78-90`) describes a branch that cannot be
reached, since `line_count` is at least one.

`dafny verify dfyconfig.toml` verifies the project.

## Model

| member | source | states |
|---|---|---|
| PipelineTheorems.PathIsCasRegister | src/persist.rs:156-242 | over every interleaving of threads and external writer, replaying the log of changes on an atomic compare-and-swap register is legal and ends in what the path holds |
| PipelineTheorems.ReplacementSwapsItsBase | src/persist.rs:156-242 | every guarded replacement in a run found exactly its base bytes at the path, and named their identity |
| PipelineTheorems.OutcomeIsTruthful | src/edit/mod.rs:98-136 | a failed thread has no change in the log; a successful one has exactly one, the one it planned |
| PipelineTheorems.ExclusiveCreate | src/persist.rs:343-372 | on a path nobody deletes, two creates never both succeed, and before the winner's change the path was only ever missing |
| PipelineTheorems.FirstContentIsCreated | src/write.rs:70-101 | on an initially absent path touched by creates and guarded replacements only, the first change is the one create and all others are replacements |
| PipelineTheorems.CreateIsFirst | src/persist.rs:343-372 | in a legal history in which no outsider removes the file there is at most one create, and before it nothing but outside steps that left the path missing |
| PipelineTheorems.AdvanceFact | src/snapshot.rs:700-788 | every lock-free step of a load keeps what the thread knows about the file: a non-racy stamped load holds the stamped bytes |
| PipelineTheorems.CheckClears | src/persist.rs:171-231 | a thread that passes the destination check, by stamp or by content, sees its base bytes at the path |
| PipelineTheorems.OwnEvent | src/persist.rs:156-242 | one step of a thread either changes nothing visible or is its one logged event, which the register allows |
| PipelineTheorems.StepInv | src/persist.rs:156-242 | the invariant of the machine is kept by every thread step, clock step and external step |
| Progress.FailsOnlyForReason | src/persist.rs:171-232 | a step fails only if the path does not show the expected stamp, does not hold the base, is taken for a create, is too large or changed for the second time, or the request is refused on what the path holds; and in these cases it does fail |
| Progress.LoadsWhatIsThere | src/snapshot.rs:700-788 | a load ends only at an instant at which the path holds exactly the loaded bytes, racy or not, and an unstable one starts again only once |
| Progress.AnswerableSucceeds | src/edit/mod.rs:74-136 | from every start, however old the file is, a request that names the text at the path and is legal on it, or creates or edits a missing path, has a run in which nobody else acts that ends in success with exactly its result at the path, by one change |
| Progress.SucceedsAloneExactly | src/write.rs:65-123 | a thread that acts alone can succeed if and only if its request is answerable in that sense |
| Requests.ReplacingNamesItsBase | src/edit/mod.rs:74-94 | a replacement is decided only on text whose identity is the snapshot the request names, and its content is what the request asks of that text |
| Requests.NoLostUpdate | src/edit/mod.rs:74-94 | in every run, each edit or versioned overwrite swapped out bytes with exactly the named identity and swapped in what the request asks of them |
| Requests.DecidedContentPublishes | src/edit/mod.rs:98-136 | whatever is persisted is legal file text, so the error arms after persisting are unreachable |
| Requests.ResponsesAreTruthful | src/write.rs:78-123 | in every run, failure means the request changed nothing, success means one change whose bytes have the published identity, size and line count |
| Requests.EditReportsConservedLines | src/edit/mod.rs:98-136 | the published line count is source newlines kept plus replacement newlines plus one, the byte count is conserved likewise |
| Unguarded.CreateCanBeOverwritten | src/edit/mod.rs:146-182 | any two requests on a missing path, a legal create and a legal edit of the empty file, have a run in which the edit overwrites the file just created |
| Unguarded.ForcedNeedsEditOfMissing | src/edit/mod.rs:146-182 | an unguarded replacement in any run comes from an edit that names the empty content, is legal on it and puts in its result |
| Unguarded.UnseenOverwriteExactly | src/edit/mod.rs:146-182 | some run, with outsiders, loses a change of the first request to a replacement by the second that the register would have refused, if and only if the second is a legal edit of the empty file and the first a create of content that is not empty or a request that leaves something of some text it names |
| Unguarded.UnseenOverwriteAlone | src/edit/mod.rs:146-182 | with nobody but the two requests on a missing path, if and only if the second is a legal edit of the empty file and the first a create of content that is not empty or an edit of the empty file that leaves something |
| Unguarded.LostCreateExample | src/edit/mod.rs:146-182 | a create and an edit, written out, with the log of a run in which both succeed and the create is lost |
| Unguarded.LostEditExample | src/edit/mod.rs:146-182 | two edits of a missing file, written out, with the log of a run in which both succeed and the first is lost |
| FileSystem.NonRacyMeansUnchanged | src/snapshot.rs:197-214 | an inode that still shows the change time of a non-racy stamp was last changed before every instant within one bracket of the clock reading |
| FileSystem.NonRacyStampProves | src/snapshot.rs:248-255 | a path whose four metadata fields equal a non-racy stamp still holds the bytes the stamp was taken of |
| FileSystem.RacyExactly | src/snapshot.rs:197-214 | a stamp is racy if and only if its clock reading is at most two seconds after the later of the two times of the file, the epoch at least |
| FileSystem.ReadBetweenStamps | src/snapshot.rs:705-767 | a complete chunked read between two equal stamps, the later one non-racy and within one bracket, is the stamped content |
| FileSystem.WindowMustCoverGranularityAndBracket | src/snapshot.rs:197-214 | as soon as granularity plus bracket exceed the window there is a file history in which an equal non-racy stamp sits on other bytes |
| Cache.CompleteRead | src/snapshot.rs:750-767 | equal stamps around a complete read make the later stamp describe the bytes read |
| Cache.ReadToEnd | src/snapshot.rs:723-748 | the read loop returns a complete copy of the file unless it changed since the first stamp, fails only for size, and on a calm path within the cap returns the file |
| Cache.ReadCandidate | src/snapshot.rs:700-788 | a candidate is legal text, was the path's content at one instant of the attempt, and its stamp still describes it; on a calm path the attempt yields exactly the file or the reason why it is none |
| Cache.Load | src/snapshot.rs:686-698 | a successful load is legal text the path held at one instant of the call, under a stamp that describes it; a path reported missing was missing at one; on a calm path, as when nobody interferes, the file is loaded or its own error reported |
| Cache.SnapshotCache.WithCapacity | src/cache.rs:84-89 | an empty cache with a capacity of at least one byte |
| Cache.SnapshotCache.Get | src/cache.rs:106-118 | a hit if and only if there is an entry and, when a stamp is given, its own stamp is equal and not racy |
| Cache.SnapshotCache.VerifyRacyResident | src/cache.rs:124-162 | a racy entry is served only with bytes the file held during the call, its refreshed stamp describes them and is the one it had, and on a calm path it is served exactly when the file has the stamp and the bytes |
| Cache.SnapshotCache.Evict | src/cache.rs:176-184 | eviction makes room, drops entries whole and keeps the count exact; it drops nothing when the new entry fits, and without its last eviction there was no room |
| Cache.SnapshotCache.Insert | src/cache.rs:166-195 | the entry replaces the old one, an oversized snapshot changes nothing, other paths keep their entry, all of them when the new one fits, or are evicted within the same shard |
| Cache.SnapshotCache.Remove | src/cache.rs:288-294 | exactly the path's entry is dropped and the byte count follows |
| Cache.SnapshotCache.UsedBytes | src/cache.rs:297-302 | the reported total is the sum of the resident entries' sizes and at most eight times the capacity |
| Cache.SnapshotCache.MatchIsFresh | src/cache.rs:106-118 | an entry with an equal, non-racy stamp holds exactly what the path held when that stamp was taken |
| Cache.SnapshotCache.HitOrDrop | src/cache.rs:219-243 | the second look serves only fresh bytes, on a calm path exactly an entry whose non-racy stamp the file has, and otherwise leaves no entry of this path behind |
| Cache.SnapshotCache.GetOrLoad | src/cache.rs:202-285 | over every script of an external writer, whatever is served is legal text under its own identity and, unless a bracket took too long, which takes a call longer than the bound, was the file's exact content at one instant of this call; a path reported missing was missing at one, and every resident stamp keeps describing its bytes; on a calm path, as with an empty script, the file is served or its own error reported, and a valid resident is the one served; what was served stays resident unless it is too large, and is a hit for the next call on a calm path |
| Cache.SnapshotCache.Publish | src/edit/mod.rs:126-135 | adopting persisted bytes under a confirmed stamp keeps the cache truthful; without a stamp nothing is inserted |
| Persist.AdoptedIsRacy | src/snapshot.rs:297-302 | a stamp of the renamed inode taken within one bracket of the rename is inside the racy window |
| Persist.CheckDestination | src/persist.rs:171-231 | the check passes only after the path had the wanted stamp and, if that is racy, the wanted content, which proves the base, and fails only after an instant at which it had not |
| Persist.ConfirmStamp | src/persist.rs:246-258 | a confirmed stamp is racy, describes exactly the persisted bytes and has the identity, length and modification time of the temporary file; on a calm path one is confirmed, and it is the path's |
| Persist.AtomicWrite | src/persist.rs:156-242 | on success the server changed the path at one instant, to exactly the bytes, after the path had what was expected; the only failure without I/O errors is a destination that was something else at one instant, and then the server changed no path; on a path calm until then it succeeds exactly when the path is as expected |
| Persist.AtomicCreate | src/persist.rs:343-372 | on success the path went from missing to exactly the bytes in one step; a losing create found the path occupied and changed no path and no open file; on a path calm until then it succeeds exactly when the path is missing |
| Tools.EditSucceedsExactly | src/edit/mod.rs:74-182 | an edit comes to something exactly when it names the identity of what was loaded, or of the empty content for a missing file, and its batch is acceptable there |
| Tools.WriteSucceedsExactly | src/protocol.rs:1765-1804 | a write creates exactly what is missing and was to be absent, and replaces exactly what it names |
| Tools.EditFile | src/edit/mod.rs:74-136 | an edit answers on what the path held, or did not hold, during the call; on success the path changed once, to the decided bytes, after the base was found again, and they are what is published; on error no path changed; on a path calm until the rename it succeeds exactly when the decision does |
| Tools.WriteFile | src/write.rs:65-123 | the same for creates and versioned overwrites: created content follows a missing path in one step, an overwrite finds its base again, a lost create is reported from what was found after the link failed |
| Tools.LoseCreateRace | src/write.rs:138-165 | the report of a lost create is decided on what the path held during the reload, and on a calm path on what is there |
| Tools.RaceReportNamesTheWinner | src/write.rs:138-165 | that report carries the current header of the text found; the arm that says the conflict is gone is unreachable |
| Tools.EditThenRead | src/edit/mod.rs:226-259 | with nobody interfering, an edit succeeds exactly when it names what the path holds and is legal on it, and the next read is its output, from the entry the edit published |
| Tools.ReadTwice | src/cache.rs:202-285 | with nobody interfering the second read gives the very snapshot the first one left, unless it is too large for the cache |
| Tools.DecidesAsPipeline | src/edit/mod.rs:74-94 | the call-by-call tools and the threads of the state machine decide alike on whatever was loaded |
| SingleFlight.StepInv | src/cache.rs:225-285 | every step of every caller keeps the lock, cell and outcome invariant of the in-flight protocol |
| SingleFlight.LoadsAtMostOnce | src/cache.rs:251-278 | a cell's loader starts at most once and ends at most once, invalidation or not |
| SingleFlight.EveryHolderGetsThatOutcome | src/cache.rs:253-266 | every outcome returned through a cell is that of its only load |
| SingleFlight.LoadsNeverOverlap | src/cache.rs:225-285 | without invalidation two threads never load one path at the same time |
| SingleFlight.OverlapNeedsInvalidation | src/cache.rs:288-294 | two loads of one path can overlap if and only if paths may be invalidated while they are loaded |
| SingleFlight.NoShardWhileJoining | src/cache.rs:251-252 | no thread waits for a cell lock while it holds a shard lock |
| SingleFlight.NoDeadlock | src/cache.rs:225-285 | while some call is unfinished, some thread inside a call can take its next step |
| FlightRuns.AnswersComeFromLoads | src/cache.rs:231-273 | in every run from an empty cache each resident content, and each answer, hits included, is the result of an ended load of its path |
| FlightRuns.CallKeepsItsPath | src/cache.rs:203-285 | a call stays with the path it was made for until it returns |
| FlightRuns.CallsEnd | src/cache.rs:203-285 | however the calls under way are scheduled they take no more steps than they have left, and as long as one has not returned some thread can step |
| FlightRuns.NothingLeftBehind | src/cache.rs:279-284 | once all calls have ended no lock is held, no cell is in flight, and every cell has run its loader exactly once and published the result |
| FlightRuns.LoadServesTheNext | src/cache.rs:225-273 | what one caller has loaded can serve the next one without another load |
| FlightRuns.FailureIsNotKept | src/cache.rs:279-284 | after a failed load the next caller of the path loads again |
| Text.LineStartsExact | src/protocol.rs:1418-1431 | the line-start vector ascends strictly and holds exactly byte zero and the byte after each LF |
| Text.ReferenceLineStarts | src/protocol.rs:1418-1431 | the scanning loop builds exactly that vector |
| Text.Utf8SplitAtLine | src/edit/mod.rs:112-118 | valid UTF-8 splits into valid UTF-8 at every line start |
| Unicode.ValidExactlyEncodings | src/protocol.rs:1398-1414 | bytes pass the UTF-8 check if and only if they are the encoding of a sequence of Unicode scalar values |
| Unicode.ValidUpToIsLongest | src/protocol.rs:1410-1413 | the offset in an encoding error is the length of the longest valid prefix |
| Protocol.ValidateTextDecides | src/protocol.rs:1386-1414 | text is accepted exactly when it is within the size cap, NUL-free and valid UTF-8 |
| Protocol.PositionsBijective | src/protocol.rs:1433-1451 | valid positions correspond one to one to the ordinals from zero to the line count; every other position is rejected with itself |
| Acceptance.ValidExactly | src/protocol.rs:1433-1456 | a position is valid if and only if its byte starts a line and as many LFs stand before it as its line says, or it is the end of the text one line past the last; its ordinal is its line less one |
| Protocol.FirstOverlapDecides | src/protocol.rs:1550-1559 | the pairwise scan finds no conflict exactly when no two edits overlap |
| Protocol.FindOverlap | src/protocol.rs:1550-1559 | the nested loop reports an overlapping pair before which, in request order, no pair overlaps, and nothing exactly when no two edits overlap |
| Protocol.CheckedFinalLengthExact | src/protocol.rs:1561-1578 | the checked sums fail exactly when the added bytes or the final length exceed a word, and removed bytes never exceed the source |
| Protocol.SpliceSorted | src/protocol.rs:1580-1602 | the cursor loop outputs what the replaces give one by one from the highest sort key to the lowest |
| Protocol.ResolveAll | src/protocol.rs:1525-1548 | the validation loop yields all edits resolved or the first error in request order |
| Protocol.ApplyReferenceEdits | src/protocol.rs:1516-1602 | the reference model yields the batch's first error, or its replaces done one by one |
| Protocol.ApplyVersionedReferenceEdits | src/protocol.rs:1692-1718 | identity is decided before any position, and a stale request gets the conflict payload |
| Protocol.ContextIsBounded | src/protocol.rs:1630-1672 | a conflict carries one to five lines, the clamped center line among them |
| Batch.ApplyDescending | src/protocol.rs:1580-1602 | applying a sorted batch one replace at a time from the highest key is the single left-to-right pass |
| Batch.SortStrategyIrrelevant | src/protocol.rs:1580-1586 | any sort by the three-part key gives the same order |
| Batch.SortedBatch | src/protocol.rs:1580-1602 | a compatible batch in key order never moves the cursor past a later start |
| Batch.RemovedFits | src/protocol.rs:1561-1575 | a compatible batch never removes more bytes than the source has |
| Batch.SplicedLength | src/protocol.rs:1571-1602 | the output has exactly the length computed beforehand |
| Batch.SplicedLf | src/edit/mod.rs:117-126 | newlines are conserved: those of the source, minus the replaced ones, plus the inserted ones |
| Batch.SpliceKeepsTextPolicy | src/edit/mod.rs:112-118 | splicing legal content at line boundaries of legal text gives NUL-free valid UTF-8 |
| EditTheorems.AcceptedExactly | src/protocol.rs:1516-1578 | a batch is applied if and only if every operation is legal, no two conflict and the output fits, with no reference to an order of checks |
| Acceptance.OverlapIsCollision | src/protocol.rs:1491-1504 | two edits conflict if and only if they replace a common line, or one inserts strictly inside what the other replaces; edits that only touch never conflict |
| Acceptance.AcceptedInPositions | src/protocol.rs:1516-1602 | a batch is accepted if and only if it has 1 to 1024 operations on legal text, each with NUL-free content between two valid positions in order, any two of them at most touch, and the output fits, stated on lines and bytes of the request alone |
| Acceptance.FirstIllegalReported | src/protocol.rs:1525-1548 | the first illegal operation is the one reported, for its content, its start, its end or their order, in this order |
| Acceptance.FirstCollisionReported | src/protocol.rs:1550-1559 | among legal operations the first pair that does more than touch is the one reported |
| Acceptance.OversizeReported | src/protocol.rs:1561-1578 | an output that does not fit is reported with its length, or as an overflow of a word |
| EditTheorems.OutputIsText | src/edit/mod.rs:112-118 | the output of every accepted batch is legal file text, which justifies the unchecked constructor |
| EditTheorems.OutputSizes | src/protocol.rs:1561-1602 | bytes and lines of the output are conserved |
| EditTheorems.AcceptanceIgnoresOrder | src/protocol.rs:1491-1504 | permuting a batch never changes whether it is accepted |
| EditOrder.OutputIgnoresOrder | src/protocol.rs:1580-1586 | permuting an accepted batch whose insertions are on different boundaries never changes the output |
| EditOrder.SharedInsertionsAreOrdered | src/protocol.rs:1580-1586 | in the output of any accepted batch, of two insertions at one boundary the one requested first stands first |
| EditOrder.OutputOrderExactly | src/protocol.rs:1580-1586 | every permutation of an accepted batch gives the same output if and only if any two insertions at one boundary have contents that may change places |
| EditOrder.OrderCanShow | src/protocol.rs:1580-1586 | on every text, two insertions at the start whose contents do not commute are accepted in both orders and the order shows |
| EditTheorems.WholeReplace | src/protocol.rs:1516-1602 | a replace from the first to the terminal boundary replaces the whole file |
| EditTheorems.StaleRequestConflicts | src/protocol.rs:1692-1718 | a request for another snapshot never edits: it conflicts with the fresh header and bounded context |
| Answers.EditAnswered | src/protocol.rs:1692-1718 | a well-formed request is decided by the batch on the snapshot it names, and otherwise told both identities, the header of what is there and the lines around its first position |
| Answers.BadEditRefused | src/protocol.rs:1465-1489 | a request with no or too many operations, or with a NUL in its contents, is refused for that whatever snapshot it names |
| Answers.ContextExactly | src/protocol.rs:1630-1672 | the context of a conflict is the lines within two of the line in question, brought into the file, as a read shows them |
| Answers.WriteAnswered | src/protocol.rs:1765-1804 | a write creates what is missing and was to be absent and replaces what it names; otherwise it is told what is there, under which identity, that nothing is there, or why what is there is no text |
| ToolAnswers.LoadAnswered | src/snapshot.rs:686-698 | a calm path loads as its text, as missing, or as the reason why its bytes are no text |
| ToolAnswers.EditOutcomeAnswered | src/edit/mod.rs:74-182 | a well-formed edit is decided on what was loaded, or on the empty text for a missing path; what could not be loaded otherwise is reported with the reason the load gave |
| ToolAnswers.RaceAnswered | src/write.rs:138-165 | a create that lost its race is told what is there, that it has vanished again, or why it cannot be read |
| Engine.ResolveBoundary | src/edit/engine.rs:108-123 | the offset lookup agrees with the reference rule on every position |
| Engine.TryFast | src/edit/engine.rs:126-193 | the fast path answers exactly when the reference model accepts, with the same bytes |
| Engine.ApplyEditsFast | src/edit/engine.rs:52-71 | for every snapshot and request the engine returns the reference result or its structured error |
| Snapshots.BuildNarrow | src/snapshot.rs:435-488 | the four-byte table is the line-start vector, or names the first offset that does not fit or the line count that does not match |
| Snapshots.BuildWide | src/snapshot.rs:435-488 | the eight-byte table is the line-start vector or names the line count that does not match |
| Snapshots.BuildOffsets | src/snapshot.rs:431-433 | with true counts the table is the line-start vector in the width the byte length calls for |
| Snapshots.ShortTextFits | src/snapshot.rs:369-376 | text short enough for the four-byte table has no line start that overflows it |
| Snapshots.KindExactly | src/snapshot.rs:369-376 | four bytes are used if and only if the line starts of every text of that length fit them |
| Snapshots.Snapshot.FromValidated | src/snapshot.rs:663-684 | a snapshot knows its exact bytes, identity, size and line count, with no table yet |
| Snapshots.Snapshot.Offsets | src/snapshot.rs:798-806 | the table is built once; width and count errors are unreachable |
| Snapshots.Snapshot.LineStart | src/snapshot.rs:909-918 | the start of every line that exists, and nothing for line zero or beyond the end |
| Snapshots.Snapshot.OrdinalOf | src/snapshot.rs:808-828 | agrees with the reference rule on every position, errors included |
| Snapshots.Snapshot.Slice | src/snapshot.rs:942-956 | the exact bytes between two boundaries, or the first error |
| Snapshots.SlicesCoverText | src/snapshot.rs:942-956 | the slices between consecutive boundaries concatenate to the text |
| Words.SetBitAppends | benches/hashline.rs:677-681 | setting a bit above all set bits appends its position to the positions of set bits |
| Words.ClearLowestDropsFirst | benches/hashline.rs:700-702 | `x & (x - 1)` removes exactly the lowest set bit |
| Words.NthBit | benches/hashline.rs:699-705 | clearing the lowest bit n times and counting trailing zeros gives set bit number n |
| RankSelect.SetAppends | benches/hashline.rs:677-681 | setting a position beyond all others appends it to the bitmap's positions |
| RankSelect.MarkLines | benches/hashline.rs:650-659 | the marked bits are exactly the line starts, counted exactly |
| RankSelect.BuildSuperblocks | benches/hashline.rs:661-670 | one rank before each group of eight words |
| RankSelect.ScanWords | benches/hashline.rs:690-707 | the word scan ends at the sought position |
| RankSelect.RankSelectBitmap.New | benches/hashline.rs:650-675 | the bitmap describes the content's line starts and their ranks |
| RankSelect.RankSelectBitmap.Select | benches/hashline.rs:683-708 | exactly the line-start vector's entry for each line below the line count, and nothing above it |
| RankSelect.RankSelectBitmap.SelectWindow | benches/hashline.rs:710-715 | exactly the window of the line-start vector, cut at the last line |
| Tokens.DecimalRoundTrip | src/protocol.rs:237-268 | decimal printing is canonical and denotes its number |
| Tokens.ParseCanonicalDecimal | src/protocol.rs:237-268 | overflow is reported exactly when the decimal value exceeds a word, and zero only for lines |
| Tokens.ParsePosition | src/protocol.rs:270-286 | the parser accepts exactly two canonical numbers around one separator, errors in the order of the source |
| Tokens.PrintThenParsePosition | src/protocol.rs:199-286 | printing then parsing is the identity on every position |
| Tokens.ParseThenPrintPosition | src/protocol.rs:199-286 | every accepted token is the print of its position |
| Tokens.PositionErrors | src/protocol.rs:270-286 | a token without separator, with more than one, or with a bad line or byte is told just that, the line first; form comes before size and size before a zero line |
| Tokens.SnapshotIdRoundTrips | src/protocol.rs:86-121 | snapshot identities print and parse mutually inversely |
| Tokens.TokenCharacters | src/protocol.rs:86-121 | identities are written in lower-case hexadecimal digits, positions around an `@`, the missing precondition as `absent` |
| Tokens.ExpectRoundTrips | src/protocol.rs:648-677 | the two forms of a write precondition print and parse mutually inversely and never collide |
| Render.DisplayLineContent | src/render.rs:28-39 | one LF and one CR before it are stripped, as `LineDisplay.LinesShownAsWritten` says without the function |
| LineDisplay.LinesShownAsWritten | src/render.rs:28-39 | lines written with CRLF or LF, mixed at will, and an unended last line are shown each with exactly its own content and offset: nothing of a terminator, and every bare CR |
| LineDisplay.EveryTextIsWritten | src/render.rs:28-39 | every text is written in such a way |
| Render.LastLineExact | src/render.rs:92-96 | the saturating window arithmetic equals the unbounded one on every text |
| Render.RenderSnapshotPage | src/render.rs:59-179 | the page text is the header, the lines asked for and a footer exactly while lines remain |
| Read.ValidateCursorOnSnapshot | src/read.rs:47-61 | the indexed check gives the reference result, error payloads included |
| Read.ReadPage | src/read.rs:72-142 | a read answers with the page from the line the request names, or the reference error |
| Read.CursorAccepted | src/read.rs:99-110 | a cursor is served, from its line on, if and only if it names this snapshot and the start of one of its lines; another snapshot conflicts, with both identities, the current header and the context; a position that starts no line is refused as itself |
| Read.StartLineAnswers | src/read.rs:102-122 | a legal request without cursor is always answered: the header and at most `limit` of all lines from the one named on, or the header alone beyond the end, with a footer that names the next line exactly while lines remain; an illegal one is refused for its limit or its zero line |
| Read.CursorChain | src/render.rs:92-176 | following footers with any legal limits never fails and yields exactly the lines of one window as long as all limits together |
| Read.ChainEnds | src/render.rs:161-176 | a chain from line one ends in a page without footer exactly when its limits reach the last line, and then holds every line once, in order |
| Read.EnoughRequests | src/render.rs:161-176 | as many requests as lines always make such a chain |
| Paging.FooterParses | src/protocol.rs:403-412 | a client reads back exactly the cursor the server meant |
| Paging.HeadingParses | src/protocol.rs:381-390 | a header reads back to identity, line count, byte count and quoted path |
| Paging.LineParses | src/protocol.rs:1676-1680 | a line row reads back to its position and content, whatever bytes but LF the content holds |
| Paging.PageParses | src/render.rs:133-178 | a page text reads back to its page: header, lines and footer are never mistaken for each other |
| Paging.ServedPagesParse | src/render.rs:133-178 | every rendered page reads back, and no other page has its text |
| Paging.PagingIsLossless | src/render.rs:28-39 | from the texts of any chain that starts at line one and ends in a page without footer the exact file can be rebuilt: LF or CRLF per line, bare CRs, missing final LF |
| Spans.IncludedSpans | src/grep.rs:154-168 | the loop merges the context windows one by one |
| Spans.MergedApart | src/grep.rs:143-168 | merged spans ascend with at least one line between them, none empty |
| Spans.MergedCovers | src/grep.rs:143-168 | merging neither adds nor loses a line |
| Spans.TrimCommutes | src/grep.rs:286-289 | trimming after merging is merging trimmed windows |
| Spans.SpansApart | src/grep.rs:286-289 | trimming empties no span and keeps them apart and inside the file |
| Spans.SpansShowContext | src/grep.rs:143-168 | the trimmed spans hold exactly the lines within the context of a match |
| Grep.RenderHit | src/grep.rs:251-351 | a section shows every line near a match once, in order, marked as match or context, with `--` rows exactly where line numbers jump |
| Grep.AdvanceCursor | src/grep.rs:326-333 | the moving cursor decides membership in the match list |
| Grep.MatchesAccounted | src/grep.rs:345-350 | a section's match count is the number of its match rows |
| Grep.ShownExactly | src/grep.rs:302-343 | the shown lines ascend and are exactly those near a match |
| GrepOutput.AssembleOutput | src/grep.rs:474-522 | the response lists hits while the budget lasts, and its summary has their total and says whether hits were withheld |
| GrepOutput.ModesAgree | src/grep.rs:468-473 | every mode reports the same files, total and truncation for the same hits |
| GrepOutput.BudgetKept | src/grep.rs:485-509 | only the last reported file can go over the budget, and hits are withheld only when it is used up |
| GrepRows.BodyRows | src/grep.rs:302-343 | the rows of a section that read as match rows are those of its match lines, whatever the lines hold |
| GrepRows.SummaryCountsRows | src/grep.rs:511-516 | the match count in the summary is the number of match rows in the text of the content response, as far as a word goes |
| GrepReading.SectionReads | src/grep.rs:302-343 | a section reads back row by row: each row has a line and byte that are a valid position, the mark of a match exactly for a match, and what a read shows of the line; the lines ascend and are exactly those in context that start before the end of the file, with `--` exactly where they are not consecutive |
| GrepReading.SummaryReads | src/grep.rs:511-516 | the summary reads back to its four values, each in its place |
| GrepReading.ResponseReads | src/grep.rs:474-522 | a response is the rows of its hits and one last row that reads back to the total, the truncation flag and the two counts of skipped files |
| GrepReading.FileListReads | src/grep.rs:500-503 | the file list reads back to the names, one row each |
| GrepReading.CountRowsRead | src/grep.rs:504-506 | the count rows read back to each name, whatever it holds but LF, and its match count |

## Left out

- PipelineTheorems.PathIsCasRegister: the external writer may act anywhere except between a thread's last destination check and its rename, because no check can cover that gap; one path is modelled, under one name, so aliases of a file are not.
- PipelineTheorems.OwnEvent: edits of a missing file are logged as unguarded replacements, because the source persists them without an expected state; `Unguarded.UnseenOverwriteExactly` says exactly when that matters.
- Cache.SnapshotCache.GetOrLoad: one server call at a time; the in-flight cells are not part of it, and a caller that joins an in-flight load may get bytes older than its call. An open file that lost its name is never written and inode numbers are never used again, on which the verification of a racy entry through an open file relies. Freshness is not claimed once a bracket has taken longer than the bound (`late`), which only a call that takes longer than the bound can bring about.
- Cache.SnapshotCache.VerifyRacyResident: the verification read is one step, and a concurrent refresh that finds the entry replaced under an equal stamp is not modelled.
- Cache.SnapshotCache.Insert: the byte count is exact for capacities below `u64::MAX`; at that capacity the saturating sums of the source lose count.
- Tools.EditFile: one call at a time, with the request already resolved to a path; the thread pool that runs it, its cancellation and the path lock are not part of it.
- Persist.AtomicWrite: I/O errors, durability modes, parent directories, permissions and removal failures of temporary files are not modelled; the external writer does not touch temporary files or files without a name.
- RankSelect.RankSelectBitmap.New: contents with more than `u32::MAX` lines are excluded, where the source panics; `SelectWindow` returns unbounded offsets where the source converts to `u32`.
- Render.RenderSnapshotPage: the capacity estimate, the unreachable empty-file branch and the unreachable address errors have no counterpart; the path enters as its JSON text, assumed to be free of LF and to determine the path.
- Grep.RenderHit: the match lines are given, ascending and inside the file, because the regex searcher is not modelled; the failure results, unreachable for text that passed the policy, are not either.
- GrepReading.FileListReads: file names are assumed to be free of LF, as the file list and the count rows do not quote them; content sections need no such assumption.
- GrepOutput.AssembleOutput: the hit list is given; whether the parallel walk found every hit before it stopped is not modelled.
- SingleFlight.LoadsNeverOverlap: stamps and verified refresh enter as a nondeterministic outcome of the claim; panics that poison a lock are not modelled.
- The Windows and fallback variants of file stamps, and memory exhaustion during allocation.
- `SparseCheckpoints` of the benchmarks, and the resident-size figures of the line tables.
- The glob tool, error-code tables, request schemas, root confinement, command line, MCP transport and logging, which would only add easy members.
