# Verified models of SQLite algorithms

This project models eight algorithms of SQLite 3.51.2 in Dafny and proves what they are for. Code that works by
changing things step by step is modelled as classes, arrays and methods with loops; each method is proved against a
specification, and the promises are proved about the specification, over all inputs and whole runs.

- **STAT4 sampling** (analyze.c): `Lex`, `Scan`, `Stat4`, `Stat4Invariant`, `Stat4Theorem`, `Stat4Asserts`,
  `Stat4Periodic`, `Stat4Frequent`, and in place `Stat4Accum` and `Stat4Scan`.
  A one-pass accumulator keeps a bounded set of samples whose counts are left unknown, filled in, upgraded or thrown
  out. At the end every count of every sample is exact. The argument: a sample is a row, its known counts are the
  lengths of finished runs, and an unknown count belongs to a run that is still open and has a preferred sample. The
  periodic samples are exactly every q-th row, and no prefix more frequent than those chosen is missed.
- **Shared-cache mutexes** (btmutex.c): `BtMutex`, `BtMutexProof`, `BtMutexCalls`. Many connections interleave at every
  single access to a mutex or a flag. No wait cycle, progress, a b-tree locked exactly when it is entered, and EnterAll
  and LeaveAll reach every sharable b-tree once.
- **Online backup** (backup.c): `Backup`, `BackupPages`, `BackupProof`, and in place `BackupObject`. Steps interleave
  with source writes, growth, truncation and external changes, for all pairs of page sizes.
- **Bit vectors** (bitvec.c): `BitvecSlots`, `Bitvec`. Bitmap, hash table and radix tree, converted in place.
- **Calendar** (date.c): `Calendar`, `JulianDay`, `DateTime`, `DateTimeObject`, `Operands`, `Timediff`,
  `TimediffProof`, `TimediffText`, `TimediffCases`, `TimediffFailures`, `DateLaws`, `IsoWeek`. The closed formulas count
  days; timediff is undone by the modifier, as numbers and as text, and %G and %V are the ISO week, each exactly when a
  stated condition holds.
- **Hash tables** (hash.c): `HashKeys`, `HashRuns`, `HashItems`, `Hash`. Buckets as runs of one doubly linked list.
- **dbstat** (dbstat.c): `DbStat`, `DbStatOnce`, `DbStatRows`, `DbStatPath`, `DbStatCursor`. A resumable walk with an
  explicit stack is the recursive preorder, each place once; its rows are the pages that paths lead to, in the order of
  the paths exactly when a stated condition holds.
- **Token substitution, column numbers, dropped roots** (alter.c, build.c): `AlterQuote`, `AlterEdit`, `Columns`,
  `DestroyTable`.

`Basics` and `Division` hold what several of them share.

Assumptions of the models, as the sources make them: one thread per connection, and lists of b-trees sorted by mutex
(btmutex.c:76-80); faults inside a backup step are fatal (backup.c:217, 679), and the source changes only through
Update and Restart; allocation succeeds but for the outcomes that hash.c documents.

Where code and documentation differ, the models follow the code:

- timediff documents that adding the difference to the second date gives the first (date.c:1603-1606). It need not.
  `TimediffProof.TimediffInverts` states for all arguments exactly when it does, in terms of the arguments, and
  `TimediffFailures` has arguments for each way in which the condition can fail: the second date is past the end of its
  month, the time is 24:00 or later, or the argument is a time with a time zone. With an hour of 24 the difference can
  even have a negative year, which the modifier rejects (`TimediffProof.AcceptedIff`).
- %V is one too small for some instants written with an hour of 24; `IsoWeek.IsoWeek` states exactly for which, and
  `IsoWeek.Sunday2026` is one.
- bitvec.c says that the hash table holds up to MXHASH values (bitvec.c:80-84); a value whose own slot is free is
  still added until one slot is left (bitvec.c:193-199). `Bitvec.Bitvec.SetInTable` states when a table is split, and
  `Bitvec.FillTable` fills one with all but one of its slots.
- sqlite3_backup_remaining is documented as the pages still to be copied; after the source has shrunk below what was
  copied it is negative (`BackupProof.RemainingExact`), as in the run of `BackupProof.NegativeRemaining`.
- sqlite3BtreeHoldsMutex asserts of a locked b-tree that pBt->db is its own connection (btmutex.c:163). Between leaving
  the mutex and clearing the flag this fails for one that looked from outside (`BtMutexProof.LockedByNone`); at all
  other points it holds (`BtMutexProof.LockedIsRecorded`).
- dbstat.c claims that its rows come in ascending order of name and path (dbstat.c:264), and has the statement's sorting
  dropped on that account. The cell numbers in a path have three hexadecimal digits, but from 4096 on they have four
  (dbstat.c:671), and '1000/' sorts before '200/'. `DbStatPath.ScanAscends` states exactly when the claim holds; it does not
  for any interior page with 4096 cells or more.

## Model

| member | source | states |
|---|---|---|
| Scan.StatisticsFromChanges | sqlite-src-3510200/src/analyze.c:558-779 | the exact counts of equal rows, lesser rows and distinct lesser prefixes of a row, defined as sets over the whole scan, follow from the first changed column of every row |
| Stat4Theorem.SamplesAreExact | sqlite-src-3510200/src/analyze.c:558-779 | for every strictly increasing scan of at most nEst rows: after the closing flush at most mxSample samples are kept, at most a third of them periodic, in strictly increasing key order, and every anEq, anLt and anDLt of every kept sample is the exact whole-scan count |
| Stat4Periodic.PeriodicExact | sqlite-src-3510200/src/analyze.c:460-764 | after the closing flush the periodic samples are exactly every q-th row of the scan, for the q > 0 with (q-1)*(mxSample/3+1) <= nEst < q*(mxSample/3+1); none is thrown out |
| Stat4Frequent.NoneMissed | sqlite-src-3510200/src/analyze.c:558-680 | after the closing flush, for every row and every number of leading index columns: the prefix has a kept sample, or the table is full and every kept sample that is not periodic was chosen for a prefix at least as frequent |
| Stat4Scan.Analyze | sqlite-src-3510200/src/analyze.c:401-884 | the accumulator itself, made by statInit, given every row by statPush and flushed as statGet does, holds exact samples in key order, within the same bounds, with exactly every q-th row as a periodic sample, and misses no more frequent prefix |
| Stat4Asserts.AssertionsHold | sqlite-src-3510200/src/analyze.c:562-665 | in every statPush of every scan of at most nEst rows, and in the closing flush: the offered count is positive, every sample that may be upgraded has a later column and is beaten, the appended sample comes after the last one, a full table has an iMin, and no count from nMaxEqZero on is unknown |
| Stat4Asserts.FlushAssertsOk | sqlite-src-3510200/src/analyze.c:650-668 | all assertions of one flush, offer by offer |
| Stat4Theorem.RunOk | sqlite-src-3510200/src/analyze.c:702-779 | after any number of pushed rows, zeroed, upgraded and evicted samples included, every known count is exact and every unknown one is that of a run still open |
| Stat4Theorem.StatPushOk | sqlite-src-3510200/src/analyze.c:702-779 | one pushed row keeps that invariant |
| Stat4Theorem.ArrivedOk | sqlite-src-3510200/src/analyze.c:723-755 | advancing the current row keeps the samples sound and turns the best candidates into ones of earlier rows |
| Stat4Theorem.PushPeriodicOk | sqlite-src-3510200/src/analyze.c:757-764 | inserting a periodic sample, with its unknown counts zeroed, keeps the samples sound |
| Stat4Theorem.UpdateBestOk | sqlite-src-3510200/src/analyze.c:766-772 | after the update, aBest[i] is a best row of the run that is open on columns 0..i |
| Stat4Theorem.FlushOk | sqlite-src-3510200/src/analyze.c:650-680 | a flush for column iChng leaves no unknown count from iChng on, and what it fills in is exact |
| Stat4Theorem.FillOk | sqlite-src-3510200/src/analyze.c:670-679 | filling the zeros with the current counts gives exact counts, and nMaxEqZero bounds what is still unknown |
| Stat4Theorem.PushDownOk | sqlite-src-3510200/src/analyze.c:655-661 | offering the best rows of all runs that end keeps the samples sound, one column after the other |
| Stat4Theorem.SettledExact | sqlite-src-3510200/src/analyze.c:650-680 | a sample with nothing unknown has the exact statistics of its row |
| Stat4Invariant.PushBestOk | sqlite-src-3510200/src/analyze.c:655-661 | offering the best row of one run: rejected, inserted or merged, the invariant holds for the next column |
| Stat4Invariant.OfferOk | sqlite-src-3510200/src/analyze.c:571-573 | an offered best row has the exact, positive count of the run that ends (the assertion on anEq) |
| Stat4Invariant.OfferLater | sqlite-src-3510200/src/analyze.c:614-618 | every sample of another run comes before the offered one (the assertion on the order of samples) |
| Stat4Invariant.OfferBeats | sqlite-src-3510200/src/analyze.c:580-590 | the assertions pOld->iCol>pNew->iCol and sampleIsBetter(pNew,pOld) hold for every sample that shares the run that ends |
| Stat4Invariant.UpgradeKnows | sqlite-src-3510200/src/analyze.c:586-593 | the upgraded sample already knows every count after the column it is upgraded to |
| Stat4Invariant.UpgradeOk | sqlite-src-3510200/src/analyze.c:591-594 | an upgrade keeps all counts right and its run covered |
| Stat4Invariant.InsertOfferOk | sqlite-src-3510200/src/analyze.c:598-640 | inserting an offer, evicting iMin if the table is full, keeps the table in order and its counts right |
| Stat4Invariant.RejectOk | sqlite-src-3510200/src/analyze.c:658-660 | a run whose offer is rejected needs no sample: every sample of it is covered |
| Stat4Invariant.FindNewMinOk | sqlite-src-3510200/src/analyze.c:629-639 | iMin is the least preferred sample that is not periodic |
| Stat4.PeriodicFew | sqlite-src-3510200/src/analyze.c:460-460 | with at most nEst rows at most mxSample/3 samples are periodic |
| Stat4.PeriodIs | sqlite-src-3510200/src/analyze.c:460-460 | the period is the only q > 0 with (q-1)*(mxSample/3+1) <= nEst < q*(mxSample/3+1) |
| Stat4.PrnIs | sqlite-src-3510200/src/analyze.c:755-755 | the hash of a row is congruent to 1103515245 times the one before it plus 12345, modulo 2^32 |
| Stat4.SomeNotPeriodic | sqlite-src-3510200/src/analyze.c:628-639 | a full table holds a sample that is not periodic, so the search for iMin succeeds |
| Stat4.InsertReady | sqlite-src-3510200/src/analyze.c:558-640 | after every insertion an eviction is possible again, and the number of periodic samples grows by the new one at most |
| Stat4.CandidateBest | sqlite-src-3510200/src/analyze.c:580-590 | the sample chosen for the upgrade is a best one of those with an open count in the column |
| Stat4.WorstIsWorst | sqlite-src-3510200/src/analyze.c:629-639 | the sample found as iMin is no better than any other that is not periodic |
| Stat4Accum.SampleIsBetterPost | sqlite-src-3510200/src/analyze.c:511-525 | the loop decides the lexicographic order of the remaining counts and the hash |
| Stat4Accum.SampleIsBetter | sqlite-src-3510200/src/analyze.c:535-552 | the comparison is the lexicographic order of count, column (smaller first), remaining counts and hash |
| Stat4Accum.BetterPostIs | sqlite-src-3510200/src/analyze.c:511-525 | the first later column in which the counts differ decides for the larger count; if there is none, the larger hash |
| Stat4Accum.BetterIs | sqlite-src-3510200/src/analyze.c:535-552 | a sample is preferred for the larger count in its column; then for the earlier column; then by the later counts and the hash |
| Stat4Accum.StatAccum.constructor | sqlite-src-3510200/src/analyze.c:401-486 | the empty accumulator, with the one period q for which (q-1)*(mxSample/3+1) <= nEst < q*(mxSample/3+1) |
| Stat4Accum.StatAccum.FindUpgrade | sqlite-src-3510200/src/analyze.c:580-590 | the search from the last sample to the first finds the upgrade candidate, or that a periodic sample shares the run |
| Stat4Accum.StatAccum.FindNewMinimum | sqlite-src-3510200/src/analyze.c:628-639 | iMin becomes the first least preferred sample that is not periodic |
| Stat4Accum.StatAccum.Raise | sqlite-src-3510200/src/analyze.c:591-593 | the upgrade writes the column and its count, and nothing else |
| Stat4Accum.StatAccum.Replace | sqlite-src-3510200/src/analyze.c:598-626 | the evicted sample goes, the later ones move up, the new one is last with its leading counts zeroed |
| Stat4Accum.StatAccum.SampleInsert | sqlite-src-3510200/src/analyze.c:558-640 | the array after sampleInsert is the specification Insert of the one before |
| Stat4Accum.StatAccum.OfferBest | sqlite-src-3510200/src/analyze.c:656-660 | one offer in place is the specification PushBest |
| Stat4Accum.StatAccum.SamplePushPrevious | sqlite-src-3510200/src/analyze.c:650-680 | the flush in place is the specification PushPrevious |
| Stat4Accum.StatAccum.FillSamples | sqlite-src-3510200/src/analyze.c:670-679 | the zeros from column iChng on are filled in every sample |
| Stat4Accum.StatAccum.Advance | sqlite-src-3510200/src/analyze.c:729-742 | the counters of the current row after a change in column iChng |
| Stat4Accum.StatAccum.ConsiderBest | sqlite-src-3510200/src/analyze.c:766-772 | the best rows after the current row has been considered |
| Stat4Accum.StatAccum.TakePeriodic | sqlite-src-3510200/src/analyze.c:757-764 | the periodic test and insertion |
| Stat4Accum.StatAccum.Push | sqlite-src-3510200/src/analyze.c:702-779 | one call of statPush in place is the specification StatPush, about which the theorems are proved |
| BtMutexProof.RunInv | sqlite-src-3510200/src/btmutex.c:27-215 | in every state of every interleaving of any number of connections running Enter, Leave, EnterAll and LeaveAll, flags, counts, owners and pBt->db are as the program points say |
| BtMutexProof.StepInv | sqlite-src-3510200/src/btmutex.c:27-215 | every step of every connection keeps that invariant |
| BtMutexProof.AssertionsHold | sqlite-src-3510200/src/btmutex.c:27-50 | the assertions of lockBtreeMutex and unlockBtreeMutex hold: not locked and not held before blocking, locked, held and pBt->db set before leaving |
| BtMutexProof.LockedWhenEntered | sqlite-src-3510200/src/btmutex.c:93-152 | between calls a sharable b-tree is locked, and its mutex held, exactly when it was entered more often than left, and then pBt->db is the own connection |
| BtMutexProof.LockedIsRecorded | sqlite-src-3510200/src/btmutex.c:162-165 | at every step of every run a locked b-tree has its mutex held and pBt->db equal to the own connection, but for the moment between leaving the mutex and clearing the flag, when it is not held |
| BtMutexProof.LockedByNone | sqlite-src-3510200/src/btmutex.c:48-49 | a run that shows this moment: locked is set, and another connection is in pBt->db |
| BtMutexProof.WaitsUpward | sqlite-src-3510200/src/btmutex.c:105-137 | a connection that asks for a mutex holds only smaller ones |
| BtMutexProof.WantsAscend | sqlite-src-3510200/src/btmutex.c:105-137 | along the waits-for relation the wanted mutexes strictly ascend |
| BtMutexProof.NoWaitCycle | sqlite-src-3510200/src/btmutex.c:63-70 | in no state of any run does the waits-for relation have a cycle |
| BtMutexProof.ChainEnds | sqlite-src-3510200/src/btmutex.c:63-70 | every wait chain leads to a connection that is not blocked |
| BtMutexProof.Progress | sqlite-src-3510200/src/btmutex.c:63-137 | whenever a call is under way, some connection can take a step, or one between calls can leave the b-tree that is waited for |
| BtMutexProof.CallsOk | sqlite-src-3510200/src/btmutex.c:186-215 | the calls of one EnterAll or LeaveAll name different b-trees of the connection, so each stays allowed until its turn, whatever the order of aDb |
| BtMutexProof.CallsAllowed | sqlite-src-3510200/src/btmutex.c:186-215 | EnterAll makes only allowed calls; LeaveAll does exactly if every sharable b-tree of the connection has been entered |
| BtMutexCalls.EnterAllEnters | sqlite-src-3510200/src/btmutex.c:186-202 | in every run, between the request and the end of an EnterAll of a connection: every sharable b-tree in its array has been entered once more, every other b-tree not, and those of the array are locked, with their mutexes held and pBt->db set |
| BtMutexCalls.LeaveAllLeaves | sqlite-src-3510200/src/btmutex.c:203-214 | in every run, a LeaveAll leaves every sharable b-tree in the array once and no other, and afterwards exactly those are locked and held that are still entered more often than left |
| BtMutexCalls.OneCallDone | sqlite-src-3510200/src/btmutex.c:75-152 | in every run a single Enter or Leave counts for its own b-tree alone |
| BtMutexCalls.RequestDone | sqlite-src-3510200/src/btmutex.c:186-215 | whatever other connections do meanwhile, a request changes how often each b-tree is entered by what its calls add up to |
| BtMutexCalls.NetEnter | sqlite-src-3510200/src/btmutex.c:186-197 | the calls of EnterAll enter every sharable b-tree of the array once, and no other |
| BtMutexCalls.NetLeave | sqlite-src-3510200/src/btmutex.c:203-211 | those of LeaveAll leave every sharable b-tree of the array once, and no other |
| BtMutexCalls.NothingSkipped | sqlite-src-3510200/src/btmutex.c:186-202 | in every run noSharedCache is set exactly after an EnterAll that found nothing sharable in the array |
| BtMutexProof.MoveInv | sqlite-src-3510200/src/btmutex.c:105-137 | every step inside btreeLockCarefully and unlockBtreeMutex keeps the invariant of all connections |
| BackupProof.DoneIsCopy | sqlite-src-3510200/src/backup.c:314-566 | in every run of steps, source writes, truncations and external changes, a step that reports SQLITE_DONE leaves a destination of the size of the source, equal to it byte by byte outside the 100-byte header and the source's pending-byte page |
| BackupProof.OneStepCopies | sqlite-src-3510200/src/backup.c:314-566 | for every pair of page sizes from 512 to 65536 and any source, one undisturbed step over all pages reports SQLITE_DONE with nRemaining 0 and leaves a copy |
| BackupProof.CopiedSoFar | sqlite-src-3510200/src/backup.c:390-401 | as long as there is no fatal error, every live source byte below page iNext is in the destination, unused pages and header aside |
| BackupProof.RunInv | sqlite-src-3510200/src/backup.c:314-707 | that invariant holds in every state of every run |
| BackupProof.EventOk | sqlite-src-3510200/src/backup.c:314-707 | every event keeps it |
| BackupProof.StepOk | sqlite-src-3510200/src/backup.c:329-559 | one call of sqlite3_backup_step keeps it and, if it reports completion, leaves a copy |
| BackupProof.StepRefused | sqlite-src-3510200/src/backup.c:337-383 | each refusal has its own result: SQLITE_BUSY for a source in a write transaction, the result of opening the read or the write transaction, a fatal error without memory for the page size or with different page sizes that cannot be set; nothing is copied, iNext, the counters and the attachment stay, and the locks taken are those opened before |
| BackupProof.StepActs | sqlite-src-3510200/src/backup.c:337-406 | a step that copies a page, advances, attaches the backup or reports success or completion met none of the refusals |
| BackupProof.RetryOrStop | sqlite-src-3510200/src/backup.c:329-330 | after SQLITE_BUSY a step does what it would have done without it; after a fatal error or completion it does nothing |
| BackupProof.StepFails | sqlite-src-3510200/src/backup.c:390-401 | a step in which reading or writing a page fails ends in a fatal error just after that page, without attaching and with the counters of before |
| BackupProof.PageFails | sqlite-src-3510200/src/backup.c:390-401 | and it has copied exactly the pages before that one |
| BackupProof.StepCommits | sqlite-src-3510200/src/backup.c:417-540 | a step that reports completion has committed, and the header of the destination is the one that was written |
| BackupProof.SizeInHeader | sqlite-src-3510200/src/backup.c:272-275 | copying page 1 stores the number of source pages, on 32 bits and big-endian, at offset 28 |
| BackupProof.UpdateOnly | sqlite-src-3510200/src/backup.c:661-685 | an update changes the destination only for a page already copied and only without an earlier error, and then in the bytes of that page alone; a failure is fatal |
| BackupProof.WriteOk | sqlite-src-3510200/src/backup.c:661-685 | a source write that reaches the backup through Update keeps it, before, at and after iNext |
| BackupProof.TruncateOk | sqlite-src-3510200/src/backup.c:388-410 | shrinking the source keeps it |
| BackupProof.DoneIsFinal | sqlite-src-3510200/src/backup.c:329-330 | after completion nothing that happens to the source reaches the destination |
| BackupProof.DirectWritesOk | sqlite-src-3510200/src/backup.c:505-520 | the direct writes put the source pages that share the destination's pending-byte page at their own offsets |
| BackupProof.SmallCommitOk | sqlite-src-3510200/src/backup.c:460-528 | with smaller source pages, page copies, direct writes and truncation leave exactly the source |
| BackupProof.LargeCommitOk | sqlite-src-3510200/src/backup.c:529-532 | with source pages at least as large, page copies and truncation leave exactly the source |
| BackupProof.FinishEmptyOk | sqlite-src-3510200/src/backup.c:417-421 | an empty source leaves the page of a new database; its size is that of a source page, or less if the pages of the destination are smaller and fewer |
| BackupProof.DestPagesOk | sqlite-src-3510200/src/backup.c:449-482 | the assertions on nDestTruncate hold for every page size and every source length |
| BackupProof.RemainingExact | sqlite-src-3510200/src/backup.c:402-405 | nRemaining is the number of pages still to copy exactly when the source has not shrunk below what was copied; otherwise it is negative |
| BackupProof.NegativeRemaining | sqlite-src-3510200/src/backup.c:402-405 | a run in which it is negative: step, truncate, step |
| BackupPages.OnePageOk | sqlite-src-3510200/src/backup.c:226-279 | for every pair of page sizes, copying a page puts each byte at its own offset, the destination's pending-byte page aside, and changes nothing else |
| BackupPages.SamePage | sqlite-src-3510200/src/backup.c:251-254 | a turn of the copy loop stays inside one destination page |
| BackupObject.BackupObject.CopyOnePage | sqlite-src-3510200/src/backup.c:226-279 | the loop over destination pages copies the whole source page, or its part outside the pending-byte page |
| BackupObject.BackupObject.CopyTurn | sqlite-src-3510200/src/backup.c:251-276 | one turn extends what has been copied by the bytes of one destination page |
| BackupObject.BackupObject.CopyLoop | sqlite-src-3510200/src/backup.c:390-401 | the page loop of a step is the specification CopyPages |
| BackupObject.BackupObject.TakeLocks | sqlite-src-3510200/src/backup.c:337-383 | the conditions under which a step stops before it copies anything, in place; BackupProof.StepRefused says which they are |
| BackupObject.BackupObject.WriteExtraPages | sqlite-src-3510200/src/backup.c:505-520 | the loop of direct writes is the specification DirectWrites |
| BackupObject.BackupObject.Complete | sqlite-src-3510200/src/backup.c:417-540 | completion: new database page, direct writes or truncation, and the final state |
| BackupObject.BackupObject.BackupStep | sqlite-src-3510200/src/backup.c:314-566 | one call in place is the specification Step, about which the theorems are proved |
| BackupObject.BackupObject.BackupUpdate | sqlite-src-3510200/src/backup.c:661-685 | one update in place is the specification Update |
| BackupObject.BackupObject.BackupRestart | sqlite-src-3510200/src/backup.c:701-707 | after a restart the invariant of the copy holds for whatever the source has become |
| Bitvec.RunProgram | sqlite-src-3510200/src/bitvec.c:131-275 | after any program of Set and Clear on 1..iSize, Test answers for any 32-bit number whether the last operation on it was Set |
| Bitvec.Bitvec.constructor | sqlite-src-3510200/src/bitvec.c:116-124 | a new vector is empty and valid |
| Bitvec.Bitvec.TestNotNull | sqlite-src-3510200/src/bitvec.c:131-153 | Test is membership, for 0 and numbers out of range too |
| Bitvec.Bitvec.Set | sqlite-src-3510200/src/bitvec.c:170-235 | Set adds i and no other member, in every representation and through every conversion; a vector with children keeps its divisor |
| Bitvec.Bitvec.Clear | sqlite-src-3510200/src/bitvec.c:243-275 | Clear removes i and no other member |
| Bitvec.Bitvec.SetInTable | sqlite-src-3510200/src/bitvec.c:189-234 | the table is split exactly if the value is new, the table has MXHASH values and the own slot of the value is taken or only one slot is free; otherwise a new value makes one more, in its own slot if that is free |
| Bitvec.FillTable | sqlite-src-3510200/src/bitvec.c:80-84 | a program of Set that fills a hash table with all but one of its slots, more than MXHASH values, without splitting it |
| Bitvec.Bitvec.Split | sqlite-src-3510200/src/bitvec.c:211-230 | the in-place conversion to children keeps all members and adds i |
| Bitvec.Bitvec.ToChildren | sqlite-src-3510200/src/bitvec.c:219-222 | the new divisor is the least that gives the children room for all of 1..iSize, or NBIT if that is larger, and it is smaller than iSize |
| Bitvec.Bitvec.Descend | sqlite-src-3510200/src/bitvec.c:176-184 | setting an element in its child changes no other child and no other element |
| Bitvec.Bitvec.Adopt | sqlite-src-3510200/src/bitvec.c:179-182 | a child is made on demand |
| Bitvec.Bitvec.Search | sqlite-src-3510200/src/bitvec.c:146-151 | linear probing ends, finds the value if it is there and the free slot where it belongs if not |
| Bitvec.Bitvec.SetBit | sqlite-src-3510200/src/bitvec.c:185-188 | setting a bit of the bitmap |
| Bitvec.Bitvec.ClearBit | sqlite-src-3510200/src/bitvec.c:255-256 | clearing a bit of the bitmap |
| Bitvec.Bitvec.ClearInTable | sqlite-src-3510200/src/bitvec.c:257-274 | rebuilding the hash table without i keeps all other members |
| Bitvec.Bitvec.ClearInChild | sqlite-src-3510200/src/bitvec.c:247-254 | clearing an element in its child |
| Bitvec.Bitvec.FreeFor | sqlite-src-3510200/src/bitvec.c:265-271 | the probe for a free slot in the rebuilt table ends |
| Bitvec.DivisorOk | sqlite-src-3510200/src/bitvec.c:220-222 | children are strictly smaller than their parent, have between them room for all its elements, and are no larger than that needs, but for NBIT |
| Bitvec.BinOk | sqlite-src-3510200/src/bitvec.c:177-178 | the bin of every element is below NPTR and its position below the divisor |
| Bitvec.BinInjective | sqlite-src-3510200/src/bitvec.c:177-178 | no two elements share bin and position |
| Bitvec.LayoutIsConfig | sqlite-src-3510200/src/bitvec.c:40-70 | for 4-byte and 8-byte pointers every object size with room for two pointers gives usable constants: the bitmap, the slots and the children each take the bytes that are left after three 4-byte fields, rounded down to whole pointers, and MXHASH is half the slots |
| BitvecSlots.SearchEnds | sqlite-src-3510200/src/bitvec.c:202-206 | a table with a free slot ends every probe |
| BitvecSlots.Absent | sqlite-src-3510200/src/bitvec.c:146-151 | a probe that meets a free slot proves the value absent |
| BitvecSlots.Add | sqlite-src-3510200/src/bitvec.c:231-234 | filling the free slot that the probe met keeps every value reachable |
| BitvecSlots.NotBefore | sqlite-src-3510200/src/bitvec.c:263-273 | no value is in two slots |
| BitvecSlots.SetBitOk | sqlite-src-3510200/src/bitvec.c:185-188 | setting bit k changes no other bit |
| BitvecSlots.ClearBitOk | sqlite-src-3510200/src/bitvec.c:255-256 | clearing bit k changes no other bit |
| JulianDay.DayNumberCounts | sqlite-src-3510200/src/date.c:277-285 | the formula of computeJD is the count of days of the proleptic Gregorian calendar (section 3.2.1 of ISO 8601:2004) from year -4713 on, and is linear in the day past the end of a month |
| JulianDay.YearStep | sqlite-src-3510200/src/date.c:281-283 | from one year to the next the formula grows by 365 or 366 |
| Calendar.DayZero | sqlite-src-3510200/src/date.c:20-22 | day 0 is 24 November of year -4713 |
| JulianDay.DateOfDayNumber | sqlite-src-3510200/src/date.c:475-487 | computeYMD inverts computeJD on every date up to year 9999 |
| JulianDay.DayNumberOfDate | sqlite-src-3510200/src/date.c:465-489 | every valid day number has a date in years -4713 to 9999, and the date leads back to the day number |
| DateLaws.FieldsInvert | sqlite-src-3510200/src/date.c:465-513 | on every valid instant computeYMD and computeHMS are inverted by computeJD |
| DateLaws.ValidIs | sqlite-src-3510200/src/date.c:451-460 | the valid instants are those from the start of the count to the last millisecond of year 9999 |
| DateTime.FloorDaysAre | sqlite-src-3510200/src/date.c:306-321 | nFloor is the number of days past the end of the month |
| DateLaws.FloorGoesBack | sqlite-src-3510200/src/date.c:770-784 | the modifier floor goes back to the last day of the month, and changes nothing inside it |
| DateTimeObject.DateTimeObject.ComputeJD | sqlite-src-3510200/src/date.c:260-298 | computeJD on the object, with its error, default date and time-zone cases |
| DateTimeObject.DateTimeObject.FromYMD | sqlite-src-3510200/src/date.c:277-285 | the start of a date is its number of days from the start of the count, month by month, past the end of the month too |
| DateTimeObject.DateTimeObject.ComputeYMD | sqlite-src-3510200/src/date.c:465-489 | computeYMD on the object |
| DateTimeObject.DateTimeObject.ToYMD | sqlite-src-3510200/src/date.c:476-486 | of every valid day number the date that exists in the calendar and is as many days from the start of the count |
| DateTimeObject.DateTimeObject.ComputeHMS | sqlite-src-3510200/src/date.c:494-505 | computeHMS on the object |
| DateTimeObject.DateTimeObject.ComputeFloor | sqlite-src-3510200/src/date.c:306-321 | the bit mask picks the months of 31 days |
| DateTimeObject.DateTimeObject.ApplySpan | sqlite-src-3510200/src/date.c:965-1033 | the modifier with a sign, a date and a time: what it rejects and what it does |
| DateTimeObject.DateTimeObject.MoveMonths | sqlite-src-3510200/src/date.c:981-992 | years and months are added or subtracted, and the month is brought back to 1..12 |
| DateTimeObject.DateTimeObject.TimeOfSpan | sqlite-src-3510200/src/date.c:1018-1026 | hours, minutes and seconds in milliseconds, where the hour 24 counts as 0 |
| DateTimeObject.DateTimeObject.Complete | sqlite-src-3510200/src/date.c:1129-1137 | range check and normalisation of an argument |
| Timediff.TimeDiff | sqlite-src-3510200/src/date.c:1612-1702 | both loops end; as many months as fit are taken, and the remainder is what is left |
| Timediff.GoBack | sqlite-src-3510200/src/date.c:1644-1657 | the loop for a later first date takes off the fewest months |
| Timediff.GoForth | sqlite-src-3510200/src/date.c:1678-1691 | the loop for an earlier first date takes off the fewest months |
| Timediff.Remainder | sqlite-src-3510200/src/date.c:1658-1700 | days and time of the remainder are read off a date in year 0 |
| TimediffProof.TimediffInverts | sqlite-src-3510200/src/date.c:1603-1606 | for all valid A and B, hour 24 and time zones included: timediff(A,B) added to B gives exactly A if and only if both are in the same month, or their months are ordered as their instants and the months of B and of the month that timediff reaches fit together; the condition is one on A and B |
| TimediffText.TextInverts | sqlite-src-3510200/src/date.c:1603-1706 | the same for the text that timediff prints and the modifier reads |
| TimediffText.RoundTrip | sqlite-src-3510200/src/date.c:953-1026 | the modifier reads from the printed text exactly the difference, for years of four and of five digits |
| TimediffText.DateRoundTrip | sqlite-src-3510200/src/date.c:953-1001 | a printed sign and date without a time is read back exactly if its numbers are in the ranges of getDigits, and otherwise not at all |
| TimediffText.ShortRoundTrip | sqlite-src-3510200/src/date.c:207-229 | so is a date with hours and minutes, or with whole seconds too |
| TimediffText.InRangeRead | sqlite-src-3510200/src/date.c:112-147 | whatever text is read, the numbers are in the ranges of getDigits |
| TimediffText.NegativeYear | sqlite-src-3510200/src/date.c:953-963 | a printed difference with a negative year is not read as a date |
| TimediffText.ReadsBack | sqlite-src-3510200/src/date.c:129-135 | reading the digits of a number gives the number |
| TimediffText.GetNumber | sqlite-src-3510200/src/date.c:129-135 | the loop of getDigits over the digits of one number |
| TimediffText.FindStop | sqlite-src-3510200/src/date.c:953-960 | the loop that finds the end of the year |
| TimediffProof.AcceptedIff | sqlite-src-3510200/src/date.c:965-979 | what timediff yields is accepted by the modifier exactly if the operands are in the same month or their months are ordered as their instants are |
| TimediffProof.MonthsAre | sqlite-src-3510200/src/date.c:1644-1691 | the months of a difference lead from the month of B to the month reached: that of A, or one of the two before it or after it, as day and time compare |
| TimediffProof.OrderedIs | sqlite-src-3510200/src/date.c:1644-1691 | the months of the difference are not negative exactly if the operands are ordered |
| TimediffProof.FitsIs | sqlite-src-3510200/src/date.c:980-1006 | moving the fields of B and moving the date of its instant lead to the same instant exactly if the time is not past 24:00 in the same month, or the two months crossed in part are equally long |
| TimediffProof.LeftOver | sqlite-src-3510200/src/date.c:1658-1700 | what is left over after the months is what remains of the difference, or 31 days less |
| TimediffProof.Added | sqlite-src-3510200/src/date.c:980-1032 | the modifier moves the month, keeps day, time and time zone even past the end of the month, and then adds days and time |
| TimediffProof.AddedDate | sqlite-src-3510200/src/date.c:980-1001 | a date without a time moves the month by its signed months, and adds its signed days |
| TimediffProof.NoTimeIsMidnight | sqlite-src-3510200/src/date.c:980-1032 | and it leads from any argument to the same instant, or error, as the same date with the time 00:00 or 24:00 |
| TimediffProof.DateAcceptedIs | sqlite-src-3510200/src/date.c:971-979 | a date without a time is accepted exactly with a year up to 14712, months 0 to 11 and days 0 to 30 |
| TimediffProof.AcceptedIs | sqlite-src-3510200/src/date.c:971-1022 | and one with a time exactly if besides its hour is at most 24, its minutes are below 60 and its seconds below 60 |
| TimediffProof.TooLate | sqlite-src-3510200/src/date.c:273-276 | months past the year 9999 are an error, with and without a time |
| TimediffCases.UsualInverts | sqlite-src-3510200/src/date.c:1603-1606 | without hour 24 and time zones the difference is always accepted, and gives A unless the day of B is past the end of its month, A is not in the month that B is really in, and the month before the one reached is not as long as the month of B |
| TimediffCases.Exists | sqlite-src-3510200/src/date.c:1612-1702 | any two operands have a difference |
| TimediffCases.Unique | sqlite-src-3510200/src/date.c:1612-1702 | and only one |
| Operands.ViewOf | sqlite-src-3510200/src/date.c:260-298 | a valid argument stands for the instant that its fields name, whether it is a date, a time, both or a number, with hour 24 and time zones |
| Operands.OperandOf | sqlite-src-3510200/src/date.c:1129-1137 | what timediff works with is the same instant, in the month of the fields or the one before or after it |
| TimediffFailures.FebruaryThirtyFirst | sqlite-src-3510200/src/date.c:1603-1606 | the invariant fails for the 31 February of any year without leap day, past the end of its month |
| TimediffFailures.DayShort | sqlite-src-3510200/src/date.c:1129-1137 | it fails for 30 January 24:00: the date is computed anew, the time is not |
| TimediffFailures.DaysLost | sqlite-src-3510200/src/date.c:1678-1693 | it fails for 30 January 24:30 and 1 December before it: 31 days of the remainder are lost |
| TimediffFailures.MonthAhead | sqlite-src-3510200/src/date.c:1625-1643 | the difference of 28 February 24:00 and 1 March is rejected: one month back, and no time |
| TimediffFailures.MonthBehind | sqlite-src-3510200/src/date.c:1660-1677 | so is that of 1 March and 28 February 24:30 |
| TimediffFailures.DateAhead | sqlite-src-3510200/src/date.c:1644-1657 | and that of 1 February and 30 January 24:30 |
| TimediffFailures.ZoneDayShort | sqlite-src-3510200/src/date.c:287-296 | it fails for a time with a time zone, which is of 1 January 2000 but of an instant in December |
| TimediffFailures.ZoneTooLate | sqlite-src-3510200/src/date.c:273-276 | and it leads such a time past the year 9999 |
| IsoWeek.SameWeek | sqlite-src-3510200/src/date.c:1447-1461 | two valid days have the same %G and %V exactly if they are in the same week from Monday to Sunday (section 2.2.10 of ISO 8601:2004) |
| IsoWeek.January4 | sqlite-src-3510200/src/date.c:1534-1543 | the week of 4 January is week 1 of its year |
| IsoWeek.WeekBounds | sqlite-src-3510200/src/date.c:1534-1543 | %V is between 1 and 53, and the Thursday of the week is in that week of year %G |
| IsoWeek.IsoWeek | sqlite-src-3510200/src/date.c:1447-1543 | for every valid date and time, hour 24 included: the values computed for %G and %V are the week date exactly if the hour is below 24, or the year does not start with a Thursday, or the Thursday of the week is 1 January; otherwise %V is one too small |
| IsoWeek.WeekOneAgain | sqlite-src-3510200/src/date.c:1334-1342 | in any year that starts with a Thursday, 4 January 24:00 is in week 2 but yields week 1 |
| IsoWeek.Sunday2026 | sqlite-src-3510200/src/date.c:1334-1342 | 2026 is such a year |
| IsoWeek.ThursdayOf | sqlite-src-3510200/src/date.c:1447-1453 | moving to the Thursday of the week |
| IsoWeek.CountFromJan01 | sqlite-src-3510200/src/date.c:1333-1342 | the days of the year before the date, one less if the instant is a day before the date |
| IsoWeek.CountFromMonday | sqlite-src-3510200/src/date.c:1353-1356 | so many days before the date it was Monday |
| HashKeys.SameHash | sqlite-src-3510200/src/hash.c:55-73 | keys that differ only in case have the same hash |
| HashKeys.SameKeyIs | sqlite-src-3510200/src/util.c:416-433 | keys are the same exactly if they are equally long and equal byte by byte but for the case of ASCII letters |
| HashKeys.ComputeHash | sqlite-src-3510200/src/hash.c:55-73 | the loop of strHash on 32-bit numbers |
| HashRuns.RunsInsert | sqlite-src-3510200/src/hash.c:79-104 | putting an element before the first of its bucket, or at the front if the bucket is empty, keeps every bucket one contiguous run |
| HashRuns.RunsRemove | sqlite-src-3510200/src/hash.c:188-216 | so does removing any element |
| Hash.BucketsInsert | sqlite-src-3510200/src/hash.c:79-104 | the chains of all buckets that are not empty still point to their first elements |
| Hash.BucketsRemove | sqlite-src-3510200/src/hash.c:188-216 | and so they do after a removal, while the chain of an emptied bucket may be stale |
| Hash.HashTable.constructor | sqlite-src-3510200/src/hash.c:23-29 | an empty table |
| Hash.HashTable.Link | sqlite-src-3510200/src/hash.c:92-103 | linking an element into the doubly linked list, before another one or at the front |
| Hash.HashTable.Enter | sqlite-src-3510200/src/hash.c:84-91 | counting an element in its bucket; a stale chain is not used |
| Hash.HashTable.InsertElement | sqlite-src-3510200/src/hash.c:79-104 | list and buckets after insertElement |
| Hash.HashTable.Rehash | sqlite-src-3510200/src/hash.c:113-146 | every element is linked again, none is lost; there are then as many buckets as were asked for, within the limit, and those that the allocator gives in excess; when the allocation fails or the size is the same nothing changes |
| Hash.HashTable.RelinkAll | sqlite-src-3510200/src/hash.c:141-144 | relinking in place while walking the old list |
| Hash.HashTable.Candidates | sqlite-src-3510200/src/hash.c:163-172 | only the run of the bucket, or the whole list, can hold a key |
| Hash.HashTable.FindElement | sqlite-src-3510200/src/hash.c:153-183 | the element with the key is found, or the map does not have the key |
| Hash.HashTable.Walk | sqlite-src-3510200/src/hash.c:174-182 | the walk over count elements |
| Hash.HashTable.Unlink | sqlite-src-3510200/src/hash.c:193-200 | taking an element out of the list |
| Hash.HashTable.Leave | sqlite-src-3510200/src/hash.c:201-208 | taking it out of its bucket |
| Hash.HashTable.RemoveElement | sqlite-src-3510200/src/hash.c:188-216 | list, buckets and count after a removal, which clears the table when it was the last |
| Hash.HashTable.Clear | sqlite-src-3510200/src/hash.c:35-50 | an empty table |
| Hash.HashTable.Find | sqlite-src-3510200/src/hash.c:222-226 | the data of the key in the map, or null |
| Hash.HashTable.Insert | sqlite-src-3510200/src/hash.c:242-272 | insertion, replacement, removal and failed allocation are those of a finite map over keys without case, and so is the result; elements and buckets are those of before or new ones; the number of buckets changes only with a fifth or later element that would be more than two to a bucket, for three times the elements, and with the last removal |
| Hash.HashTable.Add | sqlite-src-3510200/src/hash.c:261-270 | a new element, with more buckets first if there are too few |
| Hash.HashTable.Update | sqlite-src-3510200/src/hash.c:250-258 | replacing or removing an element that is there |
| Hash.LastStored | sqlite-src-3510200/src/hash.c:242-272 | after any insertions the map has for a key the data of the last one for it that succeeded |
| Hash.RunInserts | sqlite-src-3510200/src/hash.c:222-272 | any calls of Insert on a new table and then a Find: every call returns the data stored before it, or its own data without memory, the find returns the data of the last call for the key that succeeded, and a table that gets its buckets has at most two elements to a bucket from five on |
| Hash.Result | sqlite-src-3510200/src/hash.c:242-272 | the result of a call in terms of the calls before it |
| HashItems.ContentsAdd | sqlite-src-3510200/src/hash.c:260-271 | a new item adds its entry to the map |
| HashItems.ContentsRemove | sqlite-src-3510200/src/hash.c:188-216 | removing an item removes its entry and no other |
| HashItems.ContentsReplace | sqlite-src-3510200/src/hash.c:250-258 | replacing key and data of an item replaces its entry |
| HashItems.ContentsRearranged | sqlite-src-3510200/src/hash.c:141-144 | another order is the same map |
| DbStat.LocalPayloadOk | sqlite-src-3510200/src/dbstat.c:371-391 | the assertions of the decoder: the local part is between 0 and the record and at most nUsable-35, and a record that fits is stored whole |
| DbStat.StoredWhole | sqlite-src-3510200/src/dbstat.c:371-391 | a record of at most nUsable-35 bytes on a table leaf, or of at most (nUsable-12)*64/255-23 on an index page, is stored whole |
| DbStat.StoredInPart | sqlite-src-3510200/src/dbstat.c:371-391 | of a larger one between (nUsable-12)*32/255-23 bytes and that limit are: so many that the rest fills its overflow pages whenever that is possible, and otherwise the least |
| DbStat.OverflowOk | sqlite-src-3510200/src/dbstat.c:471-478 | the overflow chain has the right length, and its last page is neither empty nor too full |
| DbStat.CellBytes | sqlite-src-3510200/src/dbstat.c:465-494 | local part and overflow pages add up to the record |
| DbStat.PayloadIsRecords | sqlite-src-3510200/src/dbstat.c:613-714 | the payload of all rows of a tree is the size of all its records |
| DbStatCursor.DecodePage | sqlite-src-3510200/src/dbstat.c:446-497 | decoding a page: the cells, the largest record and the right child |
| DbStatCursor.DecodeOne | sqlite-src-3510200/src/dbstat.c:451-495 | decoding a cell |
| DbStatCursor.ReadChain | sqlite-src-3510200/src/dbstat.c:481-493 | following an overflow chain |
| DbStatCursor.StatCursor.StatNext | sqlite-src-3510200/src/dbstat.c:570-724 | one row at a time: each call shows the next row of the recursive preorder (page, then for each cell its overflow chain and its child, last the right child) and leaves the rest |
| DbStatCursor.Scan | sqlite-src-3510200/src/dbstat.c:570-724 | stepping to the end gives the rows of all trees in that order, no place twice: exactly the pages of the trees, and each page once exactly if no page is used twice; each row shows the page at its place, and they are in the order of their paths exactly under the condition of DbStatPath.ScanAscends |
| DbStatOnce.SpotsOnce | sqlite-src-3510200/src/dbstat.c:570-724 | no two rows have the same tree and place |
| DbStatOnce.PlacesOnce | sqlite-src-3510200/src/dbstat.c:570-724 | no two rows of a tree have the same place: the children taken decide |
| DbStatOnce.PagesOnce | sqlite-src-3510200/src/dbstat.c:570-724 | the page numbers of the rows are those of the trees, and none comes twice exactly if no page is shared |
| DbStatCursor.StatCursor.StatNextAggregate | sqlite-src-3510200/src/dbstat.c:582-719 | in aggregate mode one call walks a whole tree and counts all its rows |
| DbStatCursor.ScanTotals | sqlite-src-3510200/src/dbstat.c:570-724 | the aggregate rows add up the pages, cells, payload and unused bytes of the rows of each tree, have the largest of its records, and their payload is the size of its records |
| DbStatRows.RowsShow | sqlite-src-3510200/src/dbstat.c:40-78 | the rows of a tree are at the places to which paths from the root lead, overflow pages included, all of them and no others, and show the page there: number, type, cells, payload, unused bytes and largest record |
| DbStatRows.HasRow | sqlite-src-3510200/src/dbstat.c:570-724 | every page that a path leads to, and every page of a chain as long as the rest of a record needs, has its row |
| DbStatRows.RowsOk | sqlite-src-3510200/src/dbstat.c:613-714 | every row shows the page at the end of its path |
| DbStatRows.ScanShows | sqlite-src-3510200/src/dbstat.c:570-724 | so it is for all the trees of a scan |
| DbStatRows.TotalsAddUp | sqlite-src-3510200/src/dbstat.c:680-719 | what the counters of a tree add up, field by field |
| DbStatPath.ScanAscends | sqlite-src-3510200/src/dbstat.c:264-281 | the rows of each tree are in ascending order of path, which the table claims, exactly if no interior page has 4096 or more cells and on no leaf a cell with overflow pages numbered 4096 or more comes after one whose three-digit numeral sorts later |
| DbStatPath.AscendIff | sqlite-src-3510200/src/dbstat.c:34-71 | that for one tree, and every page of it |
| DbStatPath.CellOrder | sqlite-src-3510200/src/dbstat.c:670-671 | the numerals of two cells are in order exactly if both have three digits, or both four, or the first is at most the leading three digits of the second |
| DbStatPath.FewCells | sqlite-src-3510200/src/dbstat.c:264-281 | with fewer than 4096 cells on every page the rows are in order |
| DbStatPath.ChainFirst | sqlite-src-3510200/src/dbstat.c:61-67 | the overflow pages of a cell sort before its child |
| DbStatCursor.StatCursor.EmitOverflow | sqlite-src-3510200/src/dbstat.c:620-638 | one overflow page: its row, and what it adds to the counts |
| DbStatCursor.StatCursor.WalkCells | sqlite-src-3510200/src/dbstat.c:612-642 | the nested loops over cells and overflow pages |
| DbStatCursor.StatCursor.Descend | sqlite-src-3510200/src/dbstat.c:654-673 | going down to the next child |
| DbStatCursor.StatCursor.Pop | sqlite-src-3510200/src/dbstat.c:644-653 | leaving a page that is over |
| DbStatCursor.StatCursor.Visit | sqlite-src-3510200/src/dbstat.c:680-719 | reading a page: its row, and what it adds to the counts |
| DbStatCursor.StatCursor.NextRoot | sqlite-src-3510200/src/dbstat.c:583-603 | taking up the next tree |
| DbStatCursor.ChildStep | sqlite-src-3510200/src/dbstat.c:654-673 | what is still to come splits into the child's tree and the rest |
| DbStatCursor.OverflowStep | sqlite-src-3510200/src/dbstat.c:614-639 | what is still to come splits into the overflow page's row and the rest |
| AlterEdit.RenameEditSql | sqlite-src-3510200/src/alter.c:1195-1291 | editing from the rightmost token to the leftmost in one buffer gives the one pass from left to right, for any order of disjoint tokens and in both modes, and never leaves the buffer |
| AlterEdit.RenameCtx.ColumnTokenNext | sqlite-src-3510200/src/alter.c:1038-1050 | the rightmost token is taken off the list |
| AlterEdit.Substitute | sqlite-src-3510200/src/alter.c:1277-1285 | memmove, end of text and memcpy replace the token inside the buffer |
| AlterEdit.Replaced | sqlite-src-3510200/src/alter.c:1277-1285 | replacing the rightmost token that is left extends the finished part to it |
| AlterEdit.StillRoom | sqlite-src-3510200/src/alter.c:1212-1234 | after each replacement there is room for those still to come |
| AlterEdit.FixGrows | sqlite-src-3510200/src/alter.c:1260-1274 | a token in single quotes is less than twice as long as in double quotes, so the printed text is not cut off |
| AlterEdit.ReplacementFor | sqlite-src-3510200/src/alter.c:1250-1275 | the text chosen for a token |
| AlterEdit.ReplacementMeans | sqlite-src-3510200/src/alter.c:1250-1275 | a token is replaced by the bare new name exactly if no quotes are asked for and it starts as an identifier; any other is put in quotes, double for a new name and single for a fix, and means the new name, or what the token meant, whatever follows, unless that is a quote that was not there before |
| AlterEdit.TokenMeans | sqlite-src-3510200/src/alter.c:1195-1291 | in the edited text every quoted token means the new name, or what it meant, if no other token comes right after it |
| AlterEdit.Adjacent | sqlite-src-3510200/src/alter.c:1257-1264 | two quoted tokens without anything between them run together: the first no longer means it |
| AlterEdit.Requote | sqlite-src-3510200/src/alter.c:1266-1274 | dequoting and quoting again by way of the two buffers |
| AlterQuote.Dequote | sqlite-src-3510200/src/util.c:298-319 | dequoting in place |
| AlterQuote.DequotedQuoted | sqlite-src-3510200/src/util.c:298-319 | dequoting undoes quoting, so the quote fix keeps the meaning of a string |
| AlterQuote.QuotedThen | sqlite-src-3510200/src/util.c:298-319 | a quoted text is read as what was quoted exactly if no quote comes right after it |
| AlterEdit.OnePassNoNul | sqlite-src-3510200/src/alter.c:1289-1289 | the edited text has no character that ends it early |
| Columns.TableColumnToStorage | sqlite-src-3510200/src/build.c:1154-1169 | the storage number: stored columns first, then virtual ones |
| Columns.StorageColumnToTable | sqlite-src-3510200/src/build.c:1106-1114 | the table column of a storage number, without looking beyond the last column |
| Columns.RoundTrip | sqlite-src-3510200/src/build.c:1106-1169 | the second undoes the first on every stored column |
| Columns.InRange | sqlite-src-3510200/src/build.c:1120-1147 | stored columns are numbered below nNVCol and virtual ones from there on |
| Columns.KeepsOrder | sqlite-src-3510200/src/build.c:1135-1147 | the order among stored columns, and among virtual ones, is kept |
| Columns.Injective | sqlite-src-3510200/src/build.c:1154-1169 | no two columns share a storage number |
| Columns.Onto | sqlite-src-3510200/src/build.c:1154-1169 | every number below nCol is the storage number of a column |
| DestroyTable.Destroy | sqlite-src-3510200/src/build.c:3310-3353 | each distinct root page of a table and its indices is destroyed once, in strictly decreasing order |
| DestroyTable.LargestBelow | sqlite-src-3510200/src/build.c:3332-3343 | the largest root page below the last one destroyed |
| DestroyTable.RunTracked | sqlite-src-3510200/src/build.c:3310-3353 | for any set of other roots: no root still to be destroyed is relocated, exactly the given trees go, and every other root page number in memory keeps leading to its own tree |
| DestroyTable.AscendingFails | sqlite-src-3510200/src/build.c:3315-3325 | for any file: destroying a root while the largest one is still to be destroyed relocates that one |
| DestroyTable.Schema.RootPageMoved | sqlite-src-3510200/src/build.c:3250-3271 | every number that was iFrom becomes iTo, not only the first |

## Left out

- Timediff.TimeDiff: it returns the numbers of the difference; TimediffText.Printed is their text.
- TimediffText.RoundTrip: the reader is that of a sign, a date and a time to whole milliseconds; other forms of modifiers, longer fractions and a time zone after the time are not read.
- Stat4Theorem.SamplesAreExact: samples are values in the arrays, so the reuse of count buffers by pointer on eviction is not captured; the seed of the hash is a parameter; counters are unbounded; mxSample 0, and the skipping ahead of PRAGMA analysis_limit, are left out.
- BtMutexProof.RunInv: btmutex.c is modelled as a state machine over its single steps and not as methods, since other connections act between any two of them; noSharedCache is read when a call begins.
- BackupProof.DoneIsCopy: one backup per source, not a list of them; page sizes stay as they are during a backup; a page whose copy fails is not partly written; page counts are unbounded.
- Bitvec.Bitvec.Set: the descent into children is a call on the child where the source loops; bitmap, hash table and children are separate arrays and do not share memory; allocation does not fail.
- DateTimeObject.DateTimeObject.ComputeJD: seconds are whole milliseconds; constants such as 30.6001 are exact fractions.
- Hash.HashTable.Insert: counts are unbounded; freeing memory is not modelled; keys are compared by sqlite3StrICmp as equality after folding ASCII letters.
- DbStatCursor.DecodePage: a page is its decoded header, cells and right child, not its bytes, so the header and the list of free blocks, nUnused included, are given.
- DbStatCursor.DecodeOne: the varints and the child number of a cell are given as numbers.
- DbStatCursor.StatCursor.StatNext: well-formed trees of at most 32 levels and non-empty files only, so corrupt pages and a full stack do not occur; file offsets and the ZIPVFS size are left out; the path is kept in aggregate mode too. The two modes are two methods.
- DbStatPath.ScanAscends: within each tree; the order of the trees is that of the statement that finds the roots. The text of a path is a function of the cell numbers that the cursor keeps.
- DbStat.LocalPayloadOk: for at least 480 usable bytes, the least that SQLite allows.
- AlterEdit.RenameEditSql: the list of tokens is a sequence; the printed forms %w and %Q are the functions Quoted.
- Columns.StorageColumnToTable: numbers are unbounded, where the source has 16 bits.
- DestroyTable.RunTracked: what OP_Destroy does to the file is modelled as the comment in build.c describes it; the b-tree layer is not part of this model.
- Pager, file system, mutex internals, VDBE code generation, the localtime and utc modifiers, and floating-point text are outside the models.
- The Flask application in the same repository: database access without an invariant of its own.
- complete.c, dbpage.c, carray.c, auth.c, callback.c, attach.c, fault.c and mem0.c: small state and no invariant across calls.
