# CrashMonkey block-level model

CrashMonkey checks whether a file system survives a crash. It records the block requests of a workload,
restores a copy-on-write RAM disk to the state before the workload, and replays *crash states* onto it: prefixes
and permutations of the recorded writes that a power failure could have left behind.

This project models that pipeline and proves what it delivers:

| file | models |
|---|---|
| `DiskOps.dfy` | the flag word of a request, one log entry, and what replaying entries does to a disk image |
| `LogFile.dfy` | the profile file: hexadecimal header fields, raw data bytes, newline |
| `Epochs.dfy` | cutting a log into epochs, as a function of the log |
| `EpochOrder.dfy` | what barriers mean for epochs and crash states, in positions of the log and bits of the flag words |
| `Shuffle.dfy` | the shrinking list of empty slots: picks and arrangements |
| `CrashStates.dfy` | which crash states are legal, what the generator reaches, the duplicate key, the number of states |
| `CrashPermuter.dfy` | the permuter object, with the loops of the cutter and of the generator |
| `PageTree.dfy` | the copy-on-write page tree as values, and the flat disk that its readers see |
| `Segments.dfy` | many segments one behind the other: which bytes a request or a whole run loses |
| `CowBrd.dfy` | one RAM disk device object that owns page objects |
| `CowRuns.dfy`, `CowDriver.dfy` | whole runs of a base device and its snapshots, as values and on the device objects |
| `Recorder.dfy`, `DiskWrapper.dfy` | the logging device: its log as a state machine, and as the linked list with a cursor |
| `BlockFile.dfy` | `write(2)` on a device file, short writes, and the replay loop |
| `Recording.dfy` | mounting and recording a workload, what the crash states of its log hold, and which disks they can restore |
| `Harness.dfy` | what a round of checks does to the disks, recording on a snapshot, and the history of the rounds |
| `TestRounds.dfy` | the harness object: fetching, saving, loading and restoring a log, the loop over the rounds, and the program from its start |
| `Finite.dfy`, `Wrappers.dfy` | sizes of finite sets, and an option type |

The loops and the objects that are updated in the modelled C and C++ code are loops and objects here, except where
"Left out" says otherwise; each is proved against a function of values, and the theorems are about those functions.

## What is shown

* **Recording is faithful, and exactly when.** Replaying the recorded entries onto the disk from before a workload gives
  exactly the target disk after it, whatever the pages hold, if and only if the run loses no byte: wherever a segment
  puts the parent's byte in the place of one that the device held by then, a later segment writes
  (`Recorder.RecordReplayIff`, for every run of reads, writes and flushes, of any number of segments). Runs on a base
  device lose nothing. For a single request the condition reads: it ends at the end of a page or of the disk, or no
  segment crosses into the page where it ends, or the device and its parent do not both hold that page
  (`Recorder.BioReplayIff`). How `write(2)` splits the transfers does not matter (`BlockFile.TestWriteData`).
* **The generator is exact.** Its states are the legal crash states, all of them and no others
  (`CrashStates.GenExact`); inside an epoch each legal arrangement has exactly one sequence of picks
  (`CrashStates.PicksExact`); the duplicate key tells states apart (`CrashStates.KeyIsFaithful`); there are exactly
  `StateCount` of them (`CrashStates.StatesSize`), which bounds how many the permuter can ever hand out. A state can
  be handed out as new if and only if it is legal and its index vector is not remembered
  (`CrashPermuter.HandsOutIff`).
* **Barriers are respected.** An epoch holds exactly the operations with the same number of barriers in front of them,
  and the data halves waiting there (`EpochOrder.EpochMembersIff`, in bits of the flag words). Whatever is drawn, a
  crash state that holds something recorded behind a barrier holds everything recorded up to that barrier, in front of
  it (`EpochOrder.CrashOrder`), and a barrier that is not taken apart comes after everything recorded before it
  (`EpochOrder.BarrierComesLast`). Without barriers every selection in every order is a crash state
  (`EpochOrder.FreeOrderIff`).
* **Rounds are isolated.** Each round draws the first new state that its random draws give, or the rounds end because
  the permitted tries are exhausted. The history of the disks leads without a gap from the disks before the rounds to
  the disks after them, each round from where the one before left them
  (`TestRounds.Tester.TestCheckRandomPermutations`). Whatever the checker, the file system and the test wrote in earlier
  rounds, the disk that is checked is the base with that state replayed onto it (`Harness.RoundIsolated`); when no write
  call reports an error, every state that lies on the disk is checked. The states are legal and no two of them are the
  same (`Harness.RoundsBound`). `TestRounds.TestFromScratch` runs the whole program: it makes the disks, sets up the
  base, freezes it, records on a snapshot and runs the rounds.
* **From end to end**, for a workload whose flushes with data are all followed by ordinary requests: some crash state
  restores the workload's final disk if and only if the workload writes every byte that mounting had changed before
  (`Recording.EndToEndIff`). The complete log is among the crash states if and only if the flushes are followed like
  that (`Recording.CompleteStateIff`).

## Where the code departs from its evident intent

The model follows the code, and the theorems say exactly when the code does what it seems to be meant to do.

* A write to a snapshot that crosses into a page held by both the snapshot and its parent takes the bytes behind the
  data from the parent, so that earlier writes there are lost. `PageTree.SafeWriteIff` gives the exact condition on the
  pages held; `PageTree.WriteIsFlatIff` the exact condition on their contents.
* A read from a snapshot that crosses into a page held by the parent alone starts too far inside that page, and may run
  past its end: `PageTree.SafeReadIff` and `PageTree.ReadIsFlatIff`.
* A discard zeroes pages from the one that holds its first sector on, as many as its length has whole page lengths, and
  only pages that the device holds itself. It misses pages that the parent alone holds
  (`PageTree.DiscardKeepsParentPage`), clears bytes in front of an unaligned range and misses bytes inside it
  (`PageTree.DiscardShifts`, on a base device too), and leaves a tail shorter than a page
  (`PageTree.DiscardKeepsTail`). `PageTree.SafeDiscardIff` gives the exact condition on the pages held,
  `PageTree.DiscardIsFlatIff` the exact condition on their contents.
* The file system is mounted on the snapshot before logging starts (`code/harness/c_harness.cpp:438-466`), while the
  rounds replay onto the base from before the mount. What the mount writes is in no crash state:
  `Recording.EndToEndIff` says exactly when that keeps every crash state from being the workload's final disk, and
  `Recording.MountGap` shows such a mount.
* Only when every flush with data is directly followed by an operation that is no barrier do the epochs hold the whole
  log: `Epochs.CutKeepsLogIff`. `Epochs.CutConserves` says which data halves are lost on any log, and
  `Epochs.LastFlushLosesData` shows one.
* A data half that keeps the soft barrier flag ends up as a barrier write in the middle of an epoch:
  `Epochs.BarriersLastIff`, and `Epochs.SoftHalfInside` for such a log.
* The list of overlapping ranges is filled only while it is walked, so it stays empty and no epoch is ever flagged as
  overlapping (`Epochs.CutShape`), not even that of two writes to the same bytes (`Epochs.OverlapUnflagged`). The
  generator is proved for arbitrary flags.
* Once the log cursor has run off the end of the list, later entries are not delivered: `Recorder.DeliversIff` says
  after which runs, and `Recorder.StalledCursor` shows one.
* A request without segments reports an error although it is not refused (`CowBrd.BrdDevice.MakeRequest`).
* Cutting a new log does not make the permuter forget the index vectors of the old one. States of the new log with the
  same index vectors are never handed out (`CrashPermuter.HandsOutIff`); `CrashPermuter.StaleKeySuppresses` shows two
  logs of which the first leaves no state of the second.

## Parameters

Random draws (`Choice`), the number of bytes that the kernel takes per `write(2)` call, the memory behind a page, and
what the checks of a round do to the disks are parameters; the theorems hold for all of their values. The bit
positions of the request flags are those of the name table in `code/disk_wrapper.c:27-34`. Pages have 4096 bytes and
sectors 512.

## Model

| member | source | states |
|---|---|---|
| DiskOps.SplitMovesFlushFlags | code/permuter/Permuter.cpp:112-124 | the flush flags of a split operation go to a flag half that writes nothing; write flag, soft barrier flag, target and data stay with the data half |
| DiskOps.FlagWords | code/utils/utils_c.c:8-43 | which bits make a write, a flush, FUA, a soft barrier, a barrier write, an asynchronous write and an operation that is taken apart; synchronous or not makes no difference to a barrier |
| DiskOps.FlagHalfWord | code/permuter/Permuter.cpp:113-124 | the flag half is blank but for the flush bits of the operation |
| DiskOps.DataHalfWord | code/permuter/Permuter.cpp:114-124 | the data half keeps every other flag, and gets none |
| DiskOps.AsyncIsNotBarrier | code/utils/utils_c.c:8-23 | no write is both asynchronous and a barrier; a write that is not merely synchronous is exactly one of the two |
| DiskOps.ReplayAppend | code/harness/Tester.cpp:632-660 | replaying one list after another is replaying their concatenation |
| DiskOps.ReplaySameIff | code/harness/Tester.cpp:632-660 | the same operations give the same image on two disks if and only if they write every byte in which the disks differ |
| DiskOps.ReorderDisjoint | code/permuter/RandomPermuter.cpp:58-67 | writes that share no byte give the same image in every order |
| LogFile.OutFile.Serialize | code/utils/utils.cpp:89-104 | appends exactly the record of the entry to the file |
| LogFile.InFile.ReadHex | code/utils/utils.cpp:114-117 | skips white space and takes exactly the leading hexadecimal number, or fails |
| LogFile.InFile.Deserialize | code/utils/utils.cpp:109-133 | takes exactly one record off the file, or stops where an assertion would |
| LogFile.HexRoundTrip | code/utils/utils.cpp:92-96 | a printed number is read back, whatever text follows |
| LogFile.RecordRoundTrip | code/utils/utils.cpp:89-133 | a written record is read back and consumed exactly, for arbitrary data bytes and whatever text follows |
| LogFile.ProfileRoundTrip | code/harness/Tester.cpp:707-735 | loading a saved log gives the same log |
| LogFile.RecordText | code/utils/utils.cpp:92-102 | a record is, byte by byte, flags, operation, sector and size in hexadecimal, byte 32 behind each, then the data and byte 10 |
| LogFile.PrintedDigits | code/utils/utils.cpp:92-96 | numbers are printed with the bytes 48-57 and 97-102, without a leading 48 unless zero |
| LogFile.CharClasses | code/utils/utils.cpp:112-117 | which bytes are skipped as white space, which are digits, and their values |
| LogFile.NumberLimit | code/utils/utils.cpp:114-117 | a number that does not fit its field is not read |
| LogFile.ParsedRecordText | code/utils/utils.cpp:118-128 | whatever text a record is read from, its data stand between byte 32 and byte 10, where the record ends |
| TestRounds.Tester.LogProfileSave | code/harness/Tester.cpp:707-719 | the new file holds exactly the profile of the log |
| TestRounds.Tester.LogProfileLoad | code/harness/Tester.cpp:721-735 | appends exactly the records of the file, or stops where an assertion would |
| Epochs.CutKeepsLogIff | code/permuter/Permuter.cpp:51-144 | the epochs hold the log, each flush with data as flag half then data half under its own index, if and only if every such flush is directly followed by an operation that is no barrier |
| Epochs.CutConserves | code/permuter/Permuter.cpp:66-71 | on every log the operations of the epochs and the data halves that no later ordinary operation picks up are together the operations of the log with its flushes taken apart, each as often as there |
| Epochs.ExpandReplay | code/permuter/Permuter.cpp:108-134 | replaying the two halves of each flush with data gives the image of replaying the log itself |
| Epochs.CutReplay | code/permuter/Permuter.cpp:51-144 | replaying all epochs of such a log gives the image of the raw log |
| Epochs.LastFlushLosesData | code/permuter/Permuter.cpp:112-134 | a log that ends in a flush with data: its epochs replay to nothing, the log itself does not |
| Epochs.CutShape | code/permuter/Permuter.cpp:57-143 | epochs are non-empty, indices grow inside an epoch and never fall across epochs, the barrier flag says whether the last operation is a barrier write, and the overlap flag is never set |
| Epochs.OverlapUnflagged | code/permuter/Permuter.cpp:76-97 | two ordinary writes that share a byte are cut into one epoch, which is not flagged as overlapping |
| Epochs.SoftHalfInside | code/permuter/Permuter.cpp:66-71 | a flush with data and the soft barrier flag before an ordinary write: a barrier write stands in front of others in its epoch |
| Epochs.BarriersLastIff | code/permuter/Permuter.cpp:112-134 | barrier writes stand only at the ends of epochs if and only if no split operation with the soft barrier flag has its data half delivered |
| EpochOrder.EpochMembersIff | code/permuter/Permuter.cpp:57-142 | what each epoch holds, by the number of barrier words in front of each position |
| EpochOrder.EpochCount | code/permuter/Permuter.cpp:57-142 | one epoch for each barrier, and one more if the log does not end in one |
| EpochOrder.SharedEpoch | code/permuter/Permuter.cpp:64-142 | two operations share an epoch only if no position from the first up to just before the second carries the bits of a barrier |
| EpochOrder.EpochsInOrder | code/permuter/RandomPermuter.cpp:34-118 | in every legal state of any epochs, what belongs to an epoch stands behind all that the epochs before it hold, and a flagged barrier behind the rest of its own |
| EpochOrder.CrashOrder | code/permuter/RandomPermuter.cpp:34-118 | a crash state that holds something recorded behind the bits of a barrier holds everything recorded up to that barrier, in front of it |
| EpochOrder.BarrierComesLast | code/permuter/RandomPermuter.cpp:74-118 | a barrier that is not taken apart comes after everything recorded before it |
| EpochOrder.FreeOrderIff | code/permuter/RandomPermuter.cpp:74-118 | the crash states of a log without barriers are its non-empty selections without repetition, in every order |
| CrashPermuter.ScanOverlaps | code/permuter/Permuter.cpp:77-97 | reports whether some range of the list meets the new one, and which list is left; an empty list stays empty |
| CrashPermuter.MeetsIff | code/permuter/Permuter.cpp:82-91 | a range is found to overlap if and only if it shares a number with the new one and does not lie inside it short of both ends |
| CrashPermuter.ScanAdds | code/permuter/Permuter.cpp:79-97 | the scan keeps every range of the list and adds a copy of the new one for each range passed behind it |
| CrashPermuter.RandomPermuter.OverlapIff | code/permuter/Permuter.cpp:74-98 | from any range list, an epoch is flagged if and only if the range of one of its operations, from its first sector on for as many numbers as it has bytes, shares a number with a range left before it that does not lie inside it short of both ends; for ranges that fit in 32 bits |
| CrashPermuter.RandomPermuter.InitDataVector | code/permuter/Permuter.cpp:51-144 | stores exactly the cut of the log, for every log, and leaves the remembered states alone |
| CrashPermuter.RandomPermuter.CollectOps | code/permuter/Permuter.cpp:64-103 | collects up to the next barrier write without changing what is cut; from an empty range list no overlap is found |
| CrashPermuter.RandomPermuter.CloseEpochAt | code/permuter/Permuter.cpp:105-142 | closes the epoch with the barrier write or its flag half, leaving the data half waiting |
| Shuffle.PicksAreArrangements | code/permuter/RandomPermuter.cpp:82-105 | picks from the shrinking slot list and duplicate-free selections of the slots correspond one to one |
| Shuffle.PickIsRank | code/permuter/RandomPermuter.cpp:91-105 | a pick is a rank: as many of the free slots lie below the picked one as the pick says |
| Shuffle.AllPicksSize | code/permuter/RandomPermuter.cpp:91-105 | there are n(n-1)...(n-k+1) pick sequences of length k over n slots |
| CrashStates.PicksExact | code/permuter/RandomPermuter.cpp:74-118 | each legal selection of an epoch is placed by exactly one pick sequence, and each valid pick sequence places a legal selection |
| CrashStates.PermutedPartExact | code/permuter/RandomPermuter.cpp:74-118 | permuting an epoch reaches exactly its legal parts: no duplicates, a flagged barrier only after everything else |
| CrashStates.GenLegal | code/permuter/RandomPermuter.cpp:34-72 | for all draws the generated state is a legal crash state |
| CrashStates.GenExact | code/permuter/RandomPermuter.cpp:34-118 | a state is legal if and only if some draws generate it |
| CrashStates.InOrderLegal | code/permuter/RandomPermuter.cpp:52-68 | without overlap flags a state is legal if and only if it is some leading epochs as recorded followed by a legal part of the next |
| CrashStates.DisjointEpochOrder | code/permuter/RandomPermuter.cpp:52-68 | an epoch whose writes share no byte leaves the same image in whatever order it is completed |
| CrashStates.KeyIsFaithful | code/permuter/Permuter.cpp:165-172 | two legal states with the same index vector are equal operation by operation |
| CrashStates.StatesMembers | code/permuter/RandomPermuter.cpp:34-118 | the set of all states has exactly the legal ones as members |
| CrashStates.StatesSize | code/permuter/RandomPermuter.cpp:34-118 | the number of legal states, as a sum over epochs and sizes of falling factorials |
| CrashStates.KeysSize | code/permuter/Permuter.cpp:165-172 | there are as many index vectors as legal states |
| CrashPermuter.RandomPermuter.PermuteEpoch | code/permuter/RandomPermuter.cpp:74-118 | writes exactly the permuted part behind what the result holds already, and leaves what lies behind it |
| CrashPermuter.RandomPermuter.GenOneState | code/permuter/RandomPermuter.cpp:34-72 | the new array holds exactly the state that the draws stand for |
| CrashPermuter.BioVectorEqual | code/permuter/Permuter.cpp:38-49 | true exactly for equal vectors |
| CrashPermuter.RandomPermuter.TryStates | code/permuter/Permuter.cpp:162-183 | stops at the first state not remembered, or after the permitted number of tries |
| CrashPermuter.TriesPermitted | code/permuter/Permuter.cpp:158-161 | at least 1000 tries and at least twice as many as states handed out, and not more than the larger of the two |
| CrashPermuter.RandomPermuter.GenerateCrashState | code/permuter/Permuter.cpp:151-200 | whatever index vectors are remembered: hands out the first new state that the draws give, unless none of max(1000, 2n) tries gives one, and remembers exactly that; it gives up after no fewer than 1000 tries and twice the number remembered |
| CrashPermuter.DealtMore | code/permuter/Permuter.cpp:192-196 | each call extends a run of calls, whichever logs are cut between the calls |
| CrashPermuter.DealsApart | code/permuter/Permuter.cpp:173-196 | however cuts and calls follow one another, no index vector is handed out as new twice, nor one remembered at the start |
| CrashPermuter.DealsBound | code/permuter/Permuter.cpp:173-196 | over every such run, of one log at most as many states are handed out as new as are legal and not remembered at the start |
| CrashPermuter.FirstNewUnique | code/permuter/Permuter.cpp:162-181 | the draws determine the state handed out |
| CrashPermuter.HandsOutIff | code/permuter/Permuter.cpp:151-200 | some draws hand out a state as new if and only if it is legal and its index vector is not remembered, from whatever logs the remembered ones come |
| CrashPermuter.StaleKeySuppresses | code/permuter/Permuter.cpp:51-52 | after the only state of one log, no draws hand out the only state of another |
| PageTree.WriteIsFlatIff | code/cow_brd.c:263-301 | a write changes exactly the addressed bytes of the flat disk if and only if it stays in one page or the second page holds the parent's bytes behind the data |
| PageTree.SafeWriteIff | code/cow_brd.c:286-299 | writes at a place are flat whatever the pages hold if and only if the second page is not held by both the device and its parent |
| PageTree.ReadIsFlatIff | code/cow_brd.c:306-355 | a read returns the flat disk's bytes if and only if the bytes taken from the wrong place of the parent's page match |
| PageTree.SafeReadIff | code/cow_brd.c:333-354 | reads at a place are right whatever the pages hold if and only if the second page is not held by the parent alone |
| PageTree.DiscardSeen | code/cow_brd.c:242-258 | after a discard as many pages as its length has page lengths, from the page of the first sector on, read as zeros if the device holds them itself; every other page reads as before |
| PageTree.DiscardIsFlatIff | code/cow_brd.c:242-258 | a discard zeroes exactly the bytes it is asked to if and only if the disk already holds zeros wherever the bytes asked for and the bytes zeroed differ |
| PageTree.SafeDiscardIff | code/cow_brd.c:177-184 | discards at a place are flat whatever the pages hold if and only if every own page visited is covered, no other own page is met, and no page held by the parent alone is met |
| PageTree.AlignedDiscard | code/cow_brd.c:245-257 | a discard of whole pages is safe if and only if it meets no page held by the parent alone |
| PageTree.DiscardKeepsParentPage | code/cow_brd.c:181-183 | a discarded page that only the parent holds stays readable |
| PageTree.DiscardShifts | code/cow_brd.c:245-257 | from sector 1 on, a page length clears byte 0 and misses byte 4096 |
| PageTree.DiscardKeepsTail | code/cow_brd.c:245 | less than a page length is not discarded at all |
| PageTree.AdmittedBits | code/cow_brd.c:396-406 | exactly the requests that end on the disk and, if they carry the write or discard bit, meet a writable disk are served; reads too are bound by the end of the disk |
| PageTree.RefusedRequest | code/cow_brd.c:396-406 | a refused request changes nothing |
| PageTree.DiscardRequest | code/cow_brd.c:408-412 | an admitted request with the discard bit turns the device's own among the pages visited into zeros, and leaves every other byte |
| Segments.PiecesView | code/cow_brd.c:419-443 | writing segments in any places one by one does to the disk what it does to a flat one, if no byte is lost |
| Segments.PiecesFlatIff | code/cow_brd.c:286-299 | writing any list of segments is flat whatever the pages hold if and only if no byte of the disk that the device held by then is overwritten from the parent and not written later |
| Segments.SafeEndIff | code/cow_brd.c:286-299 | adjacent segments lose nothing if and only if they end with a page or with the disk, or none crosses into the page where they end, or that page is not held by both the device and its parent |
| Segments.RequestView | code/cow_brd.c:387-447 | an admitted write that loses nothing leaves the disk as one flat write does; refused requests and reads leave it alone |
| Segments.RequestReadIff | code/cow_brd.c:387-447 | a read on the disk returns the bytes of the flat disk whatever the pages hold if and only if none of its segments crosses into a page that the parent alone holds |
| PageTree.AfterInRange | code/cow_brd.c:395-412 | no request brings in a page beyond the one that would hold the first sector behind the disk |
| CowBrd.BrdDevice.LookupPage | code/cow_brd.c:65-89 | returns the page object filed under the sector's index, or none |
| CowBrd.BrdDevice.InsertPage | code/cow_brd.c:96-162 | provides a page for the sector, filled from the parent if it is new, and changes no other page |
| CowBrd.BrdDevice.CopyToSetup | code/cow_brd.c:226-240 | provides the one or two pages that the access touches |
| CowBrd.BrdDevice.CopyTo | code/cow_brd.c:263-301 | stores the data into the one or two pages, the second one backed by the parent's |
| CowBrd.BrdDevice.CopyFrom | code/cow_brd.c:306-355 | returns the bytes of own page, parent page or zeros for both parts of the access |
| CowBrd.BrdDevice.DoBvec | code/cow_brd.c:360-385 | one segment: setup and copy for a write, copy alone for a read |
| CowBrd.BrdDevice.MakeRequest | code/cow_brd.c:387-447 | serves a request exactly as the page tree of the device says; one past the end or on a frozen disk reports an error and changes nothing, a discard zeroes the own pages visited |
| CowBrd.BrdDevice.DiscardFrom | code/cow_brd.c:242-258 | zeroes exactly the device's own among the pages visited: from the page of the first sector on, one for each page length |
| CowBrd.BrdDevice.GangLookup | code/cow_brd.c:200-201 | the pages with the smallest indices from a position on, in order, as many as fit |
| CowBrd.BrdDevice.FreeBatch | code/cow_brd.c:203-211 | removes exactly the pages found; each has an index not below the position, and is the page filed there |
| CowBrd.BrdDevice.FreeRound | code/cow_brd.c:197-220 | what is left lies behind the new position; a full batch shrinks the tree, a short one leaves it empty |
| CowBrd.BrdDevice.FreePages | code/cow_brd.c:191-221 | ends, with an empty tree, for all page indices below the largest machine word |
| CowBrd.BrdDevice.Ioctl | code/cow_brd.c:472-510 | only a base device is frozen, thawed or wiped, only a snapshot is restored; a refused command changes nothing |
| CowDriver.Driver.constructor | code/cow_brd.c:558-640 | a base device and distinct snapshots whose parent it is, all writable and without pages |
| CowDriver.Driver.Serve | code/cow_brd.c:387-510 | a request or command to one device object is one step of the run, and touches no other device |
| CowDriver.Driver.ServeAll | code/cow_brd.c:387-510 | serving a list of requests and commands on the objects is the run of that list |
| CowRuns.FrozenBase | code/cow_brd.c:402-406 | between freezing and thawing or wiping, no run of requests and commands changes the base |
| CowRuns.SiblingKept | code/cow_brd.c:387-447 | nor a snapshot that none of them is addressed to, nor what its readers see |
| CowRuns.RestoredIsBase | code/cow_brd.c:492-497 | right after a restore the readers of a snapshot see the base as it was when the run started |
| CowRuns.KeepsFrozenIff | code/cow_brd.c:478-505 | the steps that leave every frozen base as it is are all but thawing and wiping it |
| CowRuns.FreezeAndThaw | code/cow_brd.c:478-489 | after freezing a write or discard to the base changes nothing, after thawing it is served |
| CowRuns.WipedBase | code/cow_brd.c:498-504 | after a wipe readers of the base see zeros, and no snapshot changes |
| CowRuns.ThawedBaseShows | code/cow_brd.c:321-326 | a request to the base changes a byte that a snapshot shows if and only if the base is writable, the request is served and changes that byte, and the snapshot has no page there |
| Recorder.LogsInOrder | code/disk_wrapper.c:183-222 | as long as no entry is passed the log is extended by exactly the loggable requests submitted while logging is on, in order |
| Recorder.LoggableBits | code/disk_wrapper.c:191-193 | logged is what carries the bit of a write, a flush of either kind, FUA or a discard; a flush needs no write bit |
| Recorder.EntryKeepsFlags | code/disk_wrapper.c:207-210 | an entry carries the request's own flag words, and is a barrier exactly if the request's bits say so |
| Recorder.RecordedBarriers | code/disk_wrapper.c:191-210 | the barriers of a recorded log are exactly the requests that carry the bits of one, in order, with their flags, place and bytes |
| Recorder.SwitchedLog | code/disk_wrapper.c:183-193 | nothing is logged while logging is off |
| Recorder.PlainBits | code/cow_brd.c:387-415 | which requests the replay laws speak of: whole sectors in segments of at most 4096 bytes, no discard bit, an end on the disk |
| Recorder.FifoSinceClear | code/disk_wrapper.c:59-71 | whatever happened before the last clear, reading delivers exactly what was logged since |
| Recorder.ConsistentRun | code/disk_wrapper.c:88-141 | in every run the cursor is null or stands behind the entries passed |
| Recorder.DeliversIff | code/disk_wrapper.c:131-137 | over every run: reading delivers everything not yet passed if and only if, since the last clear, no request was logged after the last entry had been passed |
| Recorder.StalledCursor | code/disk_wrapper.c:212-222 | a run in which an entry logged after the cursor ran off the end is not delivered |
| Recorder.RecordReplay | code/disk_wrapper.c:176-272 | for every run that loses nothing, replaying the recorded entries onto the earlier image gives exactly the target's image |
| Recorder.RecordReplayIff | code/disk_wrapper.c:176-272 | over every run of reads, writes and flushes on the disk: its record replays to the target's image whatever the pages hold if and only if the run loses nothing |
| Recorder.BioReplayIff | code/disk_wrapper.c:176-272 | a single request's entry replays to the target's image whatever the pages hold if and only if it ends at the end of a page or of the disk, or no segment crosses into the page where it ends, or that page is not held by both |
| Recorder.LossyRecordDiffers | code/cow_brd.c:286-299 | a run that loses a byte and contents for which its record replays to another image |
| Recorder.HealedCrossing | code/cow_brd.c:419-443 | a write whose first segment crosses into a page held by both, and that loses nothing because its second segment writes the bytes |
| Recorder.SafeRunLosesNothing | code/disk_wrapper.c:176-272 | a run loses nothing if every request ends safely when its turn comes |
| Recorder.PlainRunSafe | code/cow_brd.c:286-299 | every run on a base device is safe, and every run whose segments stay inside their pages |
| DiskWrapper.HwmDevice.constructor | code/disk_wrapper.c:275-289 | an empty log, switched off |
| DiskWrapper.HwmDevice.LinkEntry | code/disk_wrapper.c:202-222 | appends one node, keeps the list acyclic and ended by `currentWrite`, and sets the cursor only in an empty list |
| DiskWrapper.HwmDevice.CopySegments | code/disk_wrapper.c:230-257 | the buffer holds the segments of the request one behind the other |
| DiskWrapper.HwmDevice.LogBio | code/disk_wrapper.c:183-266 | one more entry, with the request's own flag words, place and bytes, if logging is on and the request carries one of the logged bits, else nothing |
| DiskWrapper.HwmDevice.SubmitBio | code/disk_wrapper.c:176-272 | logs the request, hands it to the target unchanged, and reports the target's outcome and the bytes read |
| DiskWrapper.HwmDevice.NextEnt | code/disk_wrapper.c:131-137 | moves the cursor to the next node, or fails without a current one |
| DiskWrapper.HwmDevice.FreeLogs | code/disk_wrapper.c:59-71 | walks the list to its end and leaves an empty log |
| DiskWrapper.GetWrapperLog | code/harness/Tester.cpp:271-320 | ends, and returns exactly the entries not passed yet, in order |
| DiskWrapper.SubmitAll | code/disk_wrapper.c:176-272 | a workload leaves exactly the log of its loggable requests and the pages that serving it leaves |
| BlockFile.WriteBytes | code/harness/Tester.cpp:647-656 | bytes written to the device file page by page are one flat write |
| BlockFile.WriteAll | code/harness/Tester.cpp:647-656 | however the calls split the buffer, a leading part of it has been written; it succeeds, with all of it, unless the last call reports an error or starts behind the end of the disk |
| BlockFile.TestWriteData | code/harness/Tester.cpp:632-660 | success means that the image is that of the whole operations in order, others than writes skipped; without error reports it succeeds if and only if every operation lies on the disk; failure means that some leading operations are complete and of the next one a leading part is written |
| TestRounds.Tester.FetchLog | code/harness/Tester.cpp:271-320 | appends exactly the entries not passed yet to the log |
| Recording.RecordWorkload | code/harness/c_harness.cpp:438-556 | the log taken is that of the workload and replays the disk as the mount left it into the later one, for every workload that loses nothing; the device's pages stay on it |
| Recording.StatesReplayable | code/harness/Tester.cpp:632-660 | every crash state of a replayable log is replayable |
| Recording.StatesWriteLog | code/harness/Tester.cpp:632-660 | a crash state writes no byte that its log does not write |
| Recording.WholeLogLegal | code/permuter/RandomPermuter.cpp:34-72 | all that the epochs hold, in recorded order, is a legal crash state |
| Recording.CompleteStateIff | code/permuter/Permuter.cpp:108-134 | the complete log, flushes with data as two halves, is a legal crash state if and only if each such flush is directly followed by an operation that is no barrier |
| Recording.RestorableIff | code/harness/Tester.cpp:453-512 | some crash state of a log whose flushes with data are followed by ordinary operations replays a base into what the log makes of another disk if and only if the log writes every byte in which the two differ |
| Recording.EndToEndIff | code/harness/c_harness.cpp:438-556 | some crash state of a recorded workload replays the base into the workload's final disk if and only if the workload writes every byte that the mount had changed |
| Recording.MountGap | code/harness/c_harness.cpp:438-466 | a mount that writes in front of all that the workload writes, after which no crash state restores the workload's disk |
| Recording.EndToEnd | code/harness/Tester.cpp:453-512 | if the mount writes nothing, some crash state always does |
| Harness.RecordOn | code/harness/Tester.cpp:214-231 | recording on a snapshot takes the log of the workload, leaves on it the pages of mount and workload, and touches no other device |
| Harness.Prepare | code/harness/c_harness.cpp:366-556 | freezes the base as it is, and records on a snapshot as above; the log can be replayed |
| Harness.LoadState | code/harness/Tester.cpp:480-512 | after restoring and writing, the snapshot shows the base with the crash state replayed, whatever it held before; without error reports that succeeds if and only if the state lies on the disk; no other device changes |
| Harness.RunChecks | code/harness/Tester.cpp:518-561 | the checks are a run of requests and commands from what the snapshot shows, which is noted; the base does not change |
| Harness.CheckState | code/harness/Tester.cpp:480-562 | the checks of a round run from a state of the disks in which the snapshot shows the base with that round's state and nothing else has changed, and note just that |
| TestRounds.Tester.Round | code/harness/Tester.cpp:453-562 | draws the first new state, and checks it as above; does nothing if and only if the permitted tries are exhausted |
| TestRounds.Tester.TestCheckRandomPermutations | code/harness/Tester.cpp:447-573 | round by round the first new state is drawn until the rounds are over or the tries exhausted; a history leads from the disks before to the disks after, each round restoring, writing and checking from where the one before ended; the checks find exactly the base with each state that could be written; the base never changes; no more rounds than legal states not remembered at the start |
| Harness.RoundIsolated | code/harness/Tester.cpp:453-562 | in every round of such a history whose state could be written, the checks start from the base with that state replayed onto it, whatever happened before, and the disks go on from there |
| TestRounds.Tester.RecordAndTest | code/harness/c_harness.cpp:366-669 | freezing, mounting, recording and the rounds follow one another on the same disks |
| TestRounds.TestFromScratch | code/harness/c_harness.cpp:258-669 | the same from newly made disks and any set-up of them: what each part demands is met by the parts before |
| Harness.RoundsBound | code/harness/Tester.cpp:447-573 | the states of all rounds are legal, pairwise different and not remembered at the start, which bounds their number |
| Harness.RoundDoneAt | code/harness/Tester.cpp:453-562 | what the rounds together say holds of each single round |
| TestRounds.Tester.TestRestoreLog | code/harness/Tester.cpp:613-630 | success means that the device shows the whole log replayed; without error reports it succeeds if and only if the log lies on the disk |

## Left out

- CowBrd.Page: the bytes of a page are one sequence field that is replaced as a whole, so copying byte by byte inside a page is not captured; page identity, ownership and aliasing between devices are.
- DiskOps.DiskWrite: an entry is a value; the shared pointer to its data, its setters and its equality operator are not modelled as mutation, and an empty buffer stands for a null pointer.
- CrashPermuter.RandomPermuter: the base class and its one subclass are one class; the hash function of the set of index vectors and the 32-bit width of indices are not modelled.
- CrashPermuter.RandomPermuter.InitDataVector: does not model `num_meta`, which is never initialised or used; the uninitialised metadata of a flag half is taken as zero.
- CowBrd.BrdDevice.GangLookup: stands for the kernel's radix tree, with its documented order and completeness; the tree's own nodes are not modelled.
- CowBrd.BrdDevice.MakeRequest: allocations succeed and requests are served one at a time; locking, RCU, page mapping and queue set-up are not modelled.
- CowDriver.Driver.constructor: one base device with its snapshots, where the program makes several such groups that share nothing.
- DiskWrapper.HwmDevice.LogBio: the buffer of a discard, which the program never fills, is modelled as empty; allocations succeed; the branches for failed allocations and the retries of copies to user space depend on the kernel.
- DiskWrapper.HwmDevice.FreeLogs: giving a node's memory back is not modelled beyond forgetting it.
- Recorder.RecordReplay: requests that discard are excluded, because their log buffer is never filled; runs that lose bytes are excluded, because the property fails for them (`Recorder.RecordReplayIff`).
- BlockFile.Syscall: the page cache is modelled as reading, changing and writing back whole pages at once, with delays and read-ahead left out; errors of `write(2)` leave the disk unchanged.
- BlockFile.TestWriteData: operations must carry whole buffers and byte addresses below 2^64; without that the program reads or seeks somewhere unrelated.
- LogFile.InFile.Deserialize: inherits the numbers not modelled in ReadHex; where the stream fails and an uninitialised character decides, it stops.
- LogFile.InFile.ReadHex: a sign or a `0x` prefix in front of a number, which the program never writes, is not modelled.
- TestRounds.Tester.TestCheckRandomPermutations: an empty log is excluded, because the program would then draw from an empty range; results, timing statistics, the checker's verdicts and failures to open or restore the snapshot are not modelled; what the checks do to the disks is arbitrary, except that they neither thaw nor wipe the base.
- TestRounds.Tester.RecordAndTest: the requests of unmounting after the recording are left out; the restore at the start of the first round takes back what they do.
- The wrapper's and the RAM disk's module set-up, `fdisk`, `mkfs`, `mount` and `fsck` commands, class loading, sockets and option parsing are input and output.
- The Linux headers that define the flags and structures are not part of this model.
- The quality of the random numbers is not modelled; every theorem holds for all draws.
