/** Recording a workload, and what the crash states of its log hold and can restore. */
module Recording {
  import opened BlockFile
  import opened CowBrd
  import opened CowRuns
  import opened CrashPermuter
  import opened CrashStates
  import opened DiskOps
  import opened DiskWrapper
  import opened Epochs
  import opened Finite
  import opened PageTree
  import opened Recorder
  import opened Wrappers

  // ---------------------------------------------------------------- operations of crash states

  ghost predicate AllOps(s: seq<EpochOp>, good: DiskWrite -> bool) {
    forall j :: 0 <= j < |s| ==> good(s[j].op)
  }

  ghost predicate AllEpochOps(epochs: seq<Epoch>, good: DiskWrite -> bool) {
    forall e :: 0 <= e < |epochs| ==> AllOps(epochs[e].ops, good)
  }

  /** All operations of the log are good, and taking a good one apart gives good halves. */
  ghost predicate GoodLog(log: seq<DiskWrite>, good: DiskWrite -> bool) {
    && (forall i :: 0 <= i < |log| ==> good(log[i]))
    && (forall op :: good(op) && op.IsSplit() ==> good(op.FlagHalf()) && good(op.DataHalf()))
  }

  lemma FrontGood(log: seq<DiskWrite>, i: nat, pending: Option<DiskWrite>, good: DiskWrite -> bool)
    requires GoodLog(log, good) && i < |log| && (pending.Some? ==> i > 0 && good(pending.value))
    ensures AllOps(Front(log, i, pending), good)
    ensures Later(log, i, pending).Some? ==> good(Later(log, i, pending).value)
  {
  }

  lemma GoodAppend(a: seq<EpochOp>, b: seq<EpochOp>, good: DiskWrite -> bool)
    requires AllOps(a, good) && AllOps(b, good)
    ensures AllOps(a + b, good)
  {
  }

  ghost predicate GoodFrom(log: seq<DiskWrite>, i: nat, cur: seq<EpochOp>, pending: Option<DiskWrite>,
                           good: DiskWrite -> bool)
    requires i <= |log| && (pending.Some? ==> i > 0)
  {
    AllEpochOps(CutFrom(log, i, cur, pending), good)
  }

  lemma GoodStep(log: seq<DiskWrite>, i: nat, cur: seq<EpochOp>, pending: Option<DiskWrite>, good: DiskWrite -> bool)
    requires i < |log| && (pending.Some? ==> i > 0) && AllOps(cur + Front(log, i, pending), good)
    requires GoodFrom(log, i + 1, Carry(log, i, cur, pending), Later(log, i, pending), good)
    ensures GoodFrom(log, i, cur, pending, good)
  {
  }

  lemma {:induction false} CutFromGood(log: seq<DiskWrite>, i: nat, cur: seq<EpochOp>, pending: Option<DiskWrite>,
                                       good: DiskWrite -> bool)
    requires GoodLog(log, good) && i <= |log| && (pending.Some? ==> i > 0 && good(pending.value)) && AllOps(cur, good)
    ensures GoodFrom(log, i, cur, pending, good)
    decreases |log| - i
  {
    if i < |log| {
      FrontGood(log, i, pending, good);
      GoodAppend(cur, Front(log, i, pending), good);
      CutFromGood(log, i + 1, Carry(log, i, cur, pending), Later(log, i, pending), good);
      GoodStep(log, i, cur, pending, good);
    }
  }

  lemma PartGood(e: Epoch, part: seq<EpochOp>, good: DiskWrite -> bool)
    requires AllOps(e.ops, good) && LegalPart(e, part)
    ensures AllOps(part, good)
  {
  }

  lemma {:induction false} LegalGood(epochs: seq<Epoch>, s: seq<EpochOp>, good: DiskWrite -> bool)
    requires AllEpochOps(epochs, good) && Legal(epochs, s)
    ensures AllOps(s, good)
    decreases |epochs|
  {
    var n := |epochs[0].ops|;
    if |s| <= n {
      PartGood(epochs[0], s, good);
    } else {
      if epochs[0].overlaps { PartGood(epochs[0], s[..n], good); }
      LegalGood(epochs[1..], s[n..], good);
      GoodAppend(s[..n], s[n..], good);
      assert s == s[..n] + s[n..];
    }
  }

  /** Whatever all operations of a log are, the operations of its crash states are, too. */
  lemma StatesGood(log: seq<DiskWrite>, s: seq<EpochOp>, good: DiskWrite -> bool)
    requires GoodLog(log, good) && Legal(Cut(log), s)
    ensures AllOps(s, good)
  {
    CutFromGood(log, 0, [], None, good);
    LegalGood(Cut(log), s, good);
  }

  /** Whatever crash state of a replayable log is written to a disk, the harness can write it. */
  lemma StatesReplayable(log: seq<DiskWrite>, s: seq<EpochOp>)
    requires Replayable(log) && Legal(Cut(log), s)
    ensures Replayable(Ops(s))
  {
    forall op: DiskWrite | Sound(op) && op.IsSplit()
      ensures Sound(op.FlagHalf()) && Sound(op.DataHalf())
    {
      SplitMovesFlushFlags(op);
    }
    StatesGood(log, s, op => Sound(op));
  }

  /** A crash state writes no byte that its log does not write. */
  lemma StatesWriteLog(log: seq<DiskWrite>, s: seq<EpochOp>, a: nat)
    requires Legal(Cut(log), s) && Written(Ops(s), a)
    ensures Written(log, a)
  {
    if !Written(log, a) {
      forall op: DiskWrite | !DiskOps.Covers(op, a) && op.IsSplit()
        ensures !DiskOps.Covers(op.FlagHalf(), a) && !DiskOps.Covers(op.DataHalf(), a)
      {
        SplitMovesFlushFlags(op);
      }
      StatesGood(log, s, op => !DiskOps.Covers(op, a));
    }
  }

  // ---------------------------------------------------------------- recording a workload

  ghost predicate AllFormed(bios: seq<Bio>) {
    forall i :: 0 <= i < |bios| ==> bios[i].Formed()
  }

  lemma {:induction false} ServedInRange(own: Tree, parent: Tree, capacity: nat, bios: seq<Bio>)
    requires Paged(own) && Paged(parent) && InRange(own, capacity)
    requires AllFormed(bios)
    ensures InRange(Served(own, parent, capacity, bios), capacity)
    decreases |bios|
  {
    if bios != [] {
      AfterInRange(own, parent, true, capacity, bios[0]);
      ServedInRange(After(own, parent, true, capacity, bios[0]), parent, capacity, bios[1..]);
    }
  }

  /** The pages of a device on which a file system is mounted, and then a workload run. */
  function Worked(own: Tree, parent: Tree, capacity: nat, mounted: seq<Bio>, bios: seq<Bio>): (r: Tree)
    requires Paged(own) && Paged(parent)
    requires AllFormed(mounted) && AllFormed(bios)
    ensures Paged(r)
  {
    Served(Served(own, parent, capacity, mounted), parent, capacity, bios)
  }

  lemma WorkedInRange(own: Tree, parent: Tree, capacity: nat, mounted: seq<Bio>, bios: seq<Bio>)
    requires Paged(own) && Paged(parent) && InRange(own, capacity)
    requires AllFormed(mounted) && AllFormed(bios)
    ensures InRange(Worked(own, parent, capacity, mounted, bios), capacity)
  {
    ServedInRange(own, parent, capacity, mounted);
    ServedInRange(Served(own, parent, capacity, mounted), parent, capacity, bios);
  }

  /** The workload lies on the disk, and loses no byte of it on the device as the mount leaves it. */
  ghost predicate Recordable(own: Tree, parent: Tree, capacity: nat, mounted: seq<Bio>, bios: seq<Bio>) {
    && Paged(own) && Paged(parent) && AllFormed(mounted) && AllPlain(bios, capacity)
    && LosesNothing(Served(own, parent, capacity, mounted).Keys, parent.Keys, capacity, bios)
  }

  /** The device can be written and holds the given pages; its parent holds the other ones. */
  ghost predicate Holds(dev: BrdDevice, own: Tree, parent: Tree)
    reads dev, dev.pages.Values
    reads if dev.parent == null then {} else {dev.parent}
    reads if dev.parent == null then {} else dev.parent.pages.Values
  {
    dev.Valid() && dev.isWritable && dev.Contents() == own && dev.ParentContents() == parent
  }

  method StartLogging(dev: HwmDevice, ghost own: Tree, ghost parent: Tree)
    requires dev.Valid() && Holds(dev.target, own, parent)
    modifies dev
    ensures dev.Valid() && dev.State() == LogState(true, [], None, 0) && dev.nodes == []
    ensures Holds(dev.target, own, parent)
  {
    dev.FreeLogs();
    dev.SetLogging(true);
    assert Holds(dev.target, own, parent);
  }

  /** Switches logging off and takes what was logged since it was switched on. */
  method TakeLog(dev: HwmDevice, ghost bios: seq<Bio>, ghost own: Tree, ghost parent: Tree)
    returns (log: seq<DiskWrite>)
    requires dev.Valid() && Holds(dev.target, own, parent)
    requires dev.State() == LogRun(LogState(true, [], None, 0), Submits(bios))
    modifies dev
    ensures dev.Valid() && !dev.logOn && log == Recorded(bios)
    ensures Holds(dev.target, own, parent)
  {
    RecordedRun(bios);
    dev.SetLogging(false);
    log := GetWrapperLog(dev);
    assert Holds(dev.target, own, parent);
  }

  /** Submits a run of requests to the wrapper of a device that holds the given pages. */
  method SubmitRun(dev: HwmDevice, bios: seq<Bio>, past: seq<byte>, ghost own: Tree, ghost parent: Tree)
    requires dev.Valid() && Paged(own) && Paged(parent) && Holds(dev.target, own, parent) && |past| == PAGE_SIZE
    requires AllFormed(bios)
    modifies dev, dev.nodes, dev.target, dev.target.pages.Values
    ensures dev.Valid() && dev.State() == LogRun(old(dev.State()), Submits(bios))
    ensures Holds(dev.target, Served(own, parent, dev.target.capacity, bios), parent)
    ensures fresh((set n | n in dev.nodes) - old(set n | n in dev.nodes))
    ensures fresh(dev.target.pages.Values - old(dev.target.pages.Values))
  {
    SubmitAll(dev, bios, past);
  }

  /** Clears the log, switches logging on and off around a workload, and takes the log. */
  method RecordRun(dev: HwmDevice, bios: seq<Bio>, past: seq<byte>, ghost own: Tree, ghost parent: Tree)
    returns (log: seq<DiskWrite>)
    requires dev.Valid() && Paged(own) && Paged(parent) && Holds(dev.target, own, parent) && |past| == PAGE_SIZE
    requires AllFormed(bios)
    modifies dev, dev.target, dev.target.pages.Values
    ensures dev.Valid() && !dev.logOn && log == Recorded(bios)
    ensures Holds(dev.target, Served(own, parent, dev.target.capacity, bios), parent)
    ensures fresh(dev.target.pages.Values - old(dev.target.pages.Values))
  {
    StartLogging(dev, own, parent);
    SubmitRun(dev, bios, past, own, parent);
    log := TakeLog(dev, bios, Served(own, parent, dev.target.capacity, bios), parent);
  }

  /** Mounts a file system, and then records a workload. */
  method DriveWorkload(dev: HwmDevice, mounted: seq<Bio>, bios: seq<Bio>, past: seq<byte>, ghost own: Tree,
                       ghost parent: Tree)
    returns (log: seq<DiskWrite>)
    requires dev.Valid() && Paged(own) && Paged(parent) && Holds(dev.target, own, parent) && |past| == PAGE_SIZE
    requires AllFormed(mounted) && AllFormed(bios)
    modifies dev, dev.nodes, dev.target, dev.target.pages.Values
    ensures dev.Valid() && !dev.logOn && log == Recorded(bios)
    ensures Holds(dev.target, Worked(own, parent, dev.target.capacity, mounted, bios), parent)
    ensures fresh(dev.target.pages.Values - old(dev.target.pages.Values))
  {
    SubmitRun(dev, mounted, past, own, parent);
    log := RecordRun(dev, bios, past, Served(own, parent, dev.target.capacity, mounted), parent);
  }

  /** The log of a recorded workload replays the disk as the mount left it into the disk as it is afterwards. */
  method RecordWorkload(dev: HwmDevice, mounted: seq<Bio>, bios: seq<Bio>, past: seq<byte>, ghost own: Tree,
                        ghost parent: Tree)
    returns (log: seq<DiskWrite>)
    requires dev.Valid() && Paged(own) && Paged(parent) && Holds(dev.target, own, parent) && |past| == PAGE_SIZE
    requires InRange(own, dev.target.capacity) && Recordable(own, parent, dev.target.capacity, mounted, bios)
    modifies dev, dev.nodes, dev.target, dev.target.pages.Values
    ensures dev.Valid() && !dev.logOn && log == Recorded(bios)
    ensures fresh(dev.target.pages.Values - old(dev.target.pages.Values))
    ensures var (capacity, after) :=
              (dev.target.capacity, Worked(own, parent, dev.target.capacity, mounted, bios));
            && Holds(dev.target, after, parent) && InRange(after, capacity)
            && AllFit(log, SECTOR_SIZE * capacity)
            && View(after, parent, SECTOR_SIZE * capacity)
               == Replay(View(Served(own, parent, capacity, mounted), parent, SECTOR_SIZE * capacity), log)
  {
    RecordReplay(Served(own, parent, dev.target.capacity, mounted), parent, dev.target.capacity, bios);
    WorkedInRange(own, parent, dev.target.capacity, mounted, bios);
    log := DriveWorkload(dev, mounted, bios, past, own, parent);
  }

  // ---------------------------------------------------------------- nothing lost

  lemma {:induction false} FlattenAppend(a: seq<Epoch>, e: Epoch)
    ensures Flatten(a + [e]) == Flatten(a) + e.ops
    decreases |a|
  {
    if a == [] {
      assert [e][1..] == [];
    } else {
      FlattenAppend(a[1..], e);
      assert (a + [e])[1..] == a[1..] + [e];
      Assoc(a[0].ops, Flatten(a[1..]), e.ops);
    }
  }

  lemma WholeEpochLegal(e: Epoch)
    requires e.ops != []
    ensures LegalPart(e, e.ops)
  {
    var idx := Iota(|e.ops|);
    assert LegalSelection(e, idx) && e.ops == OpsAt(e, idx);
  }

  /** Everything that the epochs hold, in recorded order, is a legal crash state. */
  lemma WholeLogLegal(log: seq<DiskWrite>)
    requires log != []
    ensures Legal(Cut(log), Flatten(Cut(log)))
  {
    var epochs := Cut(log);
    CutKeyed(log);
    CutShape(log);
    var last := |epochs| - 1;
    assert epochs == epochs[..last] + [epochs[last]];
    FlattenAppend(epochs[..last], epochs[last]);
    WholeEpochLegal(epochs[last]);
    assert CutsAt(epochs, last, Flatten(epochs));
    InOrderLegal(epochs, Flatten(epochs));
  }

  ghost predicate Sorted(s: seq<EpochOp>) {
    forall i, j :: 0 <= i < j < |s| ==> s[i].absIndex <= s[j].absIndex
  }

  lemma {:induction false} AtLeast(idx: seq<nat>, j: nat)
    requires j < |idx| && forall i, k :: 0 <= i < k < |idx| ==> idx[i] < idx[k]
    ensures idx[j] >= j
  {
    if j > 0 { AtLeast(idx, j - 1); }
  }

  lemma {:induction false} AtMost(idx: seq<nat>, j: nat)
    requires j < |idx| && forall i, k :: 0 <= i < k < |idx| ==> idx[i] < idx[k]
    requires idx[|idx| - 1] < |idx|
    ensures idx[j] <= j
    decreases |idx| - j
  {
    if j + 1 < |idx| { AtMost(idx, j + 1); }
  }

  /** A complete part of an epoch in the order of its indices is the epoch as recorded. */
  lemma SortedPart(e: Epoch, part: seq<EpochOp>)
    requires Increasing(e.ops) && LegalPart(e, part) && |part| == |e.ops| && Sorted(part)
    ensures part == e.ops
  {
    var idx :| LegalSelection(e, idx) && part == OpsAt(e, idx);
    forall i, k | 0 <= i < k < |idx|
      ensures idx[i] < idx[k]
    {
      assert part[i].absIndex <= part[k].absIndex;
      assert idx[i] != idx[k];
    }
    forall j | 0 <= j < |idx|
      ensures part[j] == e.ops[j]
    {
      AtLeast(idx, j);
      AtMost(idx, j);
    }
  }

  /** No legal state has more operations than the epochs; one that has as many, in the order of their indices, is
      the recorded order. */
  lemma {:induction false} SortedWhole(epochs: seq<Epoch>, s: seq<EpochOp>)
    requires InOrder(epochs) && KeyedEpochs(epochs) && Legal(epochs, s) && Sorted(s)
    ensures |s| <= |Flatten(epochs)|
    ensures |s| == |Flatten(epochs)| ==> s == Flatten(epochs)
    decreases |epochs|
  {
    var e, n := epochs[0], |epochs[0].ops|;
    if |s| <= n {
      if |s| == |Flatten(epochs)| {
        SortedPart(e, s);
      }
    } else {
      SortedWhole(epochs[1..], s[n..]);
      assert s == s[..n] + s[n..];
    }
  }

  lemma {:induction false} ExpandSorted(log: seq<DiskWrite>, i: nat)
    requires i <= |log|
    ensures Sorted(Expand(log, i)) && forall j :: 0 <= j < |Expand(log, i)| ==> Expand(log, i)[j].absIndex >= i
    decreases |log| - i
  {
    if i < |log| {
      ExpandSorted(log, i + 1);
      var head, rest := Halves(log, i), Expand(log, i + 1);
      assert forall j :: 0 <= j < |head| ==> head[j].absIndex == i;
      assert forall j :: |head| <= j < |head + rest| ==> (head + rest)[j] == rest[j - |head|];
    }
  }

  /** The complete log, each flush with data as its two halves, is among the crash states if and only if every such
      flush is directly followed by an operation that is no barrier. */
  lemma CompleteStateIff(log: seq<DiskWrite>)
    requires log != []
    ensures Legal(Cut(log), Expand(log, 0)) <==> Clean(log, 0)
  {
    CutKeepsLogIff(log);
    WholeLogLegal(log);
    if Legal(Cut(log), Expand(log, 0)) {
      CutKeyed(log);
      CutShape(log);
      ExpandSorted(log, 0);
      SortedWhole(Cut(log), Expand(log, 0));
      CutConserves(log);
    }
  }

  lemma UnwrittenByte(img: Image, ops: seq<DiskWrite>, a: nat)
    requires AllFit(ops, |img|) && a < |img| && !Written(ops, a)
    ensures Replay(img, ops)[a] == img[a]
  {
    ReplayByte(img, ops, a);
    NoCover(ops, a, img[a]);
  }

  /** Some crash state of the log replays onto the image to `goal`. */
  ghost predicate Restorable(img: Image, log: seq<DiskWrite>, goal: Image) {
    exists state :: Legal(Cut(log), state) && AllFit(Ops(state), |img|) && Replay(img, Ops(state)) == goal
  }

  /** Every byte in which the two images differ is written by the log. */
  ghost predicate Bridged(one: Image, other: Image, log: seq<DiskWrite>)
    requires |one| == |other|
  {
    forall a :: 0 <= a < |one| && one[a] != other[a] ==> Written(log, a)
  }

  /** Which disks the crash states of a clean log can restore on a base: what the log makes of a start can be restored
      if and only if the log writes every byte in which the start differs from the base. */
  lemma RestorableIff(base: Image, start: Image, log: seq<DiskWrite>)
    requires |base| == |start| && AllFit(log, |base|) && log != [] && Clean(log, 0)
    ensures Restorable(base, log, Replay(start, log)) <==> Bridged(base, start, log)
  {
    var left := Replay(start, log);
    if Restorable(base, log, left) {
      var state :| Legal(Cut(log), state) && AllFit(Ops(state), |base|) && Replay(base, Ops(state)) == left;
      forall a | 0 <= a < |base| && !Written(log, a)
        ensures base[a] == start[a]
      {
        if Written(Ops(state), a) { StatesWriteLog(log, state, a); }
        UnwrittenByte(base, Ops(state), a);
        UnwrittenByte(start, log, a);
      }
    }
    if Bridged(base, start, log) {
      ReplaySameIff(base, start, log);
      CutReplay(base, log);
      WholeLogLegal(log);
    }
  }

  /** From end to end: a snapshot of the base is emptied and mounted, a workload recorded on it, and the log cut. Let
      every flush with data be directly followed by a request that is no barrier. Then some crash state replays onto the
      base to exactly the disk that the workload left if and only if the workload writes every byte that the mount has
      changed, since the log begins behind the mount. */
  lemma EndToEndIff(base: Tree, capacity: nat, mounted: seq<Bio>, bios: seq<Bio>)
    requires Recordable(map[], base, capacity, mounted, bios)
    requires Recorded(bios) != [] && Clean(Recorded(bios), 0)
    ensures var n := SECTOR_SIZE * capacity;
            Restorable(View(base, map[], n), Recorded(bios),
                       View(Worked(map[], base, capacity, mounted, bios), base, n)) <==>
            Bridged(View(base, map[], n), View(Served(map[], base, capacity, mounted), base, n), Recorded(bios))
  {
    var log, n := Recorded(bios), SECTOR_SIZE * capacity;
    var own := Served(map[], base, capacity, mounted);
    RecordReplay(own, base, capacity, bios);
    RestorableIff(View(base, map[], n), View(own, base, n), log);
  }

  lemma OneRequest(own: Tree, capacity: nat, bio: Bio)
    requires Paged(own) && Plain(bio, capacity) && bio.IsWrite()
    ensures LosesNothing(own.Keys, {}, capacity, [bio]) && Recorded([bio]) == [Entry(bio)]
    ensures Served(own, map[], capacity, [bio]) == After(own, map[], true, capacity, bio)
  {
    PlainRunSafe(own.Keys, {}, capacity, [bio]);
    SafeRunLosesNothing(own.Keys, {}, capacity, [bio]);
    assert [bio][1..] == [];
    assert Recorded([bio]) == [Entry(bio)] + [];
  }

  /** On a blank base the first byte of a write is found where it was addressed. */
  lemma FirstByte(capacity: nat, bio: Bio)
    requires Plain(bio, capacity) && bio.IsWrite() && bio.size > 0
    ensures var (n, a) := (SECTOR_SIZE * capacity, SECTOR_SIZE * bio.sector);
            a < n && View(Served(map[], map[], capacity, [bio]), map[], n)[a] == Concat(bio.segs)[0]
  {
    var none: Tree := map[];
    OneRequest(none, capacity, bio);
    OneLosesNothingIff({}, {}, capacity, bio);
    BioReplay(none, none, capacity, bio);
    EntryFits(bio, capacity);
  }

  /** Such a mount: on a blank base it writes a byte that is not zero, in front of all that the workload writes. No
      crash state restores the workload's disk. */
  lemma MountGap(capacity: nat, mount: Bio, bio: Bio)
    requires Plain(mount, capacity) && mount.IsWrite() && mount.size > 0 && Concat(mount.segs)[0] != 0
    requires Plain(bio, capacity) && bio.IsWrite() && !Entry(bio).IsSplit() && mount.sector < bio.sector
    ensures var n := SECTOR_SIZE * capacity;
            !Restorable(View(map[], map[], n), [Entry(bio)],
                        View(Worked(map[], map[], capacity, [mount], [bio]), map[], n))
  {
    var none: Tree := map[];
    var n, a := SECTOR_SIZE * capacity, SECTOR_SIZE * mount.sector;
    OneRequest(none, capacity, mount);
    OneRequest(Served(none, none, capacity, [mount]), capacity, bio);
    EndToEndIff(none, capacity, [mount], [bio]);
    FirstByte(capacity, mount);
    assert View(none, none, n)[a] == 0;
    assert !Written([Entry(bio)], a);
  }

  /** Without a mount the disk that the workload left is always among the crash states. */
  lemma EndToEnd(base: Tree, capacity: nat, bios: seq<Bio>)
    requires Recordable(map[], base, capacity, [], bios)
    requires Recorded(bios) != [] && Clean(Recorded(bios), 0)
    ensures var n := SECTOR_SIZE * capacity;
            Restorable(View(base, map[], n), Recorded(bios), View(Served(map[], base, capacity, bios), base, n))
  {
    EndToEndIff(base, capacity, [], bios);
    EmptyShowsParent(base, SECTOR_SIZE * capacity);
  }
}
