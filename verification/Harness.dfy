/** What a round of checks does to the disks, and what the rounds together do. */
module Harness {
  import opened BlockFile
  import opened CowBrd
  import opened CowDriver
  import opened CowRuns
  import opened CrashPermuter
  import opened CrashStates
  import opened DiskOps
  import opened DiskWrapper
  import opened Epochs
  import opened Finite
  import opened PageTree
  import opened Recorder
  import opened Recording

  // ---------------------------------------------------------------- one round

  /** The driver is ready for a round on snapshot `at`: the snapshot can be written, and the base is frozen and
      as it was. */
  ghost predicate Frozen(disks: Driver, at: nat, base: Device)
    reads disks, disks.base, disks.snaps, disks.frames
  {
    && disks.Valid() && at < |disks.snaps| && disks.snaps[at].isWritable
    && SECTOR_SIZE * disks.base.capacity < 0x8000_0000_0000_0000
    && DeviceOf(disks.base) == base && !base.writable
  }

  /** Replays operations onto a snapshot; the other devices stay as they are. */
  method WriteState(disks: Driver, at: nat, ops: seq<DiskWrite>, answers: nat -> int, past: seq<byte>,
                    ghost base: Device)
    returns (ok: bool)
    requires Frozen(disks, at, base) && Replayable(ops) && |past| == PAGE_SIZE
    modifies disks`frames, disks.snaps[at], disks.snaps[at].pages.Values
    ensures Frozen(disks, at, base) && fresh(disks.frames - old(disks.frames))
    ensures OnlyPagesOf(old(disks.State()), disks.State(), at)
    ensures ok ==> AllFit(ops, SECTOR_SIZE * disks.base.capacity)
                   && SnapView(disks.State(), at) == Replay(SnapView(old(disks.State()), at), ops)
    ensures Decided(answers, ops, SECTOR_SIZE * disks.base.capacity, ok)
  {
    var dev := disks.snaps[at];
    ghost var before, was := dev.pages.Values, disks.State();
    ok := WriteBesideOthers(disks, at, ops, answers, past);
    disks.Frame(dev, before);
    assert SnapView(disks.State(), at) == ImageOf(dev);
  }

  method WriteBesideOthers(disks: Driver, at: nat, ops: seq<DiskWrite>, answers: nat -> int, past: seq<byte>)
    returns (ok: bool)
    requires disks.Intact() && at < |disks.snaps| && Writable(disks.snaps[at]) && Replayable(ops) && |past| == PAGE_SIZE
    modifies disks.snaps[at], disks.snaps[at].pages.Values
    ensures disks.Intact() && Writable(disks.snaps[at])
    ensures fresh(disks.snaps[at].pages.Values - old(disks.snaps[at].pages.Values))
    ensures OnlyPagesOf(old(disks.State()), disks.State(), at)
    ensures ok ==> AllFit(ops, SECTOR_SIZE * disks.base.capacity)
                   && ImageOf(disks.snaps[at]) == Replay(old(ImageOf(disks.snaps[at])), ops)
    ensures Decided(answers, ops, SECTOR_SIZE * disks.base.capacity, ok)
  {
    var dev := disks.snaps[at];
    disks.Apart(at);
    ghost var whole, part;
    ok, whole, part := TestWriteData(dev, ops, answers, past);
    assert DeviceOf(disks.base) == old(DeviceOf(disks.base)) && Bounded(disks.base);
    forall j | 0 <= j < |disks.snaps| && j != at
      ensures DeviceOf(disks.snaps[j]) == old(DeviceOf(disks.snaps[j])) && disks.IsSnapshot(disks.snaps[j])
    {
      assert old(disks.IsSnapshot(disks.snaps[j]));
    }
  }

  /** Empties the snapshot: a reader of it sees the base. */
  method Restore(disks: Driver, at: nat, ghost base: Device)
    requires Frozen(disks, at, base)
    modifies disks.snaps[at]
    ensures Frozen(disks, at, base) && OnlyPagesOf(old(disks.State()), disks.State(), at)
    ensures SnapView(disks.State(), at) == BaseView(old(disks.State()))
    ensures disks.snaps[at].pages.Values <= old(disks.snaps[at].pages.Values)
  {
    var ok := disks.Control(disks.snaps[at], RestoreSnapshot);
    EmptyShowsParent(base.pages, SECTOR_SIZE * disks.base.capacity);
  }

  /** Restores the snapshot and writes a crash state to it. Whatever the snapshot held before: if all writes
      succeed it shows the base with the operations replayed onto it. */
  method LoadState(disks: Driver, at: nat, ops: seq<DiskWrite>, answers: nat -> int, past: seq<byte>,
                   ghost base: Device)
    returns (ok: bool)
    requires Frozen(disks, at, base) && Replayable(ops) && |past| == PAGE_SIZE
    modifies disks`frames, disks.snaps[at], disks.snaps[at].pages.Values
    ensures Frozen(disks, at, base) && fresh(disks.frames - old(disks.frames))
    ensures OnlyPagesOf(old(disks.State()), disks.State(), at)
    ensures ok ==> AllFit(ops, SECTOR_SIZE * disks.base.capacity)
                   && SnapView(disks.State(), at) == Replay(BaseView(old(disks.State())), ops)
    ensures Decided(answers, ops, SECTOR_SIZE * disks.base.capacity, ok)
  {
    Restore(disks, at, base);
    ok := WriteState(disks, at, ops, answers, past, base);
  }

  /** Requests and commands to the base and `n` snapshots that neither thaw nor wipe the base. */
  ghost predicate Allowed(n: nat, steps: seq<Step>) {
    forall k :: 0 <= k < |steps| ==>
      && (steps[k].to.Snap? ==> steps[k].to.i < n) && (steps[k].Request? ==> steps[k].bio.Formed())
      && KeepsFrozen(steps[k])
  }

  /** The checker, the mounted file system and the test make any requests they like, and any commands but
      those that thaw or wipe the base. What they find on the snapshot is noted. */
  method RunChecks(disks: Driver, at: nat, steps: seq<Step>, past: seq<byte>, ghost base: Device)
    requires Frozen(disks, at, base) && Allowed(|disks.snaps|, steps) && |past| == PAGE_SIZE
    modifies disks`frames, disks`found, disks.base, disks.snaps, disks.frames
    ensures Frozen(disks, at, base) && fresh(disks.frames - old(disks.frames))
    ensures disks.found == old(disks.found) + [SnapView(old(disks.State()), at)]
    ensures AllPossible(old(disks.State()), steps) && disks.State() == Run(old(disks.State()), steps)
  {
    ghost var before := disks.State();
    disks.Note(at);
    FrozenBase(before, steps);
    SnapshotStaysWritable(before, steps, at);
    disks.ServeAll(steps, past);
    assert disks.State().base == base && disks.State().snaps[at].writable;
  }

  /** A round that finds the disks in state `s` and leaves them in state `t`: snapshot `at` is overwritten, which leads
      to `mid`; if all writes succeed, `mid` shows the base with the operations replayed onto it, and the checks run. */
  ghost predicate RoundVia(s: System, mid: System, t: System, at: nat, ops: seq<DiskWrite>, steps: seq<Step>,
                           ok: bool)
  {
    && OnlyPagesOf(s, mid, at) && AllPossible(mid, steps)
    && if ok then
         && AllFit(ops, SECTOR_SIZE * s.capacity) && SnapView(mid, at) == Replay(BaseView(s), ops)
         && t == Run(mid, steps)
       else t == mid
  }

  /** What the checks of the round note. */
  ghost function Noted(mid: System, at: nat, ok: bool): seq<Image>
    requires mid.Valid() && at < |mid.snaps|
  {
    if ok then [SnapView(mid, at)] else []
  }

  /** The disks at some time, and what has been noted by then. */
  datatype Moment = Moment(disks: System, found: seq<Image>)

  ghost function Now(disks: Driver): Moment
    requires disks.Valid()
    reads disks, disks.base, disks.snaps, disks.frames
  {
    Moment(disks.State(), disks.found)
  }

  /** The part of a round that concerns the disks, from one moment to another. */
  ghost predicate Checks(s: Moment, mid: System, t: Moment, at: nat, ops: seq<DiskWrite>, answers: nat -> int,
                         steps: seq<Step>, ok: bool)
  {
    && RoundVia(s.disks, mid, t.disks, at, ops, steps, ok) && t.found == s.found + Noted(mid, at, ok)
    && Decided(answers, ops, SECTOR_SIZE * s.disks.capacity, ok)
  }

  /** What a round does to the disks: a crash state is written to the restored snapshot and, if all writes
      succeed, checked. */
  method CheckState(disks: Driver, at: nat, ops: seq<DiskWrite>, answers: nat -> int, steps: seq<Step>, past: seq<byte>,
                    ghost base: Device)
    returns (ok: bool, ghost mid: System)
    requires Frozen(disks, at, base) && Replayable(ops) && |past| == PAGE_SIZE
    requires Allowed(|disks.snaps|, steps)
    modifies disks`frames, disks`found, disks.base, disks.snaps, disks.frames
    ensures Frozen(disks, at, base) && fresh(disks.frames - old(disks.frames))
    ensures Checks(old(Now(disks)), mid, Now(disks), at, ops, answers, steps, ok)
  {
    ok := LoadState(disks, at, ops, answers, past, base);
    mid := disks.State();
    if ok {
      RunChecks(disks, at, steps, past, base);
    }
  }

  // ---------------------------------------------------------------- recording on a snapshot

  /** Wraps one device, mounts it, and records a workload on it. */
  method RecordAlone(dev: BrdDevice, mounted: seq<Bio>, bios: seq<Bio>, past: seq<byte>, ghost own: Tree,
                     ghost parent: Tree)
    returns (log: seq<DiskWrite>)
    requires Paged(own) && Paged(parent) && Holds(dev, own, parent) && |past| == PAGE_SIZE
    requires AllFormed(mounted) && AllPlain(bios, dev.capacity)
    modifies dev, dev.pages.Values
    ensures Holds(dev, Worked(own, parent, dev.capacity, mounted, bios), parent)
    ensures fresh(dev.pages.Values - old(dev.pages.Values)) && log == Recorded(bios)
  {
    var wrapper := new HwmDevice(dev);
    log := DriveWorkload(wrapper, mounted, bios, past, own, parent);
  }

  method RecordBesideOthers(disks: Driver, at: nat, mounted: seq<Bio>, bios: seq<Bio>, past: seq<byte>)
    returns (log: seq<DiskWrite>)
    requires disks.Intact() && at < |disks.snaps| && disks.snaps[at].isWritable && |past| == PAGE_SIZE
    requires AllFormed(mounted) && AllPlain(bios, disks.base.capacity)
    modifies disks.snaps[at], disks.snaps[at].pages.Values
    ensures disks.Intact() && disks.snaps[at].isWritable
    ensures fresh(disks.snaps[at].pages.Values - old(disks.snaps[at].pages.Values))
    ensures OnlyPagesOf(old(disks.State()), disks.State(), at) && log == Recorded(bios)
    ensures disks.base.Contents() == old(disks.base.Contents())
    ensures disks.snaps[at].Contents()
         == Worked(old(disks.snaps[at].Contents()), disks.base.Contents(), disks.base.capacity, mounted, bios)
  {
    var dev := disks.snaps[at];
    disks.Apart(at);
    WorkedInRange(dev.Contents(), disks.base.Contents(), dev.capacity, mounted, bios);
    log := RecordAlone(dev, mounted, bios, past, dev.Contents(), disks.base.Contents());
    assert DeviceOf(disks.base) == old(DeviceOf(disks.base)) && Bounded(disks.base);
    forall j | 0 <= j < |disks.snaps| && j != at
      ensures DeviceOf(disks.snaps[j]) == old(DeviceOf(disks.snaps[j])) && disks.IsSnapshot(disks.snaps[j])
    {
      assert old(disks.IsSnapshot(disks.snaps[j]));
    }
  }

  /** Mounts a snapshot and records a workload on it; the other devices stay as they are. */
  method RecordOn(disks: Driver, at: nat, mounted: seq<Bio>, bios: seq<Bio>, past: seq<byte>, ghost base: Device)
    returns (log: seq<DiskWrite>)
    requires Frozen(disks, at, base) && |past| == PAGE_SIZE
    requires AllFormed(mounted) && AllPlain(bios, disks.base.capacity)
    modifies disks`frames, disks.snaps[at], disks.snaps[at].pages.Values
    ensures Frozen(disks, at, base) && fresh(disks.frames - old(disks.frames))
    ensures OnlyPagesOf(old(disks.State()), disks.State(), at) && log == Recorded(bios)
    ensures disks.snaps[at].Contents()
         == Worked(old(disks.snaps[at].Contents()), base.pages, disks.base.capacity, mounted, bios)
  {
    ghost var before := disks.snaps[at].pages.Values;
    log := RecordBesideOthers(disks, at, mounted, bios, past);
    disks.Frame(disks.snaps[at], before);
  }

  /** From `s` to `t` the base has been frozen, and the snapshot mounted and worked on. */
  ghost predicate Prepared(s: System, t: System, at: nat, mounted: seq<Bio>, bios: seq<Bio>)
    requires s.Valid() && AllFormed(mounted) && AllPlain(bios, s.capacity)
  {
    && OnlyPagesOf(s.(base := s.base.(writable := false)), t, at)
    && t.snaps[at].pages == Worked(s.snaps[at].pages, s.base.pages, s.capacity, mounted, bios)
  }

  method Freeze(disks: Driver)
    requires disks.Valid()
    modifies disks.base
    ensures disks.Valid() && disks.base.pages.Values <= old(disks.base.pages.Values)
    ensures var s := old(disks.State()); disks.State() == s.(base := s.base.(writable := false))
  {
    var ok := disks.Control(disks.base, Snapshot);
  }

  /** Freezes the base, mounts a snapshot, and records a workload on it. */
  method Prepare(disks: Driver, at: nat, mounted: seq<Bio>, bios: seq<Bio>, past: seq<byte>, ghost s: System)
    returns (log: seq<DiskWrite>, ghost now: Moment)
    requires disks.Valid() && at < |disks.snaps| && disks.snaps[at].isWritable && |past| == PAGE_SIZE
    requires s == disks.State()
    requires SECTOR_SIZE * disks.base.capacity < 0x8000_0000_0000_0000
    requires AllFormed(mounted) && AllPlain(bios, disks.base.capacity)
    modifies disks`frames, disks.base, disks.snaps[at], disks.snaps[at].pages.Values
    ensures Frozen(disks, at, s.base.(writable := false)) && fresh(disks.frames - old(disks.frames))
    ensures now == Now(disks) && Prepared(s, now.disks, at, mounted, bios)
    ensures log == Recorded(bios) && Replayable(log)
  {
    Freeze(disks);
    log := RecordOn(disks, at, mounted, bios, past, DeviceOf(disks.base));
    RecordedReplayable(bios, disks.base.capacity);
    now := Now(disks);
  }

  /** The harness can replay what it records. */
  lemma {:induction false} RecordedReplayable(bios: seq<Bio>, capacity: nat)
    requires AllPlain(bios, capacity) && SECTOR_SIZE * capacity < 0x8000_0000_0000_0000
    ensures Replayable(Recorded(bios))
  {
    if bios != [] {
      RecordedReplayable(bios[1..], capacity);
      EntryFits(bios[0], capacity);
    }
  }

  // ---------------------------------------------------------------- all rounds

  /** The index vectors remembered after the states have been handed out. */
  function Remembered(known: set<seq<nat>>, states: seq<seq<EpochOp>>): set<seq<nat>> {
    if states == [] then known else Remembered(known, states[..|states| - 1]) + {Key(states[|states| - 1])}
  }

  ghost predicate AllDrawable(epochs: seq<Epoch>, draws: nat -> (nat -> Choice)) {
    forall r: nat :: Drawable(epochs, draws(r))
  }

  /** The state is the first new one that the draws give, and it could be written if it lies on a disk of `n` bytes. */
  ghost predicate RoundDone(epochs: seq<Epoch>, keys: set<seq<nat>>, draws: nat -> Choice, answers: nat -> int, n: nat,
                            state: seq<EpochOp>, ok: bool)
    requires Drawable(epochs, draws)
  {
    FirstNew(epochs, keys, draws, state) && (ok ==> AllFit(Ops(state), n)) && Decided(answers, Ops(state), n, ok)
  }

  /** ... round by round. */
  ghost predicate RoundsDone(epochs: seq<Epoch>, known: set<seq<nat>>, draws: nat -> (nat -> Choice),
                             answers: nat -> (nat -> int), n: nat, states: seq<seq<EpochOp>>, results: seq<bool>)
    requires AllDrawable(epochs, draws)
    decreases |states|
  {
    && |results| == |states|
    && (states == []
        || (var m := |states| - 1;
            && RoundsDone(epochs, known, draws, answers, n, states[..m], results[..m])
            && RoundDone(epochs, Remembered(known, states[..m]), draws(m), answers(m), n, states[m], results[m])))
  }

  /** The same, said of one round. */
  lemma {:induction false} RoundDoneAt(epochs: seq<Epoch>, known: set<seq<nat>>, draws: nat -> (nat -> Choice),
                                       answers: nat -> (nat -> int), n: nat, states: seq<seq<EpochOp>>,
                                       results: seq<bool>, r: nat)
    requires AllDrawable(epochs, draws) && RoundsDone(epochs, known, draws, answers, n, states, results) && r < |states|
    ensures |results| == |states|
    ensures RoundDone(epochs, Remembered(known, states[..r]), draws(r), answers(r), n, states[r], results[r])
    decreases |states|
  {
    var m := |states| - 1;
    if r < m {
      RoundDoneAt(epochs, known, draws, answers, n, states[..m], results[..m], r);
      assert states[..m][..r] == states[..r] && states[..m][r] == states[r] && results[..m][r] == results[r];
    }
  }

  /** What the checks of one state should find, if it could be written. */
  ghost function ImageOfState(img: Image, state: seq<EpochOp>, ok: bool): seq<Image> {
    if ok && AllFit(Ops(state), |img|) then [Replay(img, Ops(state))] else []
  }

  /** What the checks of the rounds should find: for each state that could be written, the base with that state
      replayed onto it. */
  ghost function Images(img: Image, states: seq<seq<EpochOp>>, results: seq<bool>): seq<Image>
    requires |results| == |states|
    decreases |states|
  {
    if states == [] then []
    else
      var m := |states| - 1;
      Images(img, states[..m], results[..m]) + ImageOfState(img, states[m], results[m])
  }

  lemma KeysMore(known: set<seq<nat>>, states: seq<seq<EpochOp>>, state: seq<EpochOp>)
    ensures Remembered(known, states + [state]) == Remembered(known, states) + {Key(state)}
  {
    assert (states + [state])[..|states|] == states;
  }

  lemma RoundAdds(epochs: seq<Epoch>, known: set<seq<nat>>, draws: nat -> (nat -> Choice), answers: nat -> (nat -> int),
                  n: nat, states: seq<seq<EpochOp>>, results: seq<bool>, state: seq<EpochOp>, ok: bool)
    requires AllDrawable(epochs, draws) && RoundsDone(epochs, known, draws, answers, n, states, results)
    requires FirstNew(epochs, Remembered(known, states), draws(|states|), state)
    requires (ok ==> AllFit(Ops(state), n)) && Decided(answers(|states|), Ops(state), n, ok)
    ensures RoundsDone(epochs, known, draws, answers, n, states + [state], results + [ok])
  {
    assert (states + [state])[..|states|] == states && (results + [ok])[..|states|] == results;
  }

  lemma ImagesMore(img: Image, states: seq<seq<EpochOp>>, results: seq<bool>, state: seq<EpochOp>, ok: bool)
    requires |results| == |states|
    ensures Images(img, states + [state], results + [ok]) == Images(img, states, results) + ImageOfState(img, state, ok)
  {
    assert (states + [state])[..|states|] == states && (results + [ok])[..|states|] == results;
  }

  /** Every state is legal, and its index vector was not remembered when its turn came. */
  ghost predicate NewStates(epochs: seq<Epoch>, known: set<seq<nat>>, states: seq<seq<EpochOp>>)
    decreases |states|
  {
    states == []
    || (var front, last := states[..|states| - 1], states[|states| - 1];
        NewStates(epochs, known, front) && Legal(epochs, last) && Key(last) !in Remembered(known, front))
  }

  lemma {:induction false} RoundsNew(epochs: seq<Epoch>, known: set<seq<nat>>, draws: nat -> (nat -> Choice),
                                     answers: nat -> (nat -> int), n: nat, states: seq<seq<EpochOp>>,
                                     results: seq<bool>)
    requires NonEmpty(epochs) && AllDrawable(epochs, draws)
    requires RoundsDone(epochs, known, draws, answers, n, states, results)
    ensures NewStates(epochs, known, states)
    decreases |states|
  {
    if states != [] {
      var m := |states| - 1;
      RoundsNew(epochs, known, draws, answers, n, states[..m], results[..m]);
      FirstNewLegal(epochs, Remembered(known, states[..m]), draws(m), states[m]);
    }
  }

  ghost predicate Counted(epochs: seq<Epoch>, known: set<seq<nat>>, keys: set<seq<nat>>, n: nat)
    requires NonEmpty(epochs)
  {
    known <= keys && keys - known <= Keys(epochs) && |keys - known| == n
  }

  lemma CountedMore(epochs: seq<Epoch>, known: set<seq<nat>>, keys: set<seq<nat>>, n: nat, key: seq<nat>)
    requires NonEmpty(epochs) && Counted(epochs, known, keys, n) && key in Keys(epochs) && key !in keys
    ensures Counted(epochs, known, keys + {key}, n + 1)
  {
    assert (keys + {key}) - known == (keys - known) + {key};
  }

  /** No two of the states have the same index vector, and all of these are remembered. */
  ghost predicate ApartIn(states: seq<seq<EpochOp>>, keys: set<seq<nat>>) {
    && (forall q :: 0 <= q < |states| ==> Key(states[q]) in keys)
    && (forall q, r :: 0 <= q < r < |states| ==> Key(states[q]) != Key(states[r]))
  }

  lemma ApartMore(states: seq<seq<EpochOp>>, keys: set<seq<nat>>, last: seq<EpochOp>, key: seq<nat>)
    requires ApartIn(states, keys) && key == Key(last) && key !in keys
    ensures ApartIn(states + [last], keys + {key})
  {
  }

  lemma {:induction false} NewStatesCounted(epochs: seq<Epoch>, known: set<seq<nat>>, states: seq<seq<EpochOp>>)
    requires NonEmpty(epochs) && KeyedEpochs(epochs) && NewStates(epochs, known, states)
    ensures Counted(epochs, known, Remembered(known, states), |states|)
    ensures ApartIn(states, Remembered(known, states))
    decreases |states|
  {
    if states != [] {
      var front, last := states[..|states| - 1], states[|states| - 1];
      NewStatesCounted(epochs, known, front);
      KeyOfLegal(epochs, last);
      CountedMore(epochs, known, Remembered(known, front), |front|, Key(last));
      ApartMore(front, Remembered(known, front), last, Key(last));
      assert states == front + [last];
    }
  }

  /** The states of the rounds are legal, no two of them have the same index vector, and none was remembered at the
      start; so there are at most as many as legal states not remembered at the start. */
  lemma RoundsBound(epochs: seq<Epoch>, known: set<seq<nat>>, draws: nat -> (nat -> Choice),
                    answers: nat -> (nat -> int), n: nat, states: seq<seq<EpochOp>>, results: seq<bool>)
    requires NonEmpty(epochs) && KeyedEpochs(epochs) && AllDrawable(epochs, draws)
    requires RoundsDone(epochs, known, draws, answers, n, states, results)
    ensures forall r :: 0 <= r < |states| ==> Legal(epochs, states[r]) && Key(states[r]) !in known
    ensures forall q, r :: 0 <= q < r < |states| ==> Key(states[q]) != Key(states[r])
    ensures |states| + |known * Keys(epochs)| <= StateCount(epochs)
  {
    RoundsNew(epochs, known, draws, answers, n, states, results);
    NewStatesCounted(epochs, known, states);
    var added, kept := Remembered(known, states) - known, known * Keys(epochs);
    assert added !! kept;
    assert |added + kept| == |added| + |kept|;
    SubsetSize(added + kept, Keys(epochs));
    KeysSize(epochs);
    forall r | 0 <= r < |states|
      ensures Legal(epochs, states[r]) && Key(states[r]) !in known
    {
      RoundDoneAt(epochs, known, draws, answers, n, states, results, r);
      FirstNewLegal(epochs, Remembered(known, states[..r]), draws(r), states[r]);
      RememberedKeeps(known, states[..r]);
    }
  }

  lemma {:induction false} RememberedKeeps(known: set<seq<nat>>, states: seq<seq<EpochOp>>)
    ensures known <= Remembered(known, states)
    decreases |states|
  {
    if states != [] { RememberedKeeps(known, states[..|states| - 1]); }
  }

  /** What has happened after some rounds: the first new states were drawn and remembered, and the checks of those that
      could be written found the base with that state replayed onto it. */
  ghost predicate Sofar(epochs: seq<Epoch>, known: set<seq<nat>>, draws: nat -> (nat -> Choice),
                        answers: nat -> (nat -> int), img: Image, states: seq<seq<EpochOp>>, results: seq<bool>,
                        keys: set<seq<nat>>, before: seq<Image>, after: seq<Image>)
    requires AllDrawable(epochs, draws)
  {
    && RoundsDone(epochs, known, draws, answers, |img|, states, results)
    && keys == Remembered(known, states) && after == before + Images(img, states, results)
  }

  lemma SofarAdds(epochs: seq<Epoch>, known: set<seq<nat>>, draws: nat -> (nat -> Choice), answers: nat -> (nat -> int),
                  img: Image, states: seq<seq<EpochOp>>, results: seq<bool>, keys: set<seq<nat>>, state: seq<EpochOp>,
                  ok: bool, start: seq<Image>, before: seq<Image>, after: seq<Image>)
    requires AllDrawable(epochs, draws)
    requires Sofar(epochs, known, draws, answers, img, states, results, keys, start, before)
    requires FirstNew(epochs, keys, draws(|states|), state)
    requires CheckedOn(img, Ops(state), answers(|states|), ok, before, after)
    ensures Sofar(epochs, known, draws, answers, img, states + [state], results + [ok], keys + {Key(state)}, start,
                  after)
  {
    RoundAdds(epochs, known, draws, answers, |img|, states, results, state, ok);
    KeysMore(known, states, state);
    ImagesMore(img, states, results, state, ok);
    Assoc(start, Images(img, states, results), ImageOfState(img, state, ok));
  }

  /** What the checks of a round note, in terms of the base image alone. */
  ghost predicate CheckedOn(img: Image, ops: seq<DiskWrite>, answers: nat -> int, ok: bool, before: seq<Image>,
                            after: seq<Image>)
  {
    && Decided(answers, ops, |img|, ok) && (ok ==> AllFit(ops, |img|))
    && after == before + if ok then [Replay(img, ops)] else []
  }

  lemma ChecksOn(s: Moment, mid: System, t: Moment, at: nat, ops: seq<DiskWrite>, answers: nat -> int, steps: seq<Step>,
                 ok: bool)
    requires Checks(s, mid, t, at, ops, answers, steps, ok)
    ensures CheckedOn(BaseView(s.disks), ops, answers, ok, s.found, t.found)
  {
  }

  // ---------------------------------------------------------------- the history of the disks

  /** What the rounds start from and what is given to them: the epochs, the index vectors remembered, the random draws,
      how the kernel splits the writes, what the checks do, and the disks. */
  datatype Course = Course(at: nat, epochs: seq<Epoch>, known: set<seq<nat>>, draws: nat -> (nat -> Choice),
                           answers: nat -> (nat -> int), activity: nat -> seq<Step>, start: Moment)

  /** What has happened: the state of each round, the disks when it had been written, and the disks before, between and
      after the rounds. */
  datatype History = History(states: seq<seq<EpochOp>>, mids: seq<System>, trace: seq<Moment>)

  /** Round `r` led from one moment of the history to the next. */
  ghost predicate TracedAt(c: Course, h: History, results: seq<bool>, r: nat)
    requires r < |h.states| == |h.mids| == |results| && r + 1 < |h.trace|
  {
    Checks(h.trace[r], h.mids[r], h.trace[r + 1], c.at, Ops(h.states[r]), c.answers(r), c.activity(r), results[r])
  }

  ghost predicate Traced(c: Course, h: History, results: seq<bool>) {
    && |h.states| == |h.mids| == |results| && |h.trace| == |h.states| + 1
    && forall r :: 0 <= r < |h.states| ==> TracedAt(c, h, results, r)
  }

  lemma TracedMore(c: Course, h: History, results: seq<bool>, state: seq<EpochOp>, mid: System, next: Moment, ok: bool)
    requires Traced(c, h, results)
    requires var r := |h.states|;
             Checks(h.trace[r], mid, next, c.at, Ops(state), c.answers(r), c.activity(r), ok)
    ensures Traced(c, History(h.states + [state], h.mids + [mid], h.trace + [next]), results + [ok])
  {
    var more, m := History(h.states + [state], h.mids + [mid], h.trace + [next]), |h.states|;
    forall r | 0 <= r < m
      ensures TracedAt(c, more, results + [ok], r)
    {
      assert TracedAt(c, h, results, r);
      assert more.states[r] == h.states[r] && more.mids[r] == h.mids[r] && (results + [ok])[r] == results[r];
      assert more.trace[r] == h.trace[r] && more.trace[r + 1] == h.trace[r + 1];
    }
    assert more.states[m] == state && more.mids[m] == mid && (results + [ok])[m] == ok;
    assert more.trace[m] == h.trace[m] && more.trace[m + 1] == next;
  }

  /** All that the rounds have done up to `now`: what was drawn and remembered, what was found, and how each round led
      the disks from the start to where they are. */
  ghost predicate Happened(c: Course, h: History, results: seq<bool>, keys: set<seq<nat>>, now: Moment)
    requires AllDrawable(c.epochs, c.draws) && c.start.disks.Valid()
  {
    && Sofar(c.epochs, c.known, c.draws, c.answers, BaseView(c.start.disks), h.states, results, keys, c.start.found,
             now.found)
    && Traced(c, h, results) && h.trace[0] == c.start && h.trace[|h.states|] == now
  }

  /** ... and the rounds asked for are over, or the permitted tries exhausted. */
  ghost predicate Finished(c: Course, rounds: nat, h: History, results: seq<bool>, keys: set<seq<nat>>, now: Moment)
    requires AllDrawable(c.epochs, c.draws)
  {
    && c.start.disks.Valid() && Happened(c, h, results, keys, now) && |results| <= rounds
    && (|results| < rounds ==> Exhausted(c.epochs, keys, c.draws(|results|)))
  }

  lemma HappenedNone(c: Course)
    requires AllDrawable(c.epochs, c.draws) && c.start.disks.Valid()
    ensures Happened(c, History([], [], [c.start]), [], c.known, c.start)
  {
    assert c.start.found + [] == c.start.found;
  }

  lemma HappenedMore(c: Course, h: History, results: seq<bool>, keys: set<seq<nat>>, now: Moment, state: seq<EpochOp>,
                     mid: System, next: Moment, ok: bool)
    requires AllDrawable(c.epochs, c.draws) && c.start.disks.Valid() && Happened(c, h, results, keys, now)
    requires now.disks.Valid() && BaseView(now.disks) == BaseView(c.start.disks)
    requires var r := |h.states|;
             && FirstNew(c.epochs, keys, c.draws(r), state)
             && Checks(now, mid, next, c.at, Ops(state), c.answers(r), c.activity(r), ok)
    ensures Happened(c, History(h.states + [state], h.mids + [mid], h.trace + [next]), results + [ok],
                     keys + {Key(state)}, next)
  {
    var r := |h.states|;
    ChecksOn(now, mid, next, c.at, Ops(state), c.answers(r), c.activity(r), ok);
    SofarAdds(c.epochs, c.known, c.draws, c.answers, BaseView(c.start.disks), h.states, results, keys, state, ok,
              c.start.found, now.found, next.found);
    TracedMore(c, h, results, state, mid, next, ok);
  }

  /** In no round the base has changed. */
  lemma {:induction false} BaseStays(c: Course, h: History, results: seq<bool>, r: nat)
    requires Traced(c, h, results) && r < |h.trace| && c.start == h.trace[0] && c.start.disks.Valid()
    requires !c.start.disks.base.writable && forall q :: AllKeepFrozen(c.activity(q))
    ensures h.trace[r].disks.Valid() && h.trace[r].disks.base == c.start.disks.base
    ensures h.trace[r].disks.capacity == c.start.disks.capacity
  {
    if r > 0 {
      BaseStays(c, h, results, r - 1);
      assert TracedAt(c, h, results, r - 1);
      FrozenBase(h.mids[r - 1], c.activity(r - 1));
    }
  }

  /** Rounds are isolated: whatever the rounds before have done to the disks, in every round whose state could be
      written the checks start from the base with that state replayed onto it, and go on from there. */
  lemma RoundIsolated(c: Course, h: History, results: seq<bool>, r: nat)
    requires Traced(c, h, results) && r < |h.states| && results[r] && c.start == h.trace[0] && c.start.disks.Valid()
    requires !c.start.disks.base.writable && forall q :: AllKeepFrozen(c.activity(q))
    ensures var mid := h.mids[r];
            && mid.Valid() && c.at < |mid.snaps| && AllFit(Ops(h.states[r]), |BaseView(c.start.disks)|)
            && SnapView(mid, c.at) == Replay(BaseView(c.start.disks), Ops(h.states[r]))
            && AllPossible(mid, c.activity(r)) && h.trace[r + 1].disks == Run(mid, c.activity(r))
  {
    BaseStays(c, h, results, r);
    assert TracedAt(c, h, results, r);
  }
}
