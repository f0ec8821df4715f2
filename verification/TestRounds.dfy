/** The harness object: it fetches, saves, loads and restores a log, and runs the rounds in which crash states are
    drawn, written to the snapshot and checked. */
module TestRounds {
  import opened BlockFile
  import opened CowBrd
  import opened CowDriver
  import opened CowRuns
  import opened CrashPermuter
  import opened CrashStates
  import opened DiskOps
  import opened DiskWrapper
  import opened Epochs
  import opened Finite
  import opened Harness
  import opened LogFile
  import opened PageTree
  import opened Recorder
  import opened Recording
  import opened Wrappers

  /** Loading the rest of a profile leads to `whole` behind `start`. */
  ghost predicate LoadsTo(start: seq<DiskWrite>, data: seq<DiskWrite>, rest: seq<byte>, whole: Option<seq<DiskWrite>>) {
    match ParseProfile(rest)
    case None => whole == None
    case Some(ops) => whole.Some? && data + ops == start + whole.value
  }

  lemma LoadStep(start: seq<DiskWrite>, data: seq<DiskWrite>, rest: seq<byte>, whole: Option<seq<DiskWrite>>)
    requires rest != [] && LoadsTo(start, data, rest, whole)
    ensures ParseRecord(rest) == None ==> whole == None
    ensures ParseRecord(rest).Some? && |ParseRecord(rest).value.1| < |rest| ==>
              LoadsTo(start, data + [ParseRecord(rest).value.0], ParseRecord(rest).value.1, whole)
  {
    if ParseRecord(rest).Some? {
      var (op, behind) := ParseRecord(rest).value;
      if |behind| < |rest| && ParseProfile(behind).Some? {
        Assoc(data, [op], ParseProfile(behind).value);
      }
    }
  }

  class Tester {
    var logData: seq<DiskWrite>
    const permuter: RandomPermuter

    constructor (permuter: RandomPermuter)
      ensures logData == [] && this.permuter == permuter
    {
      logData, this.permuter := [], permuter;
    }

    /** Appends the entries that the wrapper still delivers. */
    method FetchLog(dev: HwmDevice)
      requires dev.Valid()
      modifies this`logData, dev
      ensures dev.Valid() && dev.cursor.None? && logData == old(logData) + Undelivered(old(dev.State()))
    {
      var log := GetWrapperLog(dev);
      logData := logData + log;
    }

    method LogProfileSave() returns (log: OutFile)
      requires forall i :: 0 <= i < |logData| ==> logData[i].WellFormed()
      ensures fresh(log) && log.text == Profile(logData)
    {
      log := new OutFile();
      assert logData[0..] == logData;
      for i := 0 to |logData|
        invariant fresh(log) && log.text + Profile(logData[i..]) == Profile(logData)
      {
        Assoc(log.text, Record(logData[i]), Profile(logData[i + 1..]));
        assert logData[i..][1..] == logData[i + 1..];
        log.Serialize(logData[i]);
      }
      assert log.text + [] == log.text;
    }

    /** Appends the records of a profile; gives up where the program would stop on an assertion. */
    method LogProfileLoad(text: seq<byte>) returns (ok: bool)
      modifies this`logData
      ensures ok <==> ParseProfile(text).Some?
      ensures ok ==> logData == old(logData) + ParseProfile(text).value
    {
      var log := new InFile(text);
      ghost var start := logData;
      while log.rest != []
        invariant fresh(log) && start == old(logData) && LoadsTo(start, logData, log.rest, ParseProfile(text))
        decreases |log.rest|
      {
        LoadStep(start, logData, log.rest, ParseProfile(text));
        var op := log.Deserialize();
        if op.None? {
          return false;
        }
        logData := logData + [op.value];
      }
      assert logData == start + ParseProfile(text).value;
      ok := true;
    }

    /** Replays the whole log onto a device. */
    method TestRestoreLog(dev: BrdDevice, answers: nat -> int, past: seq<byte>) returns (ok: bool)
      requires Writable(dev) && |past| == PAGE_SIZE && Replayable(logData)
      modifies dev, dev.pages.Values
      ensures Writable(dev) && logData == old(logData)
      ensures ok ==> AllFit(logData, SECTOR_SIZE * dev.capacity) && ImageOf(dev) == Replay(old(ImageOf(dev)), logData)
      ensures Decided(answers, logData, SECTOR_SIZE * dev.capacity, ok)
    {
      ghost var whole, part;
      ok, whole, part := TestWriteData(dev, logData, answers, past);
    }

    /** The permuter has cut this log. */
    ghost predicate Ready()
      reads this, permuter
    {
      permuter.Valid() && permuter.epochs == Cut(logData)
    }

    /** Draws a crash state. */
    method NextState(draws: nat -> Choice) returns (ops: seq<DiskWrite>, isNew: bool, ghost state: seq<EpochOp>)
      requires Ready() && Drawable(Cut(logData), draws)
      modifies permuter`completed
      ensures Ready() && ops == Ops(state) && Legal(Cut(logData), state)
      ensures Draws(Cut(logData), old(permuter.completed), draws, isNew, state, permuter.completed)
    {
      ghost var used;
      ops, isNew, state, used := permuter.GenerateCrashState(draws);
    }

    /** The disks are ready for a round, and the moment is the given one. */
    ghost predicate Stands(disks: Driver, at: nat, base: Device, now: Moment)
      reads disks, disks.base, disks.snaps, disks.frames
    {
      Frozen(disks, at, base) && Now(disks) == now
    }

    /** Drawing a state leaves the disks alone. */
    method DrawBesideDisks(disks: Driver, at: nat, draws: nat -> Choice, ghost base: Device, ghost now: Moment)
      returns (ops: seq<DiskWrite>, isNew: bool, ghost state: seq<EpochOp>)
      requires Ready() && Stands(disks, at, base, now) && Drawable(Cut(logData), draws) && Replayable(logData)
      modifies permuter`completed
      ensures Ready() && Stands(disks, at, base, now)
      ensures ops == Ops(state) && Replayable(ops)
      ensures Draws(Cut(logData), old(permuter.completed), draws, isNew, state, permuter.completed)
    {
      ops, isNew, state := NextState(draws);
      StatesReplayable(logData, state);
      assert Stands(disks, at, base, now);
    }

    /** Checking a state leaves the permuter alone. */
    method CheckBesidePermuter(disks: Driver, at: nat, ops: seq<DiskWrite>, answers: nat -> int, steps: seq<Step>,
                               past: seq<byte>, ghost base: Device, ghost now: Moment)
      returns (ok: bool, ghost mid: System)
      requires Ready() && Stands(disks, at, base, now) && Replayable(ops) && |past| == PAGE_SIZE
      requires Allowed(|disks.snaps|, steps)
      modifies disks`frames, disks`found, disks.base, disks.snaps, disks.frames
      ensures Ready() && Frozen(disks, at, base) && fresh(disks.frames - old(disks.frames))
      ensures Checks(now, mid, Now(disks), at, ops, answers, steps, ok)
      ensures permuter.completed == old(permuter.completed)
    {
      ok, mid := CheckState(disks, at, ops, answers, steps, past, base);
      assert Ready();
    }

    /** One round: the first new crash state that the draws give is written to the restored snapshot and checked. When
        they give none, nothing happens. */
    method Round(disks: Driver, at: nat, draws: nat -> Choice, answers: nat -> int, steps: seq<Step>, past: seq<byte>,
                 ghost base: Device, ghost now: Moment)
      returns (isNew: bool, ok: bool, ghost state: seq<EpochOp>, ghost mid: System)
      requires Ready() && Replayable(logData) && Drawable(Cut(logData), draws)
      requires Stands(disks, at, base, now) && |past| == PAGE_SIZE && Allowed(|disks.snaps|, steps)
      modifies permuter`completed, disks`frames, disks`found, disks.base, disks.snaps, disks.frames
      ensures Ready() && Frozen(disks, at, base) && fresh(disks.frames - old(disks.frames))
      ensures Draws(Cut(logData), old(permuter.completed), draws, isNew, state, permuter.completed)
      ensures isNew ==> Checks(now, mid, Now(disks), at, Ops(state), answers, steps, ok)
      ensures !isNew ==> Now(disks) == now
    {
      var ops;
      ok, mid := false, now.disks;
      ops, isNew, state := DrawBesideDisks(disks, at, draws, base, now);
      if isNew {
        ok, mid := CheckBesidePermuter(disks, at, ops, answers, steps, past, base, now);
      }
    }

    /** What the rounds have done to what is drawn, remembered and noted, and to the disks. */
    ghost predicate Progress(disks: Driver, base: Device, c: Course, h: History, results: seq<bool>)
      requires AllDrawable(c.epochs, c.draws) && c.start.disks.Valid()
      reads this, permuter, disks, disks.base, disks.snaps, disks.frames
    {
      && Ready() && Replayable(logData) && c.epochs == Cut(logData)
      && Frozen(disks, c.at, base) && BaseView(disks.State()) == BaseView(c.start.disks)
      && Happened(c, h, results, permuter.completed, Now(disks))
    }

    /** Cuts the log for the rounds. */
    method StartRounds(disks: Driver, ghost base: Device, ghost c: Course)
      requires logData != [] && Replayable(logData) && Frozen(disks, c.at, base) && AllDrawable(c.epochs, c.draws)
      requires c.start == Now(disks) && c.epochs == Cut(logData) && c.known == permuter.completed
      modifies permuter`epochs
      ensures Progress(disks, base, c, History([], [], [c.start]), [])
    {
      permuter.InitDataVector(logData);
      assert Now(disks) == old(Now(disks));
      HappenedNone(c);
    }

    /** The next round. */
    method NextRound(disks: Driver, at: nat, draws: nat -> Choice, answers: nat -> int, steps: seq<Step>,
                     past: seq<byte>, results: seq<bool>, ghost base: Device, ghost c: Course, ghost h: History)
      returns (more: bool, results': seq<bool>, ghost h': History)
      requires AllDrawable(c.epochs, c.draws) && c.start.disks.Valid() && Progress(disks, base, c, h, results)
      requires |past| == PAGE_SIZE && Allowed(|disks.snaps|, steps)
      requires at == c.at && draws == c.draws(|results|) && answers == c.answers(|results|)
      requires steps == c.activity(|results|)
      modifies permuter`completed, disks`frames, disks`found, disks.base, disks.snaps, disks.frames
      ensures Progress(disks, base, c, h', results')
      ensures fresh(disks.frames - old(disks.frames))
      ensures |results'| == if more then |results| + 1 else |results|
      ensures more || Exhausted(c.epochs, permuter.completed, c.draws(|results'|))
    {
      ghost var keys, now := permuter.completed, Now(disks);
      var ok;
      ghost var state, mid;
      more, ok, state, mid := Round(disks, at, draws, answers, steps, past, base, now);
      results', h' := results, h;
      if more {
        HappenedMore(c, h, results, keys, now, state, mid, Now(disks), ok);
        results' := results + [ok];
        h' := History(h.states + [state], h.mids + [mid], h.trace + [Now(disks)]);
      }
    }

    /** The loop over the rounds. */
    method RunRounds(disks: Driver, at: nat, rounds: nat, draws: nat -> (nat -> Choice), answers: nat -> (nat -> int),
                     activity: nat -> seq<Step>, past: seq<byte>, ghost base: Device, ghost c: Course)
      returns (results: seq<bool>, ghost h: History)
      requires AllDrawable(c.epochs, c.draws) && c.start.disks.Valid()
      requires Progress(disks, base, c, History([], [], [c.start]), [])
      requires |past| == PAGE_SIZE && forall r: nat :: Allowed(|disks.snaps|, activity(r))
      requires at == c.at && draws == c.draws && answers == c.answers && activity == c.activity
      modifies permuter`completed, disks`frames, disks`found, disks.base, disks.snaps, disks.frames
      ensures Progress(disks, base, c, h, results)
      ensures Finished(c, rounds, h, results, permuter.completed, Now(disks))
    {
      results, h := [], History([], [], [c.start]);
      for r := 0 to rounds
        invariant fresh(disks.frames - old(disks.frames)) && |results| == r
        invariant Progress(disks, base, c, h, results)
      {
        var more;
        more, results, h := NextRound(disks, at, draws(r), answers(r), activity(r), past, results, base, c, h);
        if !more {
          return;
        }
      }
    }

    /** Cuts the log and runs the rounds. */
    method CutAndRun(disks: Driver, at: nat, rounds: nat, draws: nat -> (nat -> Choice), answers: nat -> (nat -> int),
                     activity: nat -> seq<Step>, past: seq<byte>, ghost base: Device, ghost now: Moment)
      returns (results: seq<bool>, ghost c: Course, ghost h: History)
      requires Stands(disks, at, base, now) && |past| == PAGE_SIZE
      requires logData != [] && Replayable(logData) && AllDrawable(Cut(logData), draws)
      requires forall r: nat :: Allowed(|disks.snaps|, activity(r))
      modifies permuter, disks`frames, disks`found, disks.base, disks.snaps, disks.frames
      ensures Frozen(disks, at, base)
      ensures c == Course(at, Cut(logData), old(permuter.completed), draws, answers, activity, now)
      ensures Finished(c, rounds, h, results, permuter.completed, Now(disks))
    {
      c := Course(at, Cut(logData), permuter.completed, draws, answers, activity, now);
      StartRounds(disks, base, c);
      results, h := RunRounds(disks, at, rounds, draws, answers, activity, past, base, c);
    }

    /** The rounds. `draws`, `answers` and `activity` stand for the random draws, for how the kernel splits the
        writes, and for what the checks do to the disks, round by round. Rounds end early when no new state is
        found. `results` says of each round whether its state could be written, `h` what became of the disks. */
    method TestCheckRandomPermutations(disks: Driver, at: nat, rounds: nat, draws: nat -> (nat -> Choice),
                                       answers: nat -> (nat -> int), activity: nat -> seq<Step>, past: seq<byte>)
      returns (results: seq<bool>, ghost c: Course, ghost h: History)
      requires Frozen(disks, at, DeviceOf(disks.base)) && |past| == PAGE_SIZE
      requires logData != [] && Replayable(logData) && AllDrawable(Cut(logData), draws)
      requires forall r: nat :: Allowed(|disks.snaps|, activity(r))
      modifies permuter, disks`frames, disks`found, disks.base, disks.snaps, disks.frames
      ensures Frozen(disks, at, old(DeviceOf(disks.base))) && logData == old(logData)
      ensures c == Course(at, Cut(logData), old(permuter.completed), draws, answers, activity, old(Now(disks)))
      ensures Finished(c, rounds, h, results, permuter.completed, Now(disks))
      ensures NonEmpty(c.epochs) && |results| + |c.known * Keys(c.epochs)| <= StateCount(c.epochs)
    {
      results, c, h := CutAndRun(disks, at, rounds, draws, answers, activity, past, DeviceOf(disks.base), Now(disks));
      CutKeyed(logData);
      RoundsBound(c.epochs, c.known, draws, answers, |BaseView(c.start.disks)|, h.states, results);
    }

    /** Freezes the base, mounts a snapshot, records a workload on it, and runs the rounds on the same snapshot. */
    method RecordAndTest(disks: Driver, at: nat, mounted: seq<Bio>, bios: seq<Bio>, rounds: nat,
                         draws: nat -> (nat -> Choice), answers: nat -> (nat -> int), activity: nat -> seq<Step>,
                         past: seq<byte>, ghost s: System)
      returns (results: seq<bool>, ghost c: Course, ghost h: History)
      requires disks.Valid() && at < |disks.snaps| && disks.snaps[at].isWritable && |past| == PAGE_SIZE
      requires s == disks.State()
      requires SECTOR_SIZE * disks.base.capacity < 0x8000_0000_0000_0000
      requires AllFormed(mounted) && AllPlain(bios, disks.base.capacity)
      requires Recorded(bios) != [] && AllDrawable(Cut(Recorded(bios)), draws)
      requires forall r: nat :: Allowed(|disks.snaps|, activity(r))
      modifies this`logData, permuter, disks`frames, disks`found, disks.base, disks.snaps, disks.frames
      ensures Frozen(disks, at, s.base.(writable := false)) && logData == Recorded(bios)
      ensures Prepared(s, c.start.disks, at, mounted, bios)
      ensures c == Course(at, Cut(Recorded(bios)), old(permuter.completed), draws, answers, activity, c.start)
      ensures Finished(c, rounds, h, results, permuter.completed, Now(disks))
    {
      ghost var start;
      logData, start := Prepare(disks, at, mounted, bios, past, s);
      results, c, h := CutAndRun(disks, at, rounds, draws, answers, activity, past, s.base.(writable := false), start);
    }
  }

  /** Makes a base and its snapshots, and sets them up. */
  method MakeDisks(capacity: u64, n: nat, setup: seq<Step>, past: seq<byte>) returns (disks: Driver)
    requires Fresh(capacity, n).Valid() && AllPossible(Fresh(capacity, n), setup) && |past| == PAGE_SIZE
    ensures disks.Valid() && disks.State() == Run(Fresh(capacity, n), setup)
    ensures |disks.snaps| == n && disks.base.capacity == capacity && forall s :: s in disks.snaps ==> s.isWritable
    ensures fresh(disks) && fresh(disks.base) && fresh(disks.frames) && forall s :: s in disks.snaps ==> fresh(s)
  {
    disks := new Driver(capacity, n);
    disks.ServeAll(setup, past);
    forall i | 0 <= i < n
      ensures disks.snaps[i].isWritable
    {
      SnapshotStaysWritable(Fresh(capacity, n), setup, i);
      assert disks.State().snaps[i].writable;
    }
  }

  /** The whole program from its start: makes the disks, sets up the base, and records and tests. */
  method TestFromScratch(capacity: u64, n: nat, setup: seq<Step>, at: nat, mounted: seq<Bio>, bios: seq<Bio>,
                         rounds: nat, draws: nat -> (nat -> Choice), answers: nat -> (nat -> int),
                         activity: nat -> seq<Step>, past: seq<byte>)
    returns (disks: Driver, tester: Tester, results: seq<bool>, ghost c: Course, ghost h: History)
    requires at < n && SECTOR_SIZE * capacity < 0x8000_0000_0000_0000 && |past| == PAGE_SIZE
    requires Fresh(capacity, n).Valid() && AllPossible(Fresh(capacity, n), setup)
    requires AllFormed(mounted) && AllPlain(bios, capacity)
    requires Recorded(bios) != [] && AllDrawable(Cut(Recorded(bios)), draws)
    requires forall r: nat :: Allowed(n, activity(r))
    ensures Prepared(Run(Fresh(capacity, n), setup), c.start.disks, at, mounted, bios)
    ensures c == Course(at, Cut(Recorded(bios)), {}, draws, answers, activity, c.start)
    ensures disks.Valid() && tester.logData == Recorded(bios)
    ensures Finished(c, rounds, h, results, tester.permuter.completed, Now(disks))
  {
    ghost var s := Run(Fresh(capacity, n), setup);
    disks := MakeDisks(capacity, n, setup, past);
    var permuter := new RandomPermuter();
    tester := new Tester(permuter);
    results, c, h := tester.RecordAndTest(disks, at, mounted, bios, rounds, draws, answers, activity, past, s);
  }
}
