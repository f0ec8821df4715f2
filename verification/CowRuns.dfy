/** Whole runs of a base device and its snapshots: any interleaving of requests and control commands. */
module CowRuns {
  import opened DiskOps
  import opened PageTree
  import opened CowBrd

  datatype Device = Device(pages: Tree, writable: bool)

  datatype System = System(capacity: nat, base: Device, snaps: seq<Device>) {
    ghost predicate Valid() {
      Paged(base.pages) && forall i :: 0 <= i < |snaps| ==> Paged(snaps[i].pages)
    }
  }

  /** The devices as they are made: writable, and without pages. */
  function Fresh(capacity: nat, n: nat): (s: System)
    ensures |s.snaps| == n
  {
    System(capacity, Device(map[], true), seq(n, _ => Device(map[], true)))
  }

  datatype Target = Base | Snap(i: nat)

  datatype Step = Request(to: Target, bio: Bio) | Control(to: Target, cmd: Command)

  ghost predicate Possible(s: System, step: Step) {
    && (step.to.Snap? ==> step.to.i < |s.snaps|)
    && (step.Request? ==> step.bio.Formed())
  }

  /** What a control command does to a device. */
  function Controlled(d: Device, isSnapshot: bool, cmd: Command): Device {
    if isSnapshot then
      if cmd == RestoreSnapshot then d.(pages := map[]) else d
    else
      match cmd
      case Snapshot => d.(writable := false)
      case Unsnapshot => d.(writable := true)
      case Wipe => d.(pages := map[])
      case _ => d
  }

  /** One step: it touches its own device only. A snapshot reads through to the base's pages. */
  function Serve(s: System, step: Step): (r: System)
    requires s.Valid() && Possible(s, step)
    ensures r.Valid() && |r.snaps| == |s.snaps| && r.capacity == s.capacity
  {
    match step
    case Request(Base, bio) =>
      s.(base := s.base.(pages := After(s.base.pages, map[], s.base.writable, s.capacity, bio)))
    case Request(Snap(i), bio) =>
      var d := s.snaps[i];
      s.(snaps := s.snaps[i := d.(pages := After(d.pages, s.base.pages, d.writable, s.capacity, bio))])
    case Control(Base, cmd) => s.(base := Controlled(s.base, false, cmd))
    case Control(Snap(i), cmd) => s.(snaps := s.snaps[i := Controlled(s.snaps[i], true, cmd)])
  }

  ghost predicate AllPossible(s: System, steps: seq<Step>) {
    forall k :: 0 <= k < |steps| ==> Possible(s, steps[k])
  }

  ghost function Run(s: System, steps: seq<Step>): (r: System)
    requires s.Valid() && AllPossible(s, steps)
    ensures r.Valid() && |r.snaps| == |s.snaps| && r.capacity == s.capacity
    decreases |steps|
  {
    if steps == [] then s else Run(Serve(s, steps[0]), steps[1..])
  }

  /** What a reader of snapshot `i` sees, and what a reader of the base sees. */
  ghost function SnapView(s: System, i: nat): Image
    requires s.Valid() && i < |s.snaps|
  {
    View(s.snaps[i].pages, s.base.pages, SECTOR_SIZE * s.capacity)
  }

  ghost function BaseView(s: System): Image
    requires s.Valid()
  {
    View(s.base.pages, map[], SECTOR_SIZE * s.capacity)
  }

  /** From `s` to `t` at most the pages of snapshot `i` have changed. */
  ghost predicate OnlyPagesOf(s: System, t: System, i: nat) {
    && s.Valid() && t.Valid() && t.capacity == s.capacity && t.base == s.base && i < |s.snaps| == |t.snaps|
    && t.snaps[i].writable == s.snaps[i].writable
    && forall j :: 0 <= j < |s.snaps| && j != i ==> t.snaps[j] == s.snaps[j]
  }

  /** The step neither thaws nor wipes the base. */
  predicate KeepsFrozen(step: Step) {
    step.Control? && step.to.Base? ==> step.cmd != Unsnapshot && step.cmd != Wipe
  }

  /** Exactly the steps that leave every frozen base as it is. */
  lemma KeepsFrozenIff(step: Step)
    requires step.Request? ==> step.bio.Formed()
    ensures KeepsFrozen(step) <==>
            forall s: System :: s.Valid() && Possible(s, step) && !s.base.writable ==> Serve(s, step).base == s.base
  {
    var s := System(0, Device(map[0 := Zeros(PAGE_SIZE)], false), []);
    assert s.Valid() && 0 in s.base.pages;
    if !KeepsFrozen(step) {
      assert Possible(s, step);
      assert if step.cmd == Wipe then 0 !in Serve(s, step).base.pages else Serve(s, step).base.writable;
    }
  }

  /** What freezing and thawing mean for a request to the base that changes it. */
  lemma FreezeAndThaw(s: System, bio: Bio)
    requires s.Valid() && bio.Formed() && (bio.rw & 0x1 != 0 || bio.rw & 0x80 != 0)
    ensures Serve(Serve(s, Control(Base, Snapshot)), Request(Base, bio)).base.pages == s.base.pages
    ensures Serve(Serve(s, Control(Base, Unsnapshot)), Request(Base, bio)).base.pages
         == After(s.base.pages, map[], true, s.capacity, bio)
  {
    RefusedRequest(s.base.pages, map[], false, s.capacity, bio);
  }

  /** After a wipe the readers of the base see zeros; no other device changes. */
  lemma WipedBase(s: System)
    requires s.Valid()
    ensures BaseView(Serve(s, Control(Base, Wipe))) == Zeros(SECTOR_SIZE * s.capacity)
    ensures Serve(s, Control(Base, Wipe)).snaps == s.snaps
  {
  }

  ghost predicate AllKeepFrozen(steps: seq<Step>) {
    forall k :: 0 <= k < |steps| ==> KeepsFrozen(steps[k])
  }

  /** While the base is frozen, no run of requests and commands changes it. */
  lemma {:induction false} FrozenBase(s: System, steps: seq<Step>)
    requires s.Valid() && AllPossible(s, steps) && AllKeepFrozen(steps) && !s.base.writable
    ensures Run(s, steps).base == s.base
    decreases |steps|
  {
    if steps != [] {
      FrozenBase(Serve(s, steps[0]), steps[1..]);
    }
  }

  /** ... nor a snapshot that none of the steps is addressed to. */
  lemma {:induction false} SiblingKept(s: System, steps: seq<Step>, j: nat)
    requires s.Valid() && AllPossible(s, steps) && AllKeepFrozen(steps) && !s.base.writable && j < |s.snaps|
    requires forall k :: 0 <= k < |steps| ==> steps[k].to != Snap(j)
    ensures Run(s, steps).snaps[j] == s.snaps[j] && SnapView(Run(s, steps), j) == SnapView(s, j)
    decreases |steps|
  {
    FrozenBase(s, steps);
    if steps != [] {
      FrozenBase(s, [steps[0]]);
      SiblingKept(Serve(s, steps[0]), steps[1..], j);
    }
  }

  /** A snapshot stays as writable as it was: no command freezes or thaws it. */
  lemma {:induction false} SnapshotStaysWritable(s: System, steps: seq<Step>, j: nat)
    requires s.Valid() && AllPossible(s, steps) && j < |s.snaps|
    ensures Run(s, steps).snaps[j].writable == s.snaps[j].writable
    decreases |steps|
  {
    if steps != [] {
      SnapshotStaysWritable(Serve(s, steps[0]), steps[1..], j);
    }
  }

  lemma {:induction false} RunAppend(s: System, a: seq<Step>, b: seq<Step>)
    requires s.Valid() && AllPossible(s, a) && AllPossible(s, b)
    ensures AllPossible(s, a + b) && Run(s, a + b) == Run(Run(s, a), b)
    decreases |a|
  {
    if a == [] {
      assert a + b == b;
    } else {
      RunAppend(Serve(s, a[0]), a[1..], b);
      assert (a + b)[1..] == a[1..] + b;
    }
  }

  lemma EmptyShowsParent(parent: Tree, n: nat)
    requires Paged(parent)
    ensures View(map[], parent, n) == View(parent, map[], n)
  {
  }

  /** Whatever happened to a snapshot and its siblings before: right after a restore a reader of the snapshot
      sees the base as it was when the run started. */
  lemma RestoredIsBase(s: System, before: seq<Step>, j: nat)
    requires s.Valid() && AllPossible(s, before) && AllKeepFrozen(before) && !s.base.writable && j < |s.snaps|
    ensures var restore := Control(Snap(j), RestoreSnapshot);
            && AllPossible(s, before + [restore])
            && SnapView(Run(s, before + [restore]), j) == BaseView(s)
  {
    var restore := Control(Snap(j), RestoreSnapshot);
    RunAppend(s, before, [restore]);
    FrozenBase(s, before);
    var mid := Run(s, before);
    assert Run(mid, [restore]) == Serve(mid, restore) by {
      assert [restore][1..] == [];
    }
    EmptyShowsParent(s.base.pages, SECTOR_SIZE * s.capacity);
  }

  /** Without the freeze the promise fails. A request to the base changes byte `a` that a reader of a snapshot sees if
      and only if the base is writable, the request is served and changes byte `a` of the base, and the snapshot holds
      no page there. */
  lemma ThawedBaseShows(s: System, bio: Bio, j: nat, a: nat)
    requires s.Valid() && bio.Formed() && j < |s.snaps|
    ensures var after := Serve(s, Request(Base, bio));
            ByteAt(after.snaps[j].pages, after.base.pages, a) != ByteAt(s.snaps[j].pages, s.base.pages, a) <==>
            && s.base.writable && bio.EndSector() <= s.capacity && (bio.IsWrite() || bio.IsDiscard())
            && ByteAt(after.base.pages, map[], a) != ByteAt(s.base.pages, map[], a)
            && a / PAGE_SIZE !in s.snaps[j].pages
  {
    var after := Serve(s, Request(Base, bio));
    if !s.base.writable || bio.EndSector() > s.capacity || !(bio.IsWrite() || bio.IsDiscard()) {
      assert after.base.pages == s.base.pages;
    }
    assert after.snaps[j] == s.snaps[j];
  }
}
