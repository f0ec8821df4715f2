/** The driver's device objects together: a base device and its snapshots. Serving a step on them is one step of
    the runs that are reasoned about as values. */
module CowDriver {
  import opened DiskOps
  import opened PageTree
  import opened CowBrd
  import opened CowRuns

  /** Pages of different devices are different pages. */
  lemma PagesApart(a: BrdDevice, b: BrdDevice)
    requires a.Own() && b.Own() && a != b
    ensures a.pages.Values !! b.pages.Values
  {
  }

  /** The pages of a device lie on it, and page indices fit into a machine word. */
  ghost predicate Bounded(dev: BrdDevice)
    reads dev, dev.pages.Values
  {
    dev.Own() && dev.capacity < 0x1_0000_0000_0000_0000 && InRange(dev.Contents(), dev.capacity)
  }

  lemma IndicesFit(dev: BrdDevice)
    requires Bounded(dev)
    ensures forall k :: k in dev.pages ==> k < 0xffff_ffff_ffff_ffff
  {
    forall k | k in dev.pages ensures k < 0xffff_ffff_ffff_ffff {
      assert k in dev.Contents();
    }
  }

  ghost function DeviceOf(dev: BrdDevice): Device
    reads dev, dev.pages.Values
  {
    Device(dev.Contents(), dev.isWritable)
  }

  class Driver {
    const base: BrdDevice
    const snaps: seq<BrdDevice>

    /** All pages that the devices may hold. */
    ghost var frames: set<Page>

    /** What readers of a snapshot saw at the times that were noted. */
    ghost var found: seq<Image>

    ghost predicate Valid()
      reads this, base, snaps, frames
    {
      Framed() && Intact()
    }

    ghost predicate Framed()
      reads this, base, snaps
    {
      base.pages.Values <= frames && forall i :: 0 <= i < |snaps| ==> snaps[i].pages.Values <= frames
    }

    ghost function SnapPages(): set<Page>
      reads snaps
    {
      set s, p | s in snaps && p in s.pages.Values :: p
    }

    /** A base device and distinct snapshots of it. */
    ghost predicate Intact()
      reads base, base.pages.Values, snaps, SnapPages()
    {
      && Bounded(base) && !base.isSnapshot && base.parent == null
      && (forall i :: 0 <= i < |snaps| ==> IsSnapshot(snaps[i]))
      && (forall i, j :: 0 <= i < j < |snaps| ==> snaps[i] != snaps[j])
    }

    ghost predicate IsSnapshot(s: BrdDevice)
      reads s, s.pages.Values
    {
      Bounded(s) && s.isSnapshot && s.parent == base && s != base && s.capacity == base.capacity
    }

    ghost function State(): (r: System)
      requires Intact()
      reads base, base.pages.Values, snaps, SnapPages()
      ensures |r.snaps| == |snaps| && r.capacity == base.capacity && r.Valid()
    {
      System(base.capacity, DeviceOf(base),
             seq(|snaps|, i requires 0 <= i < |snaps| reads snaps, SnapPages() => DeviceOf(snaps[i])))
    }

    /** The base and as many snapshots of it as asked for. */
    constructor (capacity: u64, n: nat)
      ensures Valid() && |snaps| == n && base.capacity == capacity && base.isWritable
      ensures fresh(base) && (forall s :: s in snaps ==> fresh(s)) && base.pages == map[] && frames == {}
      ensures found == [] && (forall s :: s in snaps ==> s.isWritable) && State() == CowRuns.Fresh(capacity, n)
    {
      var disk := new BrdDevice(null, capacity);
      var made: seq<BrdDevice> := [];
      while |made| < n
        invariant |made| <= n && fresh(disk) && disk.pages == map[] && disk.capacity == capacity && disk.isWritable
        invariant disk.parent == null && !disk.isSnapshot
        invariant forall s :: s in made ==> fresh(s) && s != disk && s.parent == disk && s.isSnapshot && s.isWritable
        invariant forall s :: s in made ==> s.capacity == capacity && s.pages == map[]
        invariant forall k, l :: 0 <= k < l < |made| ==> made[k] != made[l]
      {
        var snap := new BrdDevice(disk, capacity);
        made := made + [snap];
      }
      base, snaps, frames, found := disk, made, {}, [];
    }

    /** The other devices keep their pages while a snapshot is changed. */
    lemma Apart(i: nat)
      requires Intact() && i < |snaps|
      ensures base.pages.Values !! snaps[i].pages.Values
      ensures forall j :: 0 <= j < |snaps| && j != i ==> snaps[j].pages.Values !! snaps[i].pages.Values
    {
      PagesApart(base, snaps[i]);
      forall j | 0 <= j < |snaps| && j != i
        ensures snaps[j].pages.Values !! snaps[i].pages.Values
      {
        PagesApart(snaps[j], snaps[i]);
      }
    }

    /** A request to one snapshot leaves the base and the other snapshots alone. */
    method SnapRequest(i: nat, bio: Bio, past: seq<byte>) returns (ok: bool, dst: seq<byte>)
      requires Intact() && i < |snaps| && bio.Formed() && |past| == PAGE_SIZE
      modifies snaps[i], snaps[i].pages.Values
      ensures Intact() && fresh(snaps[i].pages.Values - old(snaps[i].pages.Values))
      ensures State() == CowRuns.Serve(old(State()), Request(Snap(i), bio))
    {
      var dev := snaps[i];
      Apart(i);
      AfterInRange(dev.Contents(), base.Contents(), dev.isWritable, base.capacity, bio);
      ok, dst := dev.MakeRequest(bio, past);
      assert DeviceOf(base) == old(DeviceOf(base)) && Bounded(base);
      forall j | 0 <= j < |snaps| && j != i
        ensures DeviceOf(snaps[j]) == old(DeviceOf(snaps[j])) && IsSnapshot(snaps[j])
      {
        assert old(IsSnapshot(snaps[j]));
      }
    }

    /** A request to the base leaves the pages of the snapshots alone. */
    method BaseRequest(bio: Bio, past: seq<byte>) returns (ok: bool, dst: seq<byte>)
      requires Intact() && bio.Formed() && |past| == PAGE_SIZE
      modifies base, base.pages.Values
      ensures Intact() && fresh(base.pages.Values - old(base.pages.Values))
      ensures State() == CowRuns.Serve(old(State()), Request(Base, bio))
    {
      forall j | 0 <= j < |snaps|
        ensures snaps[j].pages.Values !! base.pages.Values
      {
        PagesApart(snaps[j], base);
      }
      AfterInRange(base.Contents(), map[], base.isWritable, base.capacity, bio);
      ok, dst := base.MakeRequest(bio, past);
      forall j | 0 <= j < |snaps|
        ensures DeviceOf(snaps[j]) == old(DeviceOf(snaps[j])) && IsSnapshot(snaps[j])
      {
        assert old(IsSnapshot(snaps[j]));
      }
    }

    /** Notes what a reader of a snapshot sees. */
    ghost method Note(i: nat)
      requires Valid() && i < |snaps|
      modifies this`found
      ensures Valid() && State() == old(State()) && found == old(found) + [SnapView(State(), i)]
    {
      found := found + [SnapView(State(), i)];
    }

    /** Takes the pages that a device has got since into the frames. */
    ghost method Frame(dev: BrdDevice, before: set<Page>)
      requires Intact() && (dev == base || dev in snaps) && before <= frames
      requires dev != base ==> base.pages.Values <= frames
      requires forall i :: 0 <= i < |snaps| && snaps[i] != dev ==> snaps[i].pages.Values <= frames
      modifies this`frames
      ensures Valid() && frames == old(frames) + (dev.pages.Values - before)
    {
      frames := frames + (dev.pages.Values - before);
    }

    method Control(dev: BrdDevice, cmd: Command) returns (ok: bool)
      requires Valid() && (dev == base || dev in snaps)
      modifies dev
      ensures Valid() && dev.pages.Values <= old(dev.pages.Values)
      ensures DeviceOf(dev) == Controlled(old(DeviceOf(dev)), dev.isSnapshot, cmd)
      ensures dev != base ==> DeviceOf(base) == old(DeviceOf(base))
      ensures forall j :: 0 <= j < |snaps| && snaps[j] != dev ==> DeviceOf(snaps[j]) == old(DeviceOf(snaps[j]))
    {
      assert dev != base ==> IsSnapshot(dev);
      IndicesFit(dev);
      ok := dev.Ioctl(cmd);
      assert dev != base ==> DeviceOf(base) == old(DeviceOf(base)) && Bounded(base);
      forall j | 0 <= j < |snaps| && snaps[j] != dev
        ensures DeviceOf(snaps[j]) == old(DeviceOf(snaps[j])) && IsSnapshot(snaps[j])
      {
        assert old(IsSnapshot(snaps[j]));
      }
    }

    method SubmitBase(bio: Bio, past: seq<byte>)
      requires Valid() && bio.Formed() && |past| == PAGE_SIZE
      modifies this`frames, base, base.pages.Values
      ensures Valid() && fresh(frames - old(frames))
      ensures State() == CowRuns.Serve(old(State()), Request(Base, bio))
    {
      ghost var before := base.pages.Values;
      var ok, dst := BaseRequest(bio, past);
      Frame(base, before);
    }

    method SubmitSnap(i: nat, bio: Bio, past: seq<byte>)
      requires Valid() && i < |snaps| && bio.Formed() && |past| == PAGE_SIZE
      modifies this`frames, snaps[i], snaps[i].pages.Values
      ensures Valid() && fresh(frames - old(frames))
      ensures State() == CowRuns.Serve(old(State()), Request(Snap(i), bio))
    {
      ghost var before := snaps[i].pages.Values;
      var ok, dst := SnapRequest(i, bio, past);
      Frame(snaps[i], before);
    }

    /** Serves one request or control command of a run. */
    method Serve(step: Step, past: seq<byte>)
      requires Valid() && Possible(State(), step) && |past| == PAGE_SIZE
      modifies this`frames, base, snaps, frames
      ensures Valid() && fresh(frames - old(frames))
      ensures State() == CowRuns.Serve(old(State()), step)
    {
      match step {
        case Request(Base, bio) =>
          SubmitBase(bio, past);
        case Request(Snap(i), bio) =>
          SubmitSnap(i, bio, past);
        case Control(to, cmd) =>
          var ok := Control(if to == Base then base else snaps[to.i], cmd);
          assert State() == CowRuns.Serve(old(State()), step);
      }
    }

    /** Serving the steps that are left leads to `goal`. */
    ghost predicate LeadsTo(rest: seq<Step>, goal: System)
      reads this, base, snaps, frames
    {
      Valid() && AllPossible(State(), rest) && Run(State(), rest) == goal
    }

    /** Serves the first of the steps that are left. */
    method ServeFirst(rest: seq<Step>, past: seq<byte>, ghost goal: System)
      requires rest != [] && LeadsTo(rest, goal) && |past| == PAGE_SIZE
      modifies this`frames, base, snaps, frames
      ensures LeadsTo(rest[1..], goal) && fresh(frames - old(frames))
    {
      Serve(rest[0], past);
    }

    /** Serves a whole run. */
    method ServeAll(steps: seq<Step>, past: seq<byte>)
      requires Valid() && AllPossible(State(), steps) && |past| == PAGE_SIZE
      modifies this`frames, base, snaps, frames
      ensures Valid() && fresh(frames - old(frames))
      ensures State() == Run(old(State()), steps)
    {
      ghost var goal := Run(State(), steps);
      var rest := steps;
      while rest != []
        invariant LeadsTo(rest, goal) && fresh(frames - old(frames))
        decreases |rest|
      {
        ServeFirst(rest, past, goal);
        rest := rest[1..];
      }
    }
  }
}
