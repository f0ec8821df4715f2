/** The wrapper's log as a linked list with a read cursor, and the loop that drains it. */
module DiskWrapper {
  import opened DiskOps
  import opened PageTree
  import opened CowBrd
  import opened Finite
  import opened Recorder
  import opened Wrappers

  class LogNode {
    const meta: Meta
    var data: seq<byte>
    var next: LogNode?

    constructor (meta: Meta)
      ensures this.meta == meta && data == [] && next == null
    {
      this.meta, data, next := meta, [], null;
    }
  }

  /** The node at a position of the list; null behind its end. */
  ghost function Nth(nodes: seq<LogNode>, i: nat): LogNode? {
    if i < |nodes| then nodes[i] else null
  }

  /** The nodes are distinct and linked in order; the last one has no successor. */
  ghost predicate Linked(nodes: seq<LogNode>)
    reads nodes
  {
    Distinct(nodes) && forall i :: 0 <= i < |nodes| ==> nodes[i].next == Nth(nodes, i + 1)
  }

  ghost function EntriesOf(nodes: seq<LogNode>): (r: seq<DiskWrite>)
    reads nodes
    ensures |r| == |nodes|
  {
    seq(|nodes|, i requires 0 <= i < |nodes| reads nodes => DiskWrite(nodes[i].meta, nodes[i].data))
  }

  class HwmDevice {
    const target: BrdDevice
    var logOn: bool
    var writes: LogNode?
    var currentWrite: LogNode?
    var currentLogWrite: LogNode?
    ghost var nodes: seq<LogNode>
    ghost var cursor: Option<nat>
    ghost var taken: nat

    /** The nodes from `writes` on are linked in order and end at `currentWrite`; the cursor is null or one of
        them. */
    ghost predicate Valid()
      reads this, nodes
    {
      Linked(nodes) && Pointers()
    }

    ghost predicate Pointers()
      reads this
    {
      && writes == Nth(nodes, 0)
      && currentWrite == (if nodes == [] then null else nodes[|nodes| - 1])
      && currentLogWrite == (if cursor.Some? then Nth(nodes, cursor.value) else null)
      && (cursor.Some? ==> cursor.value < |nodes|)
    }

    ghost function Entries(): (r: seq<DiskWrite>)
      reads this, nodes
      ensures |r| == |nodes|
    {
      EntriesOf(nodes)
    }

    ghost function State(): LogState
      reads this, nodes
    {
      LogState(logOn, Entries(), cursor, taken)
    }

    constructor (target: BrdDevice)
      ensures Valid() && State() == EMPTY_LOG && nodes == [] && this.target == target
    {
      this.target := target;
      logOn, writes, currentWrite, currentLogWrite := false, null, null, null;
      nodes, cursor, taken := [], None, 0;
    }

    /** Hangs a node behind the last one of a list. */
    static method Hang(ghost nodes: seq<LogNode>, last: LogNode?, write: LogNode)
      requires Linked(nodes) && write !in nodes && write.next == null
      requires last == if nodes == [] then null else nodes[|nodes| - 1]
      modifies if last == null then {} else {last}
      ensures Linked(nodes + [write])
      ensures EntriesOf(nodes + [write]) == old(EntriesOf(nodes)) + [DiskWrite(write.meta, write.data)]
    {
      assert EntriesOf(nodes + [write]) == EntriesOf(nodes) + [DiskWrite(write.meta, write.data)];
      if last != null {
        last.next := write;
      }
      assert forall i :: 0 <= i < |nodes| - 1 ==> nodes[i] != last && nodes[i].next == old(nodes[i].next);
    }

    /** Moves the pointers to a node that hangs behind the last one already. */
    method Adopt(write: LogNode)
      requires Pointers() && Linked(nodes + [write])
      modifies this
      ensures Valid() && nodes == old(nodes) + [write] && Entries() == old(EntriesOf(nodes + [write]))
      ensures cursor == (if old(nodes) == [] then Some(0) else old(cursor))
      ensures logOn == old(logOn) && taken == old(taken)
    {
      if currentWrite == null {
        writes := write;
        currentLogWrite := write;
        cursor := Some(0);
      }
      currentWrite := write;
      nodes := nodes + [write];
    }

    /** Links a new entry to the end of the list; an empty list also gets its cursor. */
    method LinkEntry(meta: Meta) returns (write: LogNode)
      requires Valid()
      modifies this, nodes
      ensures Valid() && fresh(write) && nodes == old(nodes) + [write] && write.data == [] && write.meta == meta
      ensures State() == Append(old(State()), DiskWrite(meta, []))
    {
      write := new LogNode(meta);
      Hang(nodes, currentWrite, write);
      Adopt(write);
    }

    /** Copies the segments of a request one behind the other into the buffer of an entry. */
    static method CopySegments(write: LogNode, segs: seq<seq<byte>>)
      requires write.data == []
      modifies write`data
      ensures write.data == Concat(segs)
    {
      assert segs[0..] == segs;
      for i := 0 to |segs|
        invariant write.data + Concat(segs[i..]) == Concat(segs)
      {
        Assoc(write.data, segs[i], Concat(segs[i + 1..]));
        assert segs[i..][1..] == segs[i + 1..];
        write.data := write.data + segs[i];
      }
      assert write.data + [] == write.data;
    }

    /** Fills the buffer of the newest entry. */
    method FillEntry(write: LogNode, segs: seq<seq<byte>>)
      requires Valid() && nodes != [] && nodes[|nodes| - 1] == write && write.data == []
      modifies write`data
      ensures Valid()
      ensures State() == old(State()).(entries := old(Entries())[|nodes| - 1 := DiskWrite(write.meta, Concat(segs))])
    {
      CopySegments(write, segs);
      assert forall i :: 0 <= i < |nodes| - 1 ==> nodes[i] != write && nodes[i].data == old(nodes[i].data);
      assert Entries() == old(Entries())[|nodes| - 1 := DiskWrite(write.meta, Concat(segs))];
    }

    /** Logs a request, if logging is on and it writes, flushes or discards. */
    method LogBio(bio: Bio)
      requires Valid()
      modifies this, nodes
      ensures Valid() && fresh((set n | n in nodes) - old(set n | n in nodes))
      ensures State() == LogStep(old(State()), Submit(bio))
      ensures if old(logOn) && bio.rw & 0x800_1881 != 0 then
                Entries() == old(Entries())
                             + [DiskWrite(Meta(bio.flags, bio.rw, bio.sector, bio.size), Concat(bio.segs))]
              else Entries() == old(Entries())
    {
      LoggableBits(bio);
      if logOn && Loggable(bio) {
        var write := LinkEntry(Meta(bio.flags, bio.rw, bio.sector, bio.size));
        FillEntry(write, bio.segs);
        AppendFilled(old(Entries()), DiskWrite(write.meta, []), Entry(bio));
      }
    }

    /** Logging leaves the target device alone. */
    method LogBesideTarget(bio: Bio)
      requires Valid() && target.Valid()
      modifies this, nodes
      ensures Valid() && fresh((set n | n in nodes) - old(set n | n in nodes))
      ensures State() == LogStep(old(State()), Submit(bio))
      ensures target.Valid() && target.Contents() == old(target.Contents())
      ensures target.ParentContents() == old(target.ParentContents())
    {
      LogBio(bio);
      assert target.Valid();
      assert target.Contents() == old(target.Contents());
    }

    /** Hands a request to the target device; the log stays as it is. */
    method PassOn(bio: Bio, past: seq<byte>) returns (ok: bool, dst: seq<byte>)
      requires Valid() && target.Valid() && bio.Formed() && |past| == PAGE_SIZE
      modifies target, target.pages.Values
      ensures Valid() && State() == old(State()) && nodes == old(nodes)
      ensures target.Valid() && fresh(target.pages.Values - old(target.pages.Values))
      ensures target.isWritable == old(target.isWritable)
      ensures target.ParentContents() == old(target.ParentContents())
      ensures target.Contents()
           == After(old(target.Contents()), target.ParentContents(), target.isWritable, target.capacity, bio)
      ensures ok <==> Admitted(bio, target.isWritable, target.capacity) && (bio.IsDiscard() || bio.segs != [])
      ensures ok && !bio.IsDiscard() && !bio.IsWrite() ==>
                dst == ReadFrom(target.Contents(), target.ParentContents(), bio.sector, bio.segs, 0, past)
    {
      ok, dst := target.MakeRequest(bio, past);
      assert State() == old(State());
    }

    /** The request handler of the wrapper: log, then pass the request on to the target. */
    method SubmitBio(bio: Bio, past: seq<byte>) returns (ok: bool, dst: seq<byte>)
      requires Valid() && target.Valid() && bio.Formed() && |past| == PAGE_SIZE
      modifies this, nodes, target, target.pages.Values
      ensures Valid() && target.Valid()
      ensures fresh((set n | n in nodes) - old(set n | n in nodes))
      ensures fresh(target.pages.Values - old(target.pages.Values)) && target.isWritable == old(target.isWritable)
      ensures State() == LogStep(old(State()), Submit(bio))
      ensures target.ParentContents() == old(target.ParentContents())
      ensures target.Contents()
           == After(old(target.Contents()), target.ParentContents(), target.isWritable, target.capacity, bio)
      ensures ok <==> Admitted(bio, target.isWritable, target.capacity) && (bio.IsDiscard() || bio.segs != [])
      ensures ok && !bio.IsDiscard() && !bio.IsWrite() ==>
                dst == ReadFrom(target.Contents(), target.ParentContents(), bio.sector, bio.segs, 0, past)
    {
      LogBesideTarget(bio);
      ok, dst := PassOn(bio, past);
    }

    method SetLogging(on: bool)
      requires Valid()
      modifies this`logOn
      ensures Valid() && State() == LogStep(old(State()), if on then LogOn else LogOff)
    {
      logOn := on;
    }

    method GetLogMeta() returns (meta: Option<Meta>)
      requires Valid()
      ensures meta == if cursor.Some? then Some(Entries()[cursor.value].meta) else None
    {
      meta := if currentLogWrite == null then None else Some(currentLogWrite.meta);
    }

    method GetLogData() returns (data: Option<seq<byte>>)
      requires Valid()
      ensures data == if cursor.Some? then Some(Entries()[cursor.value].data) else None
    {
      data := if currentLogWrite == null then None else Some(currentLogWrite.data);
    }

    /** Moves on to the next entry; there must be a current one. */
    method NextEnt() returns (ok: bool)
      requires Valid()
      modifies `currentLogWrite, `cursor, `taken
      ensures Valid() && nodes == old(nodes) && (ok <==> old(cursor).Some?)
      ensures State() == LogStep(old(State()), NextEntry)
    {
      if currentLogWrite == null {
        return false;
      }
      ghost var before := State();
      assert currentLogWrite.next == Nth(nodes, cursor.value + 1);
      currentLogWrite := currentLogWrite.next;
      cursor := if cursor.value + 1 < |nodes| then Some(cursor.value + 1) else None;
      taken := taken + 1;
      assert State() == Advance(before) by {
        assert Entries() == before.entries;
      }
      ok := true;
    }

    /** Walks the list to its end, giving up every node, and forgets it. */
    method FreeLogs()
      requires Valid()
      modifies this
      ensures Valid() && nodes == [] && State() == LogStep(old(State()), ClearLog)
    {
      var w := writes;
      ghost var i := 0;
      while w != null
        invariant i <= |nodes| && w == Nth(nodes, i) && i + (if w == null then 0 else 1) <= |nodes|
        decreases |nodes| - i
      {
        w := w.next;
        i := i + 1;
      }
      assert i == |nodes|;
      currentWrite, writes, currentLogWrite := null, null, null;
      nodes, cursor, taken := [], None, 0;
    }
  }

  lemma AppendFilled(entries: seq<DiskWrite>, blank: DiskWrite, full: DiskWrite)
    ensures (entries + [blank])[|entries| := full] == entries + [full]
  {
  }

  /** One turn of the harness's loop: metadata, data, next entry. */
  method TakeEntry(dev: HwmDevice) returns (entry: Option<DiskWrite>)
    requires dev.Valid()
    modifies dev`currentLogWrite, dev`cursor, dev`taken
    ensures dev.Valid() && dev.nodes == old(dev.nodes) && dev.State() == Advance(old(dev.State()))
    ensures entry == if old(dev.cursor).Some? then Some(old(dev.Entries())[old(dev.cursor).value]) else None
  {
    var meta := dev.GetLogMeta();
    if meta.None? {
      return None;
    }
    var data := dev.GetLogData();
    entry := Some(DiskWrite(meta.value, data.value));
    var ok := dev.NextEnt();
  }

  /** The harness's loop: takes entry after entry until the wrapper has no more. */
  method GetWrapperLog(dev: HwmDevice) returns (log: seq<DiskWrite>)
    requires dev.Valid()
    modifies dev`currentLogWrite, dev`cursor, dev`taken
    ensures dev.Valid() && dev.cursor.None? && dev.Entries() == old(dev.Entries())
    ensures log == Undelivered(old(dev.State()))
  {
    log := [];
    var more := true;
    while more
      invariant dev.Valid() && dev.nodes == old(dev.nodes) && dev.Entries() == old(dev.Entries())
      invariant log + Undelivered(dev.State()) == Undelivered(old(dev.State()))
      invariant !more ==> dev.cursor.None?
      decreases Left(dev.State()), more
    {
      ghost var before := dev.State();
      var entry := TakeEntry(dev);
      more := entry.Some?;
      if more {
        DrainStep(before);
        Assoc(log, [entry.value], Undelivered(dev.State()));
        log := log + [entry.value];
      }
    }
  }

  /** Submitting the requests in `todo` leads to the given log and the given pages of the target. */
  ghost predicate Toward(l: LogState, own: Tree, parent: Tree, capacity: nat, todo: seq<Bio>, log: LogState,
                         pages: Tree)
    requires Paged(own) && Paged(parent)
  {
    && (forall i :: 0 <= i < |todo| ==> todo[i].Formed())
    && LogRun(l, Submits(todo)) == log && Served(own, parent, capacity, todo) == pages
  }

  lemma TowardNext(l: LogState, own: Tree, parent: Tree, capacity: nat, todo: seq<Bio>, log: LogState, pages: Tree)
    requires Paged(own) && Paged(parent) && todo != [] && Toward(l, own, parent, capacity, todo, log, pages)
    ensures todo[0].Formed()
    ensures Toward(LogStep(l, Submit(todo[0])), After(own, parent, true, capacity, todo[0]), parent, capacity,
                   todo[1..], log, pages)
  {
    LogRunStep(l, Submit(todo[0]), Submits(todo[1..]));
  }

  ghost predicate LeadsTo(dev: HwmDevice, parent: Tree, todo: seq<Bio>, log: LogState, pages: Tree)
    reads dev, dev.nodes, dev.target, dev.target.pages.Values
    reads if dev.target.parent == null then {} else {dev.target.parent}
    reads if dev.target.parent == null then {} else dev.target.parent.pages.Values
  {
    && dev.Valid() && dev.target.Valid() && dev.target.isWritable && dev.target.ParentContents() == parent
    && Toward(dev.State(), dev.target.Contents(), parent, dev.target.capacity, todo, log, pages)
  }

  /** Submits the first of the requests that are left. */
  method SubmitFirst(dev: HwmDevice, todo: seq<Bio>, past: seq<byte>, ghost parent: Tree, ghost log: LogState,
                     ghost pages: Tree)
    requires todo != [] && LeadsTo(dev, parent, todo, log, pages) && |past| == PAGE_SIZE
    modifies dev, dev.nodes, dev.target, dev.target.pages.Values
    ensures LeadsTo(dev, parent, todo[1..], log, pages)
    ensures fresh((set n | n in dev.nodes) - old(set n | n in dev.nodes))
    ensures fresh(dev.target.pages.Values - old(dev.target.pages.Values))
  {
    TowardNext(dev.State(), dev.target.Contents(), parent, dev.target.capacity, todo, log, pages);
    var ok, dst := dev.SubmitBio(todo[0], past);
  }

  /** Submits a whole run of requests. */
  method SubmitAll(dev: HwmDevice, bios: seq<Bio>, past: seq<byte>)
    requires dev.Valid() && dev.target.Valid() && dev.target.isWritable && |past| == PAGE_SIZE
    requires forall i :: 0 <= i < |bios| ==> bios[i].Formed()
    modifies dev, dev.nodes, dev.target, dev.target.pages.Values
    ensures dev.Valid() && dev.target.Valid() && dev.target.isWritable
    ensures fresh((set n | n in dev.nodes) - old(set n | n in dev.nodes))
    ensures fresh(dev.target.pages.Values - old(dev.target.pages.Values))
    ensures dev.State() == LogRun(old(dev.State()), Submits(bios))
    ensures dev.target.ParentContents() == old(dev.target.ParentContents())
    ensures dev.target.Contents()
         == Served(old(dev.target.Contents()), old(dev.target.ParentContents()), dev.target.capacity, bios)
  {
    ghost var parent := dev.target.ParentContents();
    ghost var log := LogRun(dev.State(), Submits(bios));
    ghost var pages := Served(dev.target.Contents(), parent, dev.target.capacity, bios);
    var todo := bios;
    while todo != []
      invariant LeadsTo(dev, parent, todo, log, pages)
      invariant fresh((set n | n in dev.nodes) - old(set n | n in dev.nodes))
      invariant fresh(dev.target.pages.Values - old(dev.target.pages.Values))
      decreases |todo|
    {
      SubmitFirst(dev, todo, past, parent, log, pages);
      todo := todo[1..];
    }
  }

  ghost function Left(l: LogState): nat {
    |Undelivered(l)|
  }

  lemma DrainStep(l: LogState)
    requires l.cursor.Some? && l.cursor.value < |l.entries|
    ensures Undelivered(l) == [l.entries[l.cursor.value]] + Undelivered(Advance(l))
  {
  }
}
