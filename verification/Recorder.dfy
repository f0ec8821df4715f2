/** The device wrapper: it logs the requests that change or flush the disk, hands them on to the target
    device, and gives the log to user space entry by entry. */
module Recorder {
  import opened DiskOps
  import opened Finite
  import opened PageTree
  import opened Segments
  import opened Wrappers

  /** What the log of the wrapper holds, and the entry that user space gets next. `taken` counts the entries
      passed since the last clear; the wrapper itself does not keep it. */
  datatype LogState = LogState(on: bool, entries: seq<DiskWrite>, cursor: Option<nat>, taken: nat)

  const EMPTY_LOG := LogState(false, [], None, 0)

  predicate Loggable(bio: Bio) {
    Has(bio.rw, REQ_FLUSH) || Has(bio.rw, REQ_FUA) || Has(bio.rw, REQ_FLUSH_SEQ) || Has(bio.rw, REQ_WRITE)
    || Has(bio.rw, REQ_DISCARD)
  }

  function Entry(bio: Bio): DiskWrite {
    DiskWrite(Meta(bio.flags, bio.rw, bio.sector, bio.size), Concat(bio.segs))
  }

  /** What is logged, bit by bit: writes, flushes of either kind, FUA and discards. A flush needs no write flag. */
  lemma LoggableBits(bio: Bio)
    ensures Loggable(bio) <==> bio.rw & 0x800_1881 != 0
  {
    LogMask(bio.rw);
  }

  lemma LogMask(w: bv64)
    ensures w & 0x800_1881 != 0 <==>
            w & 0x1000 != 0 || w & 0x800 != 0 || w & 0x800_0000 != 0 || w & 0x1 != 0 || w & 0x80 != 0
  {
  }

  /** The entry carries the request's own words, so every flag that the request carries and no other; it is a barrier or
      a split operation exactly if the request's bits say so. */
  lemma EntryKeepsFlags(bio: Bio)
    ensures Entry(bio).meta.biRw == bio.rw && Entry(bio).meta.biFlags == bio.flags
    ensures Entry(bio).IsBarrierWrite() <==> BarrierBits(bio.rw)
    ensures Entry(bio).IsSplit() <==> SplitBits(bio.rw)
  {
    FlagWords(Entry(bio));
  }

  datatype Event = Submit(bio: Bio) | LogOn | LogOff | NextEntry | ClearLog

  function Append(l: LogState, op: DiskWrite): LogState {
    l.(entries := l.entries + [op], cursor := if l.entries == [] then Some(0) else l.cursor)
  }

  function Advance(l: LogState): LogState {
    if l.cursor.None? then l
    else l.(cursor := if l.cursor.value + 1 < |l.entries| then Some(l.cursor.value + 1) else None, taken := l.taken + 1)
  }

  function LogStep(l: LogState, e: Event): LogState {
    match e
    case Submit(bio) => if l.on && Loggable(bio) then Append(l, Entry(bio)) else l
    case LogOn => l.(on := true)
    case LogOff => l.(on := false)
    case NextEntry => Advance(l)
    case ClearLog => LogState(l.on, [], None, 0)
  }

  function LogRun(l: LogState, events: seq<Event>): LogState
    decreases |events|
  {
    if events == [] then l else LogRun(LogStep(l, events[0]), events[1..])
  }

  /** While logging is off nothing is logged, whatever is submitted; when it is on, exactly what carries one of the
      flags. */
  lemma SwitchedLog(l: LogState, bio: Bio)
    ensures LogStep(LogStep(l, LogOff), Submit(bio)).entries == l.entries
    ensures LogStep(LogStep(l, LogOn), Submit(bio)).entries
         == l.entries + if bio.rw & 0x800_1881 != 0 then [Entry(bio)] else []
  {
    LoggableBits(bio);
  }

  /** What reading entry after entry still delivers. */
  function Undelivered(l: LogState): seq<DiskWrite> {
    if l.cursor.Some? && l.cursor.value <= |l.entries| then l.entries[l.cursor.value..] else []
  }

  // ---------------------------------------------------------------- the log over whole runs

  predicate Consistent(l: LogState) {
    && l.taken <= |l.entries|
    && (l.cursor.Some? ==> l.cursor.value == l.taken < |l.entries|)
    && (l.entries != [] && l.cursor.None? ==> l.taken > 0)
  }

  lemma {:induction false} ConsistentRun(l: LogState, events: seq<Event>)
    requires Consistent(l)
    ensures Consistent(LogRun(l, events))
    decreases |events|
  {
    if events != [] {
      ConsistentRun(LogStep(l, events[0]), events[1..]);
    }
  }

  /** Event `k` logs a request after the last entry logged since the last clear has been passed, and the log is not
      cleared again. */
  ghost predicate StallsAt(events: seq<Event>, k: nat)
    requires k < |events|
  {
    var l := LogRun(EMPTY_LOG, events[..k]);
    && events[k].Submit? && l.on && Loggable(events[k].bio)
    && l.entries != [] && l.taken == |l.entries|
    && forall m :: k < m < |events| ==> events[m] != ClearLog
  }

  ghost predicate Stalls(events: seq<Event>) {
    exists k :: 0 <= k < |events| && StallsAt(events, k)
  }

  /** One more event leaves an earlier stall as it was, unless it clears the log. */
  lemma StallsMore(front: seq<Event>, e: Event)
    ensures Stalls(front + [e]) <==> StallsAt(front + [e], |front|) || (e != ClearLog && Stalls(front))
  {
    var all := front + [e];
    assert all[|front|] == e;
    forall k | 0 <= k < |front|
      ensures StallsAt(all, k) <==> e != ClearLog && StallsAt(front, k)
    {
      assert all[..k] == front[..k] && all[k] == front[k];
      assert forall m :: k < m < |front| ==> all[m] == front[m];
    }
  }

  lemma LogRunLast(l: LogState, front: seq<Event>, e: Event)
    ensures LogRun(l, front + [e]) == LogStep(LogRun(l, front), e)
  {
    LogRunAppend(l, front, [e]);
    LogRunStep(LogRun(l, front), e, []);
    assert [e] + [] == [e];
  }

  /** The cursor is off the list in front of entries not passed yet exactly after a stall. */
  lemma {:induction false} StalledIff(events: seq<Event>)
    ensures var l := LogRun(EMPTY_LOG, events);
            Consistent(l) && (Stalls(events) <==> l.cursor.None? && l.taken < |l.entries|)
    decreases |events|
  {
    ConsistentRun(EMPTY_LOG, events);
    if events != [] {
      var front, e := events[..|events| - 1], events[|events| - 1];
      assert events == front + [e];
      StalledIff(front);
      StallsMore(front, e);
      LogRunLast(EMPTY_LOG, front, e);
      assert (front + [e])[..|front|] == front;
    }
  }

  /** Over every run from an empty log on: reading delivers exactly the entries not passed yet if and only if, since the
      last clear, no request was logged after the last entry had been passed. */
  lemma DeliversIff(events: seq<Event>)
    ensures var l := LogRun(EMPTY_LOG, events);
            l.taken <= |l.entries| && (Undelivered(l) == l.entries[l.taken..] <==> !Stalls(events))
  {
    StalledIff(events);
    var l := LogRun(EMPTY_LOG, events);
    if l.cursor.None? && l.taken < |l.entries| {
      assert |l.entries[l.taken..]| > 0;
    }
  }

  /** Such a run: log a request, pass its entry, log another. */
  lemma StalledCursor(a: Bio, b: Bio)
    requires Loggable(a) && Loggable(b)
    ensures var l := LogRun(EMPTY_LOG, [LogOn, Submit(a), NextEntry, Submit(b)]);
            l.entries == [Entry(a), Entry(b)] && l.taken == 1 && Undelivered(l) == []
  {
    LogRunStep(EMPTY_LOG, LogOn, [Submit(a), NextEntry, Submit(b)]);
    LogRunStep(LogState(true, [], None, 0), Submit(a), [NextEntry, Submit(b)]);
    LogRunStep(LogState(true, [Entry(a)], Some(0), 0), NextEntry, [Submit(b)]);
    LogRunStep(LogState(true, [Entry(a)], None, 1), Submit(b), []);
    assert [LogOn, Submit(a), NextEntry, Submit(b)] == [LogOn] + [Submit(a), NextEntry, Submit(b)];
    assert [Submit(a), NextEntry, Submit(b)] == [Submit(a)] + [NextEntry, Submit(b)];
    assert [NextEntry, Submit(b)] == [NextEntry] + [Submit(b)] && [Submit(b)] == [Submit(b)] + [];
    assert LogStep(LogState(true, [], None, 0), Submit(a)) == LogState(true, [Entry(a)], Some(0), 0);
    assert LogStep(LogState(true, [Entry(a)], None, 1), Submit(b)) == LogState(true, [Entry(a), Entry(b)], None, 1);
  }

  lemma LogRunStep(l: LogState, e: Event, rest: seq<Event>)
    ensures LogRun(l, [e] + rest) == LogRun(LogStep(l, e), rest)
  {
    assert ([e] + rest)[1..] == rest;
  }

  /** What should have been logged: the loggable requests submitted while logging was on. */
  function Expected(on: bool, events: seq<Event>): seq<DiskWrite>
    decreases |events|
  {
    if events == [] then []
    else
      match events[0]
      case Submit(bio) => (if on && Loggable(bio) then [Entry(bio)] else []) + Expected(on, events[1..])
      case LogOn => Expected(true, events[1..])
      case LogOff => Expected(false, events[1..])
      case _ => Expected(on, events[1..])
  }

  ghost predicate OnlyLogging(events: seq<Event>) {
    forall k :: 0 <= k < |events| ==> events[k] != NextEntry && events[k] != ClearLog
  }

  lemma {:induction false} LogsInOrder(l: LogState, events: seq<Event>)
    requires OnlyLogging(events) && l.taken == 0 && l.cursor == (if l.entries == [] then None else Some(0))
    ensures var r := LogRun(l, events);
            && r.entries == l.entries + Expected(l.on, events)
            && r.taken == 0 && r.cursor == (if r.entries == [] then None else Some(0))
    decreases |events|
  {
    if events != [] {
      var next := LogStep(l, events[0]);
      LogsInOrder(next, events[1..]);
      if events[0].Submit? && l.on && Loggable(events[0].bio) {
        Assoc(l.entries, [Entry(events[0].bio)], Expected(l.on, events[1..]));
      }
    }
  }

  lemma {:induction false} LogRunAppend(l: LogState, a: seq<Event>, b: seq<Event>)
    ensures LogRun(l, a + b) == LogRun(LogRun(l, a), b)
    decreases |a|
  {
    if a == [] {
      assert a + b == b;
    } else {
      LogRunAppend(LogStep(l, a[0]), a[1..], b);
      assert (a + b)[1..] == a[1..] + b;
    }
  }

  /** Whatever happened before the last clear: as long as no entry has been passed since, reading the log
      delivers exactly the requests logged since then, in order. */
  lemma FifoSinceClear(before: seq<Event>, since: seq<Event>)
    requires OnlyLogging(since)
    ensures var l := LogRun(EMPTY_LOG, before + [ClearLog] + since);
            Undelivered(l) == Expected(LogRun(EMPTY_LOG, before).on, since)
  {
    var mid := LogRun(EMPTY_LOG, before);
    var cleared := LogStep(mid, ClearLog);
    LogRunAppend(EMPTY_LOG, before + [ClearLog], since);
    LogRunAppend(EMPTY_LOG, before, [ClearLog]);
    assert LogRun(mid, [ClearLog]) == cleared by { assert [ClearLog][1..] == []; }
    LogsInOrder(cleared, since);
  }

  // ---------------------------------------------------------------- fidelity

  function Recorded(bios: seq<Bio>): seq<DiskWrite> {
    if bios == [] then []
    else (if Loggable(bios[0]) then [Entry(bios[0])] else []) + Recorded(bios[1..])
  }

  /** The barriers of a log, and the requests that carry the bits of one. */
  function Barriers(log: seq<DiskWrite>): seq<DiskWrite> {
    if log == [] then [] else (if log[0].IsBarrierWrite() then [log[0]] else []) + Barriers(log[1..])
  }

  function BarrierRequests(bios: seq<Bio>): seq<Bio> {
    if bios == [] then [] else (if BarrierBits(bios[0].rw) then [bios[0]] else []) + BarrierRequests(bios[1..])
  }

  lemma BarriersCons(op: DiskWrite, log: seq<DiskWrite>)
    ensures Barriers([op] + log) == (if op.IsBarrierWrite() then [op] else []) + Barriers(log)
  {
    assert ([op] + log)[1..] == log;
  }

  /** The barriers of a recorded log are exactly the requests that carry the bits of one, in their order, each with the
      flags, the place and the bytes of its request. */
  lemma {:induction false} RecordedBarriers(bios: seq<Bio>)
    ensures var (found, asked) := (Barriers(Recorded(bios)), BarrierRequests(bios));
            |found| == |asked|
            && forall i :: 0 <= i < |asked| ==>
                 found[i] == DiskWrite(Meta(asked[i].flags, asked[i].rw, asked[i].sector, asked[i].size),
                                       Concat(asked[i].segs))
  {
    if bios != [] {
      RecordedBarriers(bios[1..]);
      FirstBarrier(bios);
    }
  }

  lemma FirstBarrier(bios: seq<Bio>)
    requires bios != []
    ensures Barriers(Recorded(bios))
         == (if BarrierBits(bios[0].rw) then [Entry(bios[0])] else []) + Barriers(Recorded(bios[1..]))
  {
    var rest := Recorded(bios[1..]);
    EntryKeepsFlags(bios[0]);
    LoggableBits(bios[0]);
    BarrierIsLogged(bios[0].rw);
    if Loggable(bios[0]) {
      assert Recorded(bios) == [Entry(bios[0])] + rest;
      BarriersCons(Entry(bios[0]), rest);
    } else {
      assert Recorded(bios) == rest;
    }
  }

  lemma BarrierIsLogged(w: bv64)
    ensures BarrierBits(w) ==> w & 0x800_1881 != 0
  {
  }

  function Submits(bios: seq<Bio>): seq<Event> {
    if bios == [] then [] else [Submit(bios[0])] + Submits(bios[1..])
  }

  lemma {:induction false} SubmitsExpected(bios: seq<Bio>)
    ensures OnlyLogging(Submits(bios)) && Expected(true, Submits(bios)) == Recorded(bios)
  {
    if bios != [] { SubmitsExpected(bios[1..]); }
  }

  /** Submitting requests to an empty log that is switched on logs the loggable ones in order. */
  lemma RecordedRun(bios: seq<Bio>)
    ensures var l := LogRun(LogState(true, [], None, 0), Submits(bios));
            l.entries == Recorded(bios) && l.taken == 0 && Undelivered(l.(on := false)) == Recorded(bios)
  {
    SubmitsExpected(bios);
    LogsInOrder(LogState(true, [], None, 0), Submits(bios));
  }

  /** The target's pages after a run of requests. */
  function Served(own: Tree, parent: Tree, capacity: nat, bios: seq<Bio>): (r: Tree)
    requires Paged(own) && Paged(parent) && forall i :: 0 <= i < |bios| ==> bios[i].Formed()
    ensures Paged(r)
    decreases |bios|
  {
    if bios == [] then own else Served(After(own, parent, true, capacity, bios[0]), parent, capacity, bios[1..])
  }

  /** A request for a range of the disk, and no discard. */
  ghost predicate Plain(bio: Bio, capacity: nat) {
    bio.Formed() && !bio.IsDiscard() && bio.EndSector() <= capacity
  }

  /** ... that is: whole sectors in segments of at most a page, as many bytes as the request says, no discard flag, and
      an end that lies on the disk. */
  lemma PlainBits(bio: Bio, capacity: nat)
    ensures Plain(bio, capacity) <==>
            && (forall i :: 0 <= i < |bio.segs| ==> |bio.segs[i]| <= 4096 && |bio.segs[i]| % 512 == 0)
            && bio.size % 512 == 0 && bio.size == |Concat(bio.segs)| && bio.rw & 0x80 == 0
            && bio.sector + bio.size / 512 <= capacity
  {
    AdmittedBits(bio, true, capacity);
  }

  ghost predicate AllPlain(bios: seq<Bio>, capacity: nat) {
    forall i :: 0 <= i < |bios| ==> Plain(bios[i], capacity)
  }

  /** The segments of all writes of a run, in order. */
  function WritesOf(bios: seq<Bio>): seq<Piece> {
    if bios == [] then []
    else (if bios[0].IsWrite() then Pieces(bios[0].sector, bios[0].segs) else []) + WritesOf(bios[1..])
  }

  lemma {:induction false} WritesWithin(bios: seq<Bio>, capacity: nat)
    requires AllPlain(bios, capacity)
    ensures Within(WritesOf(bios), SECTOR_SIZE * capacity)
    decreases |bios|
  {
    if bios != [] {
      WritesWithin(bios[1..], capacity);
      BioWithin(bios[0], capacity);
    }
  }

  lemma BioWithin(bio: Bio, capacity: nat)
    requires Plain(bio, capacity)
    ensures Within(Pieces(bio.sector, bio.segs), SECTOR_SIZE * capacity)
  {
    BioStretch(bio, capacity);
    OverlayAdjacent(Zeros(SECTOR_SIZE * capacity), SECTOR_SIZE * bio.sector, Pieces(bio.sector, bio.segs));
  }

  /** Serving a run is writing all its segments one by one. */
  lemma {:induction false} ServedPieces(own: Tree, parent: Tree, capacity: nat, bios: seq<Bio>)
    requires Paged(own) && Paged(parent) && AllPlain(bios, capacity)
    ensures Small(WritesOf(bios))
    ensures Served(own, parent, capacity, bios) == WritePieces(own, parent, WritesOf(bios))
    decreases |bios|
  {
    if bios != [] {
      var first, rest := Pieces(bios[0].sector, bios[0].segs), WritesOf(bios[1..]);
      BioWithin(bios[0], capacity);
      ServedPieces(After(own, parent, true, capacity, bios[0]), parent, capacity, bios[1..]);
      if bios[0].IsWrite() {
        WritePiecesAppend(own, parent, first, rest);
      } else {
        assert WritesOf(bios) == rest;
      }
    }
  }

  lemma EntryFits(bio: Bio, capacity: nat)
    requires Plain(bio, capacity)
    ensures Fits(Entry(bio), SECTOR_SIZE * capacity)
    ensures !Loggable(bio) ==> !bio.IsWrite()
    ensures SECTOR_SIZE * bio.sector + bio.size <= SECTOR_SIZE * capacity
  {
    assert SECTOR_SIZE * (bio.size / SECTOR_SIZE) == bio.size;
  }

  lemma {:induction false} RecordedFits(bios: seq<Bio>, capacity: nat)
    requires AllPlain(bios, capacity)
    ensures AllFit(Recorded(bios), SECTOR_SIZE * capacity)
    decreases |bios|
  {
    if bios != [] {
      RecordedFits(bios[1..], capacity);
      EntryFits(bios[0], capacity);
    }
  }

  /** One entry replays to what its segments do to a flat disk. */
  lemma EntryOverlay(img: Image, bio: Bio, capacity: nat)
    requires Plain(bio, capacity) && |img| == SECTOR_SIZE * capacity && bio.IsWrite()
    ensures Fits(Entry(bio), |img|) && Within(Pieces(bio.sector, bio.segs), |img|)
    ensures Apply(img, Entry(bio)) == Overlay(img, Pieces(bio.sector, bio.segs))
  {
    EntryFits(bio, capacity);
    BioStretch(bio, capacity);
    OverlayAdjacent(img, SECTOR_SIZE * bio.sector, Pieces(bio.sector, bio.segs));
    SpliceNothing(img, SECTOR_SIZE * bio.sector);
  }

  /** The recorded entries replay to what the segments of the run do to a flat disk. */
  lemma {:induction false} ReplayOverlay(img: Image, capacity: nat, bios: seq<Bio>)
    requires AllPlain(bios, capacity) && |img| == SECTOR_SIZE * capacity
    ensures AllFit(Recorded(bios), |img|) && Within(WritesOf(bios), |img|)
    ensures Replay(img, Recorded(bios)) == Overlay(img, WritesOf(bios))
    decreases |bios|
  {
    RecordedFits(bios, capacity);
    WritesWithin(bios, capacity);
    if bios != [] {
      ReplayHead(img, capacity, bios);
      if bios[0].IsWrite() {
        EntryOverlay(img, bios[0], capacity);
        ReplayOverlay(Apply(img, Entry(bios[0])), capacity, bios[1..]);
        OverlayAppend(img, Pieces(bios[0].sector, bios[0].segs), WritesOf(bios[1..]));
      } else {
        ReplayOverlay(img, capacity, bios[1..]);
        assert WritesOf(bios) == WritesOf(bios[1..]);
      }
    }
  }

  lemma ReplayHead(img: Image, capacity: nat, bios: seq<Bio>)
    requires AllPlain(bios, capacity) && |img| == SECTOR_SIZE * capacity && bios != []
    ensures AllFit(Recorded(bios), |img|) && AllFit(Recorded(bios[1..]), |img|) && Fits(Entry(bios[0]), |img|)
    ensures Replay(img, Recorded(bios)) == Replay(Apply(img, Entry(bios[0])), Recorded(bios[1..]))
  {
    RecordedFits(bios, capacity);
    RecordedFits(bios[1..], capacity);
    EntryFits(bios[0], capacity);
    if Loggable(bios[0]) {
      var all := Recorded(bios);
      assert all[1..] == Recorded(bios[1..]) && all[0] == Entry(bios[0]);
      ReplayFirst(img, all);
    } else {
      assert Recorded(bios) == Recorded(bios[1..]) && !Entry(bios[0]).HasWrite();
    }
  }

  /** No byte of the disk is lost in the run: wherever a segment puts the parent's byte in the place of one that the
      device held by then, a later segment of the run writes. */
  ghost predicate LosesNothing(own: set<nat>, parent: set<nat>, capacity: nat, bios: seq<Bio>) {
    NothingLost(own, parent, WritesOf(bios), SECTOR_SIZE * capacity)
  }

  /** Replaying the recorded entries onto the image from before gives the target's image after. */
  ghost predicate Replays(own: Tree, parent: Tree, capacity: nat, bios: seq<Bio>)
    requires Paged(own) && Paged(parent) && AllPlain(bios, capacity)
  {
    RecordedFits(bios, capacity);
    View(Served(own, parent, capacity, bios), parent, SECTOR_SIZE * capacity)
    == Replay(View(own, parent, SECTOR_SIZE * capacity), Recorded(bios))
  }

  /** ... which is the same as writing the segments to the device and to a flat disk. */
  lemma ReplaysIff(own: Tree, parent: Tree, capacity: nat, bios: seq<Bio>)
    requires Paged(own) && Paged(parent) && AllPlain(bios, capacity)
    ensures var (ps, n) := (WritesOf(bios), SECTOR_SIZE * capacity);
            Within(ps, n)
            && (Replays(own, parent, capacity, bios) <==>
                View(WritePieces(own, parent, ps), parent, n) == Overlay(View(own, parent, n), ps))
  {
    ServedPieces(own, parent, capacity, bios);
    ReplayOverlay(View(own, parent, SECTOR_SIZE * capacity), capacity, bios);
  }

  lemma RecordReplay(own: Tree, parent: Tree, capacity: nat, bios: seq<Bio>)
    requires Paged(own) && Paged(parent) && AllPlain(bios, capacity)
    requires LosesNothing(own.Keys, parent.Keys, capacity, bios)
    ensures AllFit(Recorded(bios), SECTOR_SIZE * capacity)
    ensures View(Served(own, parent, capacity, bios), parent, SECTOR_SIZE * capacity)
         == Replay(View(own, parent, SECTOR_SIZE * capacity), Recorded(bios))
  {
    ReplaysIff(own, parent, capacity, bios);
    PiecesView(own, parent, WritesOf(bios), SECTOR_SIZE * capacity);
    RecordedFits(bios, capacity);
    assert Replays(own, parent, capacity, bios);
  }

  /** The record of a run that loses a byte does not replay to the target's image for all contents of the pages. */
  lemma LossyRecordDiffers(ownPages: set<nat>, parentPages: set<nat>, capacity: nat, bios: seq<Bio>)
    returns (own: Tree, parent: Tree)
    requires AllPlain(bios, capacity) && !LosesNothing(ownPages, parentPages, capacity, bios)
    ensures Paged(own) && Paged(parent) && own.Keys == ownPages && parent.Keys == parentPages
    ensures !Replays(own, parent, capacity, bios)
  {
    var ps, n := WritesOf(bios), SECTOR_SIZE * capacity;
    WritesWithin(bios, capacity);
    var a: nat :| a < n && Lost(ownPages, parentPages, ps, a);
    own, parent := LostShows(ownPages, parentPages, ps, n, a);
    ReplaysIff(own, parent, capacity, bios);
  }

  /** For every run of reads, flushes and writes on the disk, of any number of segments: its record replays to the
      target's image whatever the pages hold if and only if the run loses nothing. */
  lemma RecordReplayIff(ownPages: set<nat>, parentPages: set<nat>, capacity: nat, bios: seq<Bio>)
    requires AllPlain(bios, capacity)
    ensures LosesNothing(ownPages, parentPages, capacity, bios) <==>
            (forall own, parent | Paged(own) && Paged(parent) && own.Keys == ownPages && parent.Keys == parentPages ::
              Replays(own, parent, capacity, bios))
  {
    if LosesNothing(ownPages, parentPages, capacity, bios) {
      forall own, parent | Paged(own) && Paged(parent) && own.Keys == ownPages && parent.Keys == parentPages
        ensures Replays(own, parent, capacity, bios)
      {
        RecordReplay(own, parent, capacity, bios);
      }
    } else {
      var own, parent := LossyRecordDiffers(ownPages, parentPages, capacity, bios);
    }
  }

  // ---------------------------------------------------------------- runs that lose nothing

  lemma OneWrite(bio: Bio)
    ensures WritesOf([bio]) == if bio.IsWrite() then Pieces(bio.sector, bio.segs) else []
  {
    assert [bio][1..] == [];
    assert Pieces(bio.sector, bio.segs) + [] == Pieces(bio.sector, bio.segs);
  }

  /** A single request loses nothing exactly if it ends safely. */
  lemma OneLosesNothingIff(own: set<nat>, parent: set<nat>, capacity: nat, bio: Bio)
    requires Plain(bio, capacity)
    ensures LosesNothing(own, parent, capacity, [bio]) <==> SafeBio(own, parent, capacity, bio)
  {
    OneWrite(bio);
    BioStretch(bio, capacity);
    if bio.IsWrite() {
      SafeEndIff(own, parent, SECTOR_SIZE * bio.sector, Pieces(bio.sector, bio.segs), SECTOR_SIZE * capacity);
    }
  }

  /** For a single request: its entry replays to the target's image whatever the pages hold if and only if it ends at
      the end of a page or of the disk, or no segment crosses into the page where it ends, or the device and its parent
      do not both hold that page. */
  lemma BioReplayIff(ownPages: set<nat>, parentPages: set<nat>, capacity: nat, bio: Bio)
    requires Plain(bio, capacity)
    ensures SafeBio(ownPages, parentPages, capacity, bio) <==>
            (forall own, parent | Paged(own) && Paged(parent) && own.Keys == ownPages && parent.Keys == parentPages ::
              Replays(own, parent, capacity, [bio]))
  {
    OneLosesNothingIff(ownPages, parentPages, capacity, bio);
    RecordReplayIff(ownPages, parentPages, capacity, [bio]);
  }

  /** The pages that the device holds after the request. */
  function BioKeys(own: set<nat>, bio: Bio): set<nat> {
    if bio.IsWrite() then KeysAfter(own, Pieces(bio.sector, bio.segs)) else own
  }

  lemma AfterKeys(own: Tree, parent: Tree, capacity: nat, bio: Bio)
    requires Paged(own) && Paged(parent) && Plain(bio, capacity)
    ensures After(own, parent, true, capacity, bio).Keys == BioKeys(own.Keys, bio)
  {
    if bio.IsWrite() {
      PiecesAdjacent(bio.sector, bio.segs);
      WritePiecesKeys(own, parent, Pieces(bio.sector, bio.segs));
    }
  }

  /** Every request ends safely when its turn comes, on a device that holds the pages `own` at the start. */
  ghost predicate SafeRun(own: set<nat>, parent: set<nat>, capacity: nat, bios: seq<Bio>)
    decreases |bios|
  {
    bios == []
    || (&& Plain(bios[0], capacity) && SafeBio(own, parent, capacity, bios[0])
        && SafeRun(BioKeys(own, bios[0]), parent, capacity, bios[1..]))
  }

  lemma {:induction false} SafeRunPlain(own: set<nat>, parent: set<nat>, capacity: nat, bios: seq<Bio>)
    requires SafeRun(own, parent, capacity, bios)
    ensures AllPlain(bios, capacity)
    decreases |bios|
  {
    if bios != [] {
      SafeRunPlain(BioKeys(own, bios[0]), parent, capacity, bios[1..]);
    }
  }

  lemma BioReplay(own: Tree, parent: Tree, capacity: nat, bio: Bio)
    requires Paged(own) && Paged(parent) && Plain(bio, capacity) && SafeBio(own.Keys, parent.Keys, capacity, bio)
    ensures Fits(Entry(bio), SECTOR_SIZE * capacity)
    ensures var n := SECTOR_SIZE * capacity;
            View(After(own, parent, true, capacity, bio), parent, n) == Apply(View(own, parent, n), Entry(bio))
  {
    EntryFits(bio, capacity);
    RequestView(own, parent, true, capacity, bio);
    SpliceNothing(View(own, parent, SECTOR_SIZE * capacity), SECTOR_SIZE * bio.sector);
  }

  lemma {:induction false} SafeRunReplays(own: Tree, parent: Tree, capacity: nat, bios: seq<Bio>)
    requires Paged(own) && Paged(parent) && SafeRun(own.Keys, parent.Keys, capacity, bios) && AllPlain(bios, capacity)
    ensures Replays(own, parent, capacity, bios)
    decreases |bios|
  {
    if bios != [] {
      var after := After(own, parent, true, capacity, bios[0]);
      AfterKeys(own, parent, capacity, bios[0]);
      BioReplay(own, parent, capacity, bios[0]);
      SafeRunReplays(after, parent, capacity, bios[1..]);
      ReplayHead(View(own, parent, SECTOR_SIZE * capacity), capacity, bios);
    }
  }

  /** It is enough that every request ends safely when its turn comes. */
  lemma SafeRunLosesNothing(own: set<nat>, parent: set<nat>, capacity: nat, bios: seq<Bio>)
    requires SafeRun(own, parent, capacity, bios)
    ensures AllPlain(bios, capacity) && LosesNothing(own, parent, capacity, bios)
  {
    SafeRunPlain(own, parent, capacity, bios);
    RecordReplayIff(own, parent, capacity, bios);
    forall o, p | Paged(o) && Paged(p) && o.Keys == own && p.Keys == parent
      ensures Replays(o, p, capacity, bios)
    {
      SafeRunReplays(o, p, capacity, bios);
    }
  }

  /** No segment crosses from one page into the next. */
  ghost predicate InPages(bio: Bio) {
    forall i :: 0 <= i < |Pieces(bio.sector, bio.segs)| ==>
      var p := Pieces(bio.sector, bio.segs)[i];
      |p.data| <= PAGE_SIZE && SpanOf(p.sector, |p.data|).rest == 0
  }

  /** On a base device every run of plain requests is safe; on a snapshot it is enough that no segment crosses a
      page. */
  lemma {:induction false} PlainRunSafe(own: set<nat>, parent: set<nat>, capacity: nat, bios: seq<Bio>)
    requires forall i :: 0 <= i < |bios| ==> Plain(bios[i], capacity) && (parent == {} || InPages(bios[i]))
    ensures SafeRun(own, parent, capacity, bios)
    decreases |bios|
  {
    if bios != [] {
      PlainRunSafe(BioKeys(own, bios[0]), parent, capacity, bios[1..]);
    }
  }

  /** A crossing that does no harm: the second segment writes the bytes that the first one loses. */
  lemma HealedCrossing(bio: Bio, capacity: nat, first: seq<byte>, second: seq<byte>)
    requires bio == Bio(0, 1, 1, 7680, [first, second]) && |first| == 4096 && |second| == 3584 && capacity > 16
    ensures Plain(bio, capacity) && bio.IsWrite() && SafeBio({1}, {1}, capacity, bio)
    ensures !SafeWrite({1}, {1}, 1, |first|)
  {
    assert bio.segs[1..] == [second] && [second][1..] == [];
    assert Concat(bio.segs) == first + second by {
      assert Concat([second]) == second + [];
    }
  }
}
