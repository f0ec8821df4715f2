/** The permuter object: it cuts a log into epochs, draws crash states from them, and remembers which
    states it has handed out. */
module CrashPermuter {
  import opened DiskOps
  import opened Epochs
  import opened CrashStates
  import opened Finite
  import opened Shuffle
  import opened Wrappers

  // ---------------------------------------------------------------- overlap scan

  datatype Range = Range(start: u32, end: u32)

  predicate Meets(r: Range, start: u32, end: u32) {
    (r.start <= start <= r.end) || (r.start <= end <= r.end)
  }

  /** Which ranges are found to overlap: those that share a number with the new one, unless they lie inside it and reach
      neither of its ends. */
  lemma MeetsIff(r: Range, start: u32, end: u32)
    requires r.start <= r.end && start <= end
    ensures Meets(r, start, end) <==> r.start <= end && start <= r.end && !(start < r.start && r.end < end)
  {
  }

  /** The range list after a scan: a new range goes in front of every later range that is passed. */
  function Scan(ranges: seq<Range>, start: u32, end: u32): seq<Range> {
    if ranges == [] || Meets(ranges[0], start, end) then ranges
    else (if ranges[0].start > end then [Range(start, end), ranges[0]] else [ranges[0]]) + Scan(ranges[1..], start, end)
  }

  /** How many ranges are passed that lie behind the new one: each of them gets a copy of it in front. */
  function PassedBehind(ranges: seq<Range>, start: u32, end: u32): nat {
    if ranges == [] || Meets(ranges[0], start, end) then 0
    else (if ranges[0].start > end then 1 else 0) + PassedBehind(ranges[1..], start, end)
  }

  /** A scan leaves the ranges of the list as they are and only adds copies of the new one. */
  lemma {:induction false} ScanAdds(ranges: seq<Range>, start: u32, end: u32, r: Range)
    ensures multiset(Scan(ranges, start, end))[r]
         == multiset(ranges)[r] + if r == Range(start, end) then PassedBehind(ranges, start, end) else 0
  {
    if ranges != [] && !Meets(ranges[0], start, end) {
      var step := if ranges[0].start > end then [Range(start, end), ranges[0]] else [ranges[0]];
      ScanAdds(ranges[1..], start, end, r);
      assert ranges == [ranges[0]] + ranges[1..];
      assert Scan(ranges, start, end) == step + Scan(ranges[1..], start, end);
    }
  }

  predicate Ordered(ranges: seq<Range>) {
    forall r :: r in ranges ==> r.start <= r.end
  }

  lemma {:induction false} ScanOrdered(ranges: seq<Range>, start: u32, end: u32)
    requires start <= end && Ordered(ranges)
    ensures Ordered(Scan(ranges, start, end))
  {
    if ranges != [] {
      ScanOrdered(ranges[1..], start, end);
    }
  }

  lemma ScanStep(ranges: seq<Range>, i: nat, start: u32, end: u32)
    requires i < |ranges| && !Meets(ranges[i], start, end)
    ensures Scan(ranges[i..], start, end)
         == (if ranges[i].start > end then [Range(start, end), ranges[i]] else [ranges[i]])
            + Scan(ranges[i + 1..], start, end)
  {
    assert ranges[i..][1..] == ranges[i + 1..];
  }

  /** Walks the list until a range meets `start..end`. The range found is widened in a copy only, so the
      list keeps it as it was. */
  method ScanOverlaps(ranges: seq<Range>, start: u32, end: u32) returns (scanned: seq<Range>, hit: bool)
    ensures scanned == Scan(ranges, start, end)
    ensures hit <==> exists j :: 0 <= j < |ranges| && Meets(ranges[j], start, end)
  {
    var i := 0;
    scanned, hit := [], false;
    while i < |ranges|
      invariant 0 <= i <= |ranges|
      invariant scanned + Scan(ranges[i..], start, end) == Scan(ranges, start, end)
      invariant forall j :: 0 <= j < i ==> !Meets(ranges[j], start, end)
    {
      if Meets(ranges[i], start, end) {
        return scanned + ranges[i..], true;
      }
      ScanStep(ranges, i, start, end);
      var step := if ranges[i].start > end then [Range(start, end), ranges[i]] else [ranges[i]];
      Assoc(scanned, step, Scan(ranges[i + 1..], start, end));
      scanned := scanned + step;
      i := i + 1;
    }
  }

  // ---------------------------------------------------------------- suffixes of a choice

  function Drop(c: Choice, i: nat): Choice
    requires i <= c.numEpochs && i <= |c.picks|
  {
    Choice(c.numEpochs - i, c.numRequests, c.picks[i..])
  }

  lemma {:induction false} ValidSuffix(epochs: seq<Epoch>, c: Choice, i: nat)
    requires ValidChoice(epochs, c) && i < c.numEpochs
    ensures ValidChoice(epochs[i..], Drop(c, i))
    decreases i
  {
    if i == 0 {
      assert epochs[0..] == epochs && Drop(c, 0) == c;
    } else {
      ValidSuffix(epochs[1..], c.Rest(), i - 1);
      assert epochs[1..][i - 1..] == epochs[i..];
      assert c.Rest().picks[i - 1..] == c.picks[i..];
    }
  }

  /** What epoch `i` contributes to the state. */
  function PartOf(epochs: seq<Epoch>, c: Choice, i: nat): seq<EpochOp>
    requires ValidChoice(epochs, c) && i < c.numEpochs
  {
    ValidSuffix(epochs, c, i);
    if i == c.numEpochs - 1 then PermutedPart(epochs[i], c.numRequests, c.picks[i])
    else Complete(epochs[i], c.picks[i])
  }

  /** What the epochs from `i` on contribute. */
  function GenFrom(epochs: seq<Epoch>, c: Choice, i: nat): seq<EpochOp>
    requires ValidChoice(epochs, c) && i <= c.numEpochs
  {
    if i == c.numEpochs then []
    else
      ValidSuffix(epochs, c, i);
      Gen(epochs[i..], Drop(c, i))
  }

  lemma GenFromStep(epochs: seq<Epoch>, c: Choice, i: nat)
    requires ValidChoice(epochs, c) && i < c.numEpochs
    ensures GenFrom(epochs, c, i) == PartOf(epochs, c, i) + GenFrom(epochs, c, i + 1)
    ensures i < c.numEpochs - 1 ==> |PartOf(epochs, c, i)| == |epochs[i].ops|
    ensures i == c.numEpochs - 1 ==> ValidEpochPicks(epochs[i], c.numRequests, c.picks[i])
    ensures i < c.numEpochs - 1 && epochs[i].overlaps ==> ValidEpochPicks(epochs[i], |epochs[i].ops|, c.picks[i])
  {
    ValidSuffix(epochs, c, i);
    if i < c.numEpochs - 1 {
      assert Drop(c, i).Rest() == Drop(c, i + 1);
      assert epochs[i..][1..] == epochs[i + 1..];
    }
  }

  lemma GenStep(epochs: seq<Epoch>, c: Choice, i: nat, done: seq<EpochOp>)
    requires ValidChoice(epochs, c) && i < c.numEpochs
    requires done + GenFrom(epochs, c, i) == Gen(epochs, c)
    ensures (done + PartOf(epochs, c, i)) + GenFrom(epochs, c, i + 1) == Gen(epochs, c)
    ensures |done| + |PartOf(epochs, c, i)| <= |Gen(epochs, c)|
  {
    GenFromStep(epochs, c, i);
    Assoc(done, PartOf(epochs, c, i), GenFrom(epochs, c, i + 1));
  }

  lemma GenStart(epochs: seq<Epoch>, c: Choice)
    requires ValidChoice(epochs, c)
    ensures GenFrom(epochs, c, 0) == Gen(epochs, c)
  {
    assert epochs[0..] == epochs && Drop(c, 0) == c;
  }

  /** After `t` picks the slots left are those from which the remaining picks take the rest of `all`. */
  ghost predicate Remaining(slots: seq<nat>, picks: seq<nat>, all: seq<nat>, t: nat) {
    && t <= |picks| == |all|
    && ValidPicks(picks[t..], |slots|) && Take(slots, picks[t..]) == all[t..]
  }

  /** One turn of the placing loop: the next slot in order is the picked one of those left. */
  lemma SlotStep(slots: seq<nat>, picks: seq<nat>, all: seq<nat>, t: nat)
    requires Remaining(slots, picks, all, t) && t < |picks|
    ensures picks[t] < |slots| && all[t] == slots[picks[t]]
    ensures Remaining(RemoveAt(slots, picks[t]), picks, all, t + 1)
  {
    assert picks[t..][0] == picks[t] && all[t] == all[t..][0];
    assert picks[t..][1..] == picks[t + 1..] && all[t..][1..] == all[t + 1..];
  }

  /** After `t` picks `out` holds what stood there before and the first `t` operations of the part. */
  ghost predicate Placed(e: Epoch, k: nat, picks: seq<nat>, slots: seq<nat>, t: nat, before: seq<EpochOp>,
                         out: seq<EpochOp>)
    requires ValidEpochPicks(e, k, picks)
  {
    && t <= k && |slots| == Slots(e) - t && Remaining(slots, picks, SlotOrder(e, picks), t)
    && out == before + PermutedPart(e, k, picks)[..t]
  }

  lemma PlacedNone(e: Epoch, k: nat, picks: seq<nat>, before: seq<EpochOp>)
    requires ValidEpochPicks(e, k, picks)
    ensures Placed(e, k, picks, Iota(Slots(e)), 0, before, before)
  {
    assert picks[0..] == picks && SlotOrder(e, picks)[0..] == SlotOrder(e, picks);
  }

  lemma PlacedAll(e: Epoch, k: nat, picks: seq<nat>, slots: seq<nat>, t: nat, before: seq<EpochOp>, out: seq<EpochOp>)
    requires ValidEpochPicks(e, k, picks) && Placed(e, k, picks, slots, t, before, out)
    requires t == k || slots == []
    ensures t == |picks| && out == before + PermutedPart(e, k, picks)[..t]
  {
  }

  lemma PrefixGrows<T>(before: seq<T>, part: seq<T>, t: nat)
    requires t < |part|
    ensures before + part[..t + 1] == before + part[..t] + [part[t]]
  {
  }

  /** The slots in the order in which they are filled. */
  ghost function SlotOrder(e: Epoch, picks: seq<nat>): seq<nat>
    requires e.ops != [] && ValidPicks(picks, Slots(e))
  {
    Take<nat>(Iota(Slots(e)), picks)
  }

  lemma SlotOrderParts(e: Epoch, k: nat, picks: seq<nat>)
    requires ValidEpochPicks(e, k, picks)
    ensures forall t :: 0 <= t < |picks| ==>
              SlotOrder(e, picks)[t] < |e.ops| && PermutedPart(e, k, picks)[t] == e.ops[SlotOrder(e, picks)[t]]
    ensures k > Slots(e) ==> k == |picks| + 1 && PermutedPart(e, k, picks)[k - 1] == e.ops[|e.ops| - 1]
  {
    SelectionLegal(e, k, picks);
    var idx, all := Selection(e, k, picks), SlotOrder(e, picks);
    forall t | 0 <= t < |picks|
      ensures all[t] < |e.ops| && PermutedPart(e, k, picks)[t] == e.ops[all[t]]
    {
      assert idx[t] == all[t];
    }
  }

  // ---------------------------------------------------------------- the permuter

  const MIN_RETRIES: nat := 1000
  const RETRY_MULTIPLIER: nat := 2

  function MaxRetries(completed: nat): nat {
    if RETRY_MULTIPLIER * completed < MIN_RETRIES then MIN_RETRIES else RETRY_MULTIPLIER * completed
  }

  /** A thousand tries are permitted at least, and twice as many as states have been handed out; never more than the
      larger of the two. */
  lemma TriesPermitted(n: nat)
    ensures MaxRetries(n) >= 1000 && MaxRetries(n) >= 2 * n && (MaxRetries(n) == 1000 || MaxRetries(n) == 2 * n)
  {
  }

  method BioVectorEqual(a: seq<nat>, b: seq<nat>) returns (same: bool)
    ensures same <==> a == b
  {
    if |a| != |b| { return false; }
    for i := 0 to |a|
      invariant a[..i] == b[..i]
    {
      if a[i] != b[i] { return false; }
      assert a[..i + 1] == a[..i] + [a[i]] && b[..i + 1] == b[..i] + [b[i]];
    }
    assert a[..|a|] == a && b[..|a|] == b;
    return true;
  }

  class RandomPermuter {
    var epochs: seq<Epoch>
    var completed: set<seq<nat>>

    /** There is something to permute. The remembered index vectors may be those of any logs. */
    ghost predicate Valid()
      reads this
    {
      epochs != [] && KeyedEpochs(epochs)
    }

    constructor ()
      ensures epochs == [] && completed == {}
    {
      epochs, completed := [], {};
    }

    /** Cuts the log into epochs. States handed out earlier stay remembered. */
    method InitDataVector(data: seq<DiskWrite>)
      modifies this`epochs
      ensures epochs == Cut(data) && KeyedEpochs(epochs)
      ensures data != [] ==> Valid()
    {
      epochs := [];
      var index := 0;
      var prevEpochFlushOp := false;
      var dataHalf := DiskWrite(Meta(0, 0, 0, 0), []);
      var overlaps: seq<Range> := [];
      while index < |data|
        invariant 0 <= index <= |data| && (prevEpochFlushOp ==> index > 0) && overlaps == []
        invariant epochs + CutFrom(data, index, [], Pending(prevEpochFlushOp, dataHalf)) == Cut(data)
      {
        var ops, hit, hasBarrier;
        ghost var before, cut := epochs, CutFrom(data, index, [], Pending(prevEpochFlushOp, dataHalf));
        ops, hit, index, prevEpochFlushOp, overlaps :=
          CollectOps(data, index, prevEpochFlushOp, dataHalf, overlaps, cut);
        ops, hasBarrier, index, prevEpochFlushOp, dataHalf :=
          CloseEpochAt(data, index, ops, prevEpochFlushOp, dataHalf);
        epochs := epochs + [Epoch(ops, hasBarrier, hit)];
        Assoc(before, [Epoch(ops, hasBarrier, hit)], CutFrom(data, index, [], Pending(prevEpochFlushOp, dataHalf)));
      }
      CutKeyed(data);
    }

    /** What looking up an operation makes of the range list, and whether it meets one: its first sector and, in the
        sectors' numbers too, its size in bytes, both as 32-bit numbers. */
    static ghost function ScanNext(ranges: seq<Range>, op: DiskWrite): (r: (seq<Range>, bool))
      ensures ranges == [] ==> r == ([], false)
    {
      var start: u32 := op.meta.sector % 0x1_0000_0000;
      var end: u32 := (start + op.meta.size) % 0x1_0000_0000;
      (Scan(ranges, start, end), exists j :: 0 <= j < |ranges| && Meets(ranges[j], start, end))
    }

    static method ScanOp(ranges: seq<Range>, op: DiskWrite) returns (overlaps: seq<Range>, found: bool)
      ensures (overlaps, found) == ScanNext(ranges, op)
    {
      var start: u32 := op.meta.sector % 0x1_0000_0000;
      overlaps, found := ScanOverlaps(ranges, start, (start + op.meta.size) % 0x1_0000_0000);
    }

    /** Takes in one ordinary operation, behind the data half that waits for it. `cut` are the epochs from the
        start of the current one on. */
    static method CollectOp(data: seq<DiskWrite>, index: nat, collected: seq<EpochOp>, waiting: bool,
                            dataHalf: DiskWrite, ranges: seq<Range>, ghost cut: seq<Epoch>)
      returns (ops: seq<EpochOp>, found: bool, overlaps: seq<Range>)
      requires index < |data| && !data[index].IsBarrierWrite()
      requires CutsTo(data, index, collected, waiting, dataHalf, cut)
      ensures ops != [] && CutsTo(data, index + 1, ops, false, dataHalf, cut)
      ensures (overlaps, found) == ScanNext(ranges, data[index])
    {
      CutPlain(data, index, collected, Pending(waiting, dataHalf));
      ops := collected;
      if waiting {
        ops := ops + [EpochOp(index - 1, dataHalf)];
      }
      overlaps, found := ScanOp(ranges, data[index]);
      ops := ops + [EpochOp(index, data[index])];
      assert ops == collected + Front(data, index, Pending(waiting, dataHalf));
    }

    /** The range list and the overlap flag after the operations from `from` up to `to`. */
    static ghost function Scanned(data: seq<DiskWrite>, from: nat, to: nat, ranges: seq<Range>): (r: (seq<Range>, bool))
      requires from <= to <= |data|
      ensures ranges == [] ==> r == ([], false)
    {
      if from == to then (ranges, false)
      else
        var (before, hit) := Scanned(data, from, to - 1, ranges);
        var (after, found) := ScanNext(before, data[to - 1]);
        (after, hit || found)
    }

    /** Whether an operation meets a range of the list: its own range goes from its first sector on for as many numbers
        as it has bytes, with both ends, as long as that fits in 32 bits. */
    static ghost predicate Touches(r: Range, op: DiskWrite) {
      var first, last := op.meta.sector, op.meta.sector + op.meta.size;
      r.start <= last && first <= r.end && !(first < r.start && r.end < last)
    }

    static lemma TouchesIff(ranges: seq<Range>, op: DiskWrite, first: u32, last: u32)
      requires Ordered(ranges) && first == op.meta.sector && last == first + op.meta.size
      ensures ScanNext(ranges, op) == (Scan(ranges, first, last), exists r :: r in ranges && Touches(r, op))
    {
      assert ScanNext(ranges, op).1 <==> exists j :: 0 <= j < |ranges| && Meets(ranges[j], first, last);
      forall r | r in ranges
        ensures Meets(r, first, last) <==> Touches(r, op)
      {
        MeetsIff(r, first, last);
      }
    }

    static ghost predicate TouchedAt(data: seq<DiskWrite>, from: nat, i: nat, ranges: seq<Range>)
      requires from <= i < |data|
    {
      exists r :: r in Scanned(data, from, i, ranges).0 && Touches(r, data[i])
    }

    /** Some operation from `from` up to `to` meets a range left by those before it. */
    static ghost predicate SomeTouched(data: seq<DiskWrite>, from: nat, to: nat, ranges: seq<Range>)
      requires from <= to <= |data|
    {
      exists i :: from <= i < to && TouchedAt(data, from, i, ranges)
    }

    static lemma ScannedStep(data: seq<DiskWrite>, from: nat, i: nat, ranges: seq<Range>)
      requires from <= i < |data| && data[i].meta.sector + data[i].meta.size < 0x1_0000_0000
      requires Ordered(Scanned(data, from, i, ranges).0)
      ensures Ordered(Scanned(data, from, i + 1, ranges).0)
      ensures Scanned(data, from, i + 1, ranges).1
          <==> Scanned(data, from, i, ranges).1 || TouchedAt(data, from, i, ranges)
    {
      var before, op := Scanned(data, from, i, ranges).0, data[i];
      TouchesIff(before, op, op.meta.sector, op.meta.sector + op.meta.size);
      ScanOrdered(before, op.meta.sector, op.meta.sector + op.meta.size);
    }

    static lemma TouchedStep(data: seq<DiskWrite>, from: nat, i: nat, ranges: seq<Range>)
      requires from <= i < |data|
      ensures SomeTouched(data, from, i + 1, ranges)
          <==> SomeTouched(data, from, i, ranges) || TouchedAt(data, from, i, ranges)
    {
    }

    /** An epoch is flagged if and only if one of its operations meets a range left by those before it. */
    static lemma {:induction false} OverlapIff(data: seq<DiskWrite>, from: nat, to: nat, ranges: seq<Range>)
      requires from <= to <= |data| && Ordered(ranges)
      requires forall i :: from <= i < to ==> data[i].meta.sector + data[i].meta.size < 0x1_0000_0000
      ensures Scanned(data, from, to, ranges).1 <==> SomeTouched(data, from, to, ranges)
      ensures Ordered(Scanned(data, from, to, ranges).0)
    {
      if from < to {
        OverlapIff(data, from, to - 1, ranges);
        ScannedStep(data, from, to - 1, ranges);
        TouchedStep(data, from, to - 1, ranges);
      }
    }

    /** The inner loop: collects operations up to the next barrier write. */
    static method CollectOps(data: seq<DiskWrite>, from: nat, waiting: bool, dataHalf: DiskWrite, ranges: seq<Range>,
                             ghost cut: seq<Epoch>)
      returns (ops: seq<EpochOp>, hit: bool, index: nat, prevEpochFlushOp: bool, overlaps: seq<Range>)
      requires from < |data| && CutsTo(data, from, [], waiting, dataHalf, cut)
      ensures from <= index <= |data| && (index > from <==> ops != [])
      ensures index < |data| ==> data[index].IsBarrierWrite()
      ensures ranges == [] ==> overlaps == [] && !hit
      ensures (overlaps, hit) == Scanned(data, from, index, ranges)
      ensures CutsTo(data, index, ops, prevEpochFlushOp, dataHalf, cut)
    {
      ops, hit, index, prevEpochFlushOp, overlaps := [], false, from, waiting, ranges;
      while index < |data| && !data[index].IsBarrierWrite()
        invariant from <= index <= |data| && (index > from <==> ops != [])
        invariant (overlaps, hit) == Scanned(data, from, index, ranges)
        invariant CutsTo(data, index, ops, prevEpochFlushOp, dataHalf, cut)
      {
        var found;
        ops, found, overlaps := CollectOp(data, index, ops, prevEpochFlushOp, dataHalf, overlaps, cut);
        hit, prevEpochFlushOp, index := hit || found, false, index + 1;
      }
    }

    /** The end of an epoch: takes in the barrier write, or its flag half, if the log is not at its end. */
    static method CloseEpochAt(data: seq<DiskWrite>, at: nat, collected: seq<EpochOp>, waiting: bool, half: DiskWrite)
      returns (ops: seq<EpochOp>, hasBarrier: bool, index: nat, prevEpochFlushOp: bool, dataHalf: DiskWrite)
      requires at <= |data| && (waiting ==> at > 0) && (collected == [] ==> at < |data|)
      requires at < |data| ==> data[at].IsBarrierWrite()
      ensures at <= index <= |data| && (collected == [] ==> at < index) && (prevEpochFlushOp ==> index > 0)
      ensures CutFrom(data, at, collected, Pending(waiting, half))
           == [Epoch(ops, hasBarrier, false)] + CutFrom(data, index, [], Pending(prevEpochFlushOp, dataHalf))
    {
      ops, hasBarrier, index, prevEpochFlushOp, dataHalf := collected, false, at, waiting, half;
      if at < |data| && data[at].IsBarrierWrite() {
        CutBarrier(data, at, collected, Pending(waiting, half));
        if (data[at].HasFlush() || data[at].HasFlushSeq()) && data[at].HasWrite() && !data[at].HasFua() {
          dataHalf := data[at].DataHalf();
          ops := ops + [EpochOp(at, data[at].FlagHalf())];
          prevEpochFlushOp := true;
        } else {
          ops := ops + [EpochOp(at, data[at])];
          hasBarrier := true;
        }
        index := index + 1;
      }
    }

    /** Fills `res[start..start + k]` with operations of the epoch. The picks are the random draws. */
    method PermuteEpoch(res: array<EpochOp>, start: nat, k: nat, e: Epoch, picks: seq<nat>)
      requires ValidEpochPicks(e, k, picks) && start + k <= res.Length
      modifies res
      ensures res[..start + k] == old(res[..start]) + PermutedPart(e, k, picks)
      ensures res[start + k..] == old(res[start + k..])
    {
      ghost var before, part := res[..start], PermutedPart(e, k, picks);
      var placed := PlacePicks(res, start, k, e, picks);
      if placed < k {
        SlotOrderParts(e, k, picks);
        Place(res, start + placed, e.ops[|e.ops| - 1]);
        PrefixGrows(before, part, placed);
      }
      assert part[..k] == part;
    }

    /** Places one operation and takes its slot out of the list. */
    static method PlacePick(res: array<EpochOp>, at: nat, k: nat, e: Epoch, picks: seq<nat>, slots: seq<nat>, t: nat,
                            ghost before: seq<EpochOp>)
      returns (rest: seq<nat>)
      requires ValidEpochPicks(e, k, picks) && at < res.Length && slots != []
      requires t < k && Placed(e, k, picks, slots, t, before, res[..at])
      modifies res
      ensures Placed(e, k, picks, rest, t + 1, before, res[..at + 1]) && res[at + 1..] == old(res[at + 1..])
    {
      SlotOrderParts(e, k, picks);
      SlotStep(slots, picks, SlotOrder(e, picks), t);
      PrefixGrows(before, PermutedPart(e, k, picks), t);
      rest := RemoveAt(slots, picks[t]);
      Place(res, at, e.ops[slots[picks[t]]]);
    }

    /** Places operations other than a flagged barrier, until all `k` places are filled or no slot is left. */
    method PlacePicks(res: array<EpochOp>, start: nat, k: nat, e: Epoch, picks: seq<nat>) returns (t: nat)
      requires ValidEpochPicks(e, k, picks) && start + k <= res.Length
      modifies res
      ensures t == |picks| && res[..start + t] == old(res[..start]) + PermutedPart(e, k, picks)[..t]
      ensures start + t <= res.Length && res[start + t..] == old(res[start + t..])
    {
      var emptySlots: seq<nat> := Iota(Slots(e));
      t := 0;
      ghost var before := res[..start];
      PlacedNone(e, k, picks, before);
      while t < k && emptySlots != []
        invariant t <= k && Placed(e, k, picks, emptySlots, t, before, res[..start + t])
        invariant res[start + t..] == old(res[start + t..])
        decreases k - t
      {
        assert res[start + t + 1..] == res[start + t..][1..] == old(res[start + t + 1..]);
        emptySlots := PlacePick(res, start + t, k, e, picks, emptySlots, t, before);
        t := t + 1;
      }
      PlacedAll(e, k, picks, emptySlots, t, before, res[..start + t]);
    }

    /** Writes the next element of the result. */
    static method Place(res: array<EpochOp>, at: nat, op: EpochOp)
      requires at < res.Length
      modifies res
      ensures res[..at + 1] == old(res[..at]) + [op] && res[at + 1..] == old(res[at + 1..])
    {
      res[at] := op;
    }

    /** Copies the whole epoch in recorded order. */
    method CopyEpoch(res: array<EpochOp>, start: nat, e: Epoch)
      requires start + |e.ops| <= res.Length
      modifies res
      ensures res[..start + |e.ops|] == old(res[..start]) + e.ops
      ensures res[start + |e.ops|..] == old(res[start + |e.ops|..])
    {
      ghost var before := res[..start];
      for j := 0 to |e.ops|
        invariant res[..start + j] == before + e.ops[..j] && res[start + j..] == old(res[start + j..])
      {
        assert res[start + j + 1..] == res[start + j..][1..] == old(res[start + j + 1..]);
        Place(res, start + j, e.ops[j]);
        PrefixGrows(before, e.ops, j);
      }
      assert e.ops[..|e.ops|] == e.ops;
    }

    method TotalElements(c: Choice) returns (total: nat)
      requires ValidChoice(epochs, c)
      ensures total == |Gen(epochs, c)|
    {
      var last := c.numEpochs - 1;
      total := 0;
      GenStart(epochs, c);
      for i := 0 to last
        invariant total + |GenFrom(epochs, c, i)| == |Gen(epochs, c)|
      {
        GenFromStep(epochs, c, i);
        total := total + |epochs[i].ops|;
      }
      GenFromStep(epochs, c, last);
      total := total + c.numRequests;
    }

    /** Writes what epoch `i` contributes behind the first `curr` elements. */
    method PlaceEpoch(res: array<EpochOp>, curr: nat, c: Choice, i: nat) returns (next: nat)
      requires ValidChoice(epochs, c) && i < c.numEpochs && curr + |PartOf(epochs, c, i)| <= res.Length
      modifies res
      ensures next == curr + |PartOf(epochs, c, i)|
      ensures res[..next] == old(res[..curr]) + PartOf(epochs, c, i)
    {
      GenFromStep(epochs, c, i);
      var last := i == c.numEpochs - 1;
      if epochs[i].overlaps || last {
        var size := if !last then |epochs[i].ops| else c.numRequests;
        PermuteEpoch(res, curr, size, epochs[i], c.picks[i]);
        next := curr + size;
      } else {
        CopyEpoch(res, curr, epochs[i]);
        next := curr + |epochs[i].ops|;
      }
    }

    /** Builds one crash state; `c` holds the random draws. */
    method GenOneState(c: Choice) returns (res: array<EpochOp>)
      requires ValidChoice(epochs, c)
      ensures fresh(res) && res[..] == Gen(epochs, c)
    {
      var total := TotalElements(c);
      res := new EpochOp[total];
      var curr := 0;
      GenStart(epochs, c);
      for i := 0 to c.numEpochs
        invariant 0 <= curr <= total && res[..curr] + GenFrom(epochs, c, i) == Gen(epochs, c)
      {
        GenStep(epochs, c, i, res[..curr]);
        curr := PlaceEpoch(res, curr, c, i);
      }
      assert res[..curr] == res[..];
    }

    static method HashOf(state: array<EpochOp>) returns (hash: seq<nat>)
      ensures hash == Key(state[..])
    {
      hash := [];
      for i := 0 to state.Length
        invariant |hash| == i && forall j :: 0 <= j < i ==> hash[j] == state[j].absIndex
      {
        hash := hash + [state[i].absIndex];
      }
    }

    static method OpsOf(state: array<EpochOp>) returns (res: seq<DiskWrite>)
      ensures res == Ops(state[..])
    {
      res := [];
      for i := 0 to state.Length
        invariant |res| == i && forall j :: 0 <= j < i ==> res[j] == state[j].op
      {
        res := res + [state[i].op];
      }
    }

    /** Hands out a crash state that has not been handed out before, or gives up after MaxRetries tries.
        `draws` are the random draws of the successive tries. */
    method GenerateCrashState(draws: nat -> Choice)
      returns (res: seq<DiskWrite>, isNew: bool, ghost state: seq<EpochOp>, ghost used: nat)
      requires Valid() && Drawable(epochs, draws)
      modifies this`completed
      ensures Valid() && Legal(epochs, state) && res == Ops(state)
      ensures 1 <= used && (used <= 1000 || used <= 2 * old(|completed|)) && state == Gen(epochs, draws(used - 1))
      ensures !isNew ==> used >= 1000 && used >= 2 * old(|completed|)
      ensures isNew <==> Key(state) !in old(completed)
      ensures Draws(epochs, old(completed), draws, isNew, state, completed)
    {
      var crashState, hash, tries := TryStates(draws, MaxRetries(|completed|));
      state, used := crashState[..], tries;
      TriesEnd(epochs, completed, draws, used, state);
      res := OpsOf(crashState);
      isNew := hash !in completed;
      if isNew {
        completed := completed + {hash};
      }
    }

    /** The retry loop: draws states until one has not been handed out, or the tries run out. */
    method TryStates(draws: nat -> Choice, maxRetries: nat) returns (state: array<EpochOp>, hash: seq<nat>, used: nat)
      requires 1 <= maxRetries && Drawable(epochs, draws)
      ensures 1 <= used <= maxRetries
      ensures state[..] == Gen(epochs, draws(used - 1)) && hash == Key(state[..])
      ensures KnownUpTo(epochs, completed, draws, used - 1) && (hash in completed ==> used == maxRetries)
    {
      state := GenOneState(draws(0));
      hash := HashOf(state);
      used := 1;
      while hash in completed && used < maxRetries
        invariant 1 <= used <= maxRetries
        invariant state[..] == Gen(epochs, draws(used - 1)) && hash == Key(state[..])
        invariant KnownUpTo(epochs, completed, draws, used - 1)
      {
        state := GenOneState(draws(used));
        hash := HashOf(state);
        used := used + 1;
      }
    }
  }

  // ---------------------------------------------------------------- what can be handed out

  /** All random draws are in range. */
  ghost predicate Drawable(epochs: seq<Epoch>, draws: nat -> Choice) {
    forall i: nat :: ValidChoice(epochs, draws(i))
  }

  /** The first `n` draws give states that are remembered. */
  ghost predicate KnownUpTo(epochs: seq<Epoch>, keys: set<seq<nat>>, draws: nat -> Choice, n: nat)
    requires Drawable(epochs, draws)
  {
    forall i :: 0 <= i < n ==> Key(Gen(epochs, draws(i))) in keys
  }

  /** No permitted try gives a state that is not remembered. */
  ghost predicate Exhausted(epochs: seq<Epoch>, keys: set<seq<nat>>, draws: nat -> Choice)
    requires Drawable(epochs, draws)
  {
    KnownUpTo(epochs, keys, draws, MaxRetries(|keys|))
  }

  /** Try `i` is permitted, and gives the first state drawn that is not remembered. */
  ghost predicate NewAt(epochs: seq<Epoch>, keys: set<seq<nat>>, draws: nat -> Choice, i: nat, state: seq<EpochOp>)
    requires Drawable(epochs, draws)
  {
    && i < MaxRetries(|keys|) && KnownUpTo(epochs, keys, draws, i)
    && state == Gen(epochs, draws(i)) && Key(state) !in keys
  }

  ghost predicate FirstNew(epochs: seq<Epoch>, keys: set<seq<nat>>, draws: nat -> Choice, state: seq<EpochOp>)
    requires Drawable(epochs, draws)
  {
    exists i: nat :: NewAt(epochs, keys, draws, i, state)
  }

  /** A draw: there is a new state unless the tries are exhausted, it is the first new one, and it is remembered. */
  ghost predicate Draws(epochs: seq<Epoch>, keys: set<seq<nat>>, draws: nat -> Choice, isNew: bool, state: seq<EpochOp>,
                        after: set<seq<nat>>)
  {
    && Drawable(epochs, draws) && (isNew <==> !Exhausted(epochs, keys, draws))
    && (isNew ==> FirstNew(epochs, keys, draws, state)) && after == keys + (if isNew then {Key(state)} else {})
  }

  /** Where the retry loop ends decides whether there is a new state. */
  lemma TriesEnd(epochs: seq<Epoch>, keys: set<seq<nat>>, draws: nat -> Choice, used: nat, state: seq<EpochOp>)
    requires NonEmpty(epochs) && Drawable(epochs, draws) && 1 <= used <= MaxRetries(|keys|)
    requires state == Gen(epochs, draws(used - 1)) && KnownUpTo(epochs, keys, draws, used - 1)
    requires Key(state) in keys ==> used == MaxRetries(|keys|)
    ensures Legal(epochs, state)
    ensures Key(state) !in keys <==> !Exhausted(epochs, keys, draws)
    ensures Key(state) !in keys ==> FirstNew(epochs, keys, draws, state)
  {
    GenLegal(epochs, draws(used - 1));
    if Key(state) !in keys {
      assert NewAt(epochs, keys, draws, used - 1, state);
    }
  }

  /** There is at most one such state, and there is one unless the tries are exhausted. */
  lemma FirstNewUnique(epochs: seq<Epoch>, keys: set<seq<nat>>, draws: nat -> Choice, s: seq<EpochOp>, t: seq<EpochOp>)
    requires Drawable(epochs, draws) && FirstNew(epochs, keys, draws, s) && FirstNew(epochs, keys, draws, t)
    ensures s == t && !Exhausted(epochs, keys, draws)
  {
    var i: nat :| NewAt(epochs, keys, draws, i, s);
    var j: nat :| NewAt(epochs, keys, draws, j, t);
    assert Key(Gen(epochs, draws(i))) !in keys && Key(Gen(epochs, draws(j))) !in keys;
    assert i == j;
  }

  lemma FirstNewLegal(epochs: seq<Epoch>, keys: set<seq<nat>>, draws: nat -> Choice, state: seq<EpochOp>)
    requires NonEmpty(epochs) && Drawable(epochs, draws) && FirstNew(epochs, keys, draws, state)
    ensures Legal(epochs, state) && Key(state) !in keys
  {
    var i: nat :| NewAt(epochs, keys, draws, i, state);
    GenLegal(epochs, draws(i));
  }

  lemma ConstantDraws(epochs: seq<Epoch>, keys: set<seq<nat>>, c: Choice, state: seq<EpochOp>)
    requires ValidChoice(epochs, c) && Gen(epochs, c) == state && Key(state) !in keys
    ensures var draws: nat -> Choice := i => c; Drawable(epochs, draws) && FirstNew(epochs, keys, draws, state)
  {
    var draws: nat -> Choice := i => c;
    assert Drawable(epochs, draws);
    assert NewAt(epochs, keys, draws, 0, state);
  }

  ghost predicate CanHandOut(epochs: seq<Epoch>, keys: set<seq<nat>>, state: seq<EpochOp>) {
    exists draws: nat -> Choice :: Drawable(epochs, draws) && FirstNew(epochs, keys, draws, state)
  }

  /** Which states can be handed out as new, whatever logs the remembered index vectors come from: exactly the legal
      ones whose index vector is not remembered. */
  lemma HandsOutIff(epochs: seq<Epoch>, keys: set<seq<nat>>, state: seq<EpochOp>)
    requires NonEmpty(epochs)
    ensures CanHandOut(epochs, keys, state) <==> Legal(epochs, state) && Key(state) !in keys
  {
    if CanHandOut(epochs, keys, state) {
      var draws: nat -> Choice :| Drawable(epochs, draws) && FirstNew(epochs, keys, draws, state);
      FirstNewLegal(epochs, keys, draws, state);
    }
    if Legal(epochs, state) && Key(state) !in keys {
      var c := LegalGen(epochs, state);
      ConstantDraws(epochs, keys, c, state);
    }
  }

  // ---------------------------------------------------------------- runs of draws

  /** One call for a crash state: the log that was cut last, the draws, and what came of it. */
  datatype Deal = Deal(log: seq<DiskWrite>, draws: nat -> Choice, isNew: bool, state: seq<EpochOp>)

  ghost function KeyOf(deal: Deal): set<seq<nat>> {
    if deal.isNew then {Key(deal.state)} else {}
  }

  /** The index vectors remembered after the calls. */
  ghost function KeysDealt(known: set<seq<nat>>, deals: seq<Deal>): set<seq<nat>> {
    if deals == [] then known else KeysDealt(known, deals[..|deals| - 1]) + KeyOf(deals[|deals| - 1])
  }

  /** Call after call draws from the epochs of the log cut last, with the memory that the calls before have left. The
      logs may change between the calls in any way. */
  ghost predicate Dealt(known: set<seq<nat>>, deals: seq<Deal>)
    decreases |deals|
  {
    deals == []
    || (var front, last := deals[..|deals| - 1], deals[|deals| - 1];
        && Dealt(known, front) && last.log != []
        && Draws(Cut(last.log), KeysDealt(known, front), last.draws, last.isNew, last.state, KeysDealt(known, deals)))
  }

  /** What GenerateCrashState ensures makes its call the next one of such a run, whichever log is cut by then. */
  lemma DealtMore(known: set<seq<nat>>, deals: seq<Deal>, deal: Deal, after: set<seq<nat>>)
    requires Dealt(known, deals) && deal.log != []
    requires Draws(Cut(deal.log), KeysDealt(known, deals), deal.draws, deal.isNew, deal.state, after)
    ensures Dealt(known, deals + [deal]) && KeysDealt(known, deals + [deal]) == after
  {
    assert (deals + [deal])[..|deals|] == deals;
  }

  lemma {:induction false} KeysGrow(known: set<seq<nat>>, deals: seq<Deal>)
    ensures known <= KeysDealt(known, deals)
  {
    if deals != [] { KeysGrow(known, deals[..|deals| - 1]); }
  }

  /** A new state of a run is legal for the log cut last, and its index vector was not remembered. */
  lemma LastDeal(known: set<seq<nat>>, deals: seq<Deal>)
    requires deals != [] && Dealt(known, deals) && deals[|deals| - 1].isNew
    ensures var last := deals[|deals| - 1];
            && NonEmpty(Cut(last.log)) && Legal(Cut(last.log), last.state) && Key(last.state) in Keys(Cut(last.log))
            && Key(last.state) !in KeysDealt(known, deals[..|deals| - 1])
  {
    var front, last := deals[..|deals| - 1], deals[|deals| - 1];
    CutKeyed(last.log);
    FirstNewLegal(Cut(last.log), KeysDealt(known, front), last.draws, last.state);
    KeyOfLegal(Cut(last.log), last.state);
  }

  /** The index vectors handed out as new, from all logs together. */
  ghost function NewKeys(deals: seq<Deal>): seq<seq<nat>> {
    if deals == [] then []
    else
      var front, last := deals[..|deals| - 1], deals[|deals| - 1];
      NewKeys(front) + if last.isNew then [Key(last.state)] else []
  }

  /** ... and those handed out while a given log was the one cut last. */
  ghost function NewKeysOf(deals: seq<Deal>, log: seq<DiskWrite>): seq<seq<nat>> {
    if deals == [] then []
    else
      var front, last := deals[..|deals| - 1], deals[|deals| - 1];
      NewKeysOf(front, log) + if last.isNew && last.log == log then [Key(last.state)] else []
  }

  lemma DistinctMore<T>(s: seq<T>, x: T)
    requires Distinct(s) && x !in s
    ensures Distinct(s + [x])
  {
  }

  /** However cuts and calls follow one another: no index vector is handed out as new twice, nor one remembered at the
      start. */
  lemma {:induction false} DealsApart(known: set<seq<nat>>, deals: seq<Deal>)
    requires Dealt(known, deals)
    ensures Distinct(NewKeys(deals)) && forall key :: key in NewKeys(deals) ==> key !in known
    ensures forall key :: key in NewKeys(deals) ==> key in KeysDealt(known, deals)
    decreases |deals|
  {
    if deals != [] {
      var front, last := deals[..|deals| - 1], deals[|deals| - 1];
      DealsApart(known, front);
      if last.isNew {
        LastDeal(known, deals);
        KeysGrow(known, front);
        DistinctMore(NewKeys(front), Key(last.state));
      }
    }
  }

  lemma {:induction false} NewKeysOfLog(known: set<seq<nat>>, deals: seq<Deal>, log: seq<DiskWrite>)
    requires Dealt(known, deals)
    ensures Distinct(NewKeysOf(deals, log)) && NonEmpty(Cut(log))
    ensures forall key :: key in NewKeysOf(deals, log) ==> key in Keys(Cut(log)) && key !in known
    ensures forall key :: key in NewKeysOf(deals, log) ==> key in KeysDealt(known, deals)
    decreases |deals|
  {
    CutKeyed(log);
    if deals != [] {
      var front, last := deals[..|deals| - 1], deals[|deals| - 1];
      NewKeysOfLog(known, front, log);
      if last.isNew && last.log == log {
        LastDeal(known, deals);
        KeysGrow(known, front);
        DistinctMore(NewKeysOf(front, log), Key(last.state));
      }
    }
  }

  /** ... and of one log at most as many states are handed out as new as are legal and not remembered at the start,
      however often it is cut again and whatever is cut in between. */
  lemma DealsBound(known: set<seq<nat>>, deals: seq<Deal>, log: seq<DiskWrite>)
    requires Dealt(known, deals)
    ensures NonEmpty(Cut(log))
            && |NewKeysOf(deals, log)| + |known * Keys(Cut(log))| <= StateCount(Cut(log))
  {
    NewKeysOfLog(known, deals, log);
    CutKeyed(log);
    var keys, kept := NewKeysOf(deals, log), known * Keys(Cut(log));
    var added := set key | key in keys;
    DistinctSize(keys);
    assert added !! kept && |added + kept| == |added| + |kept|;
    SubsetSize(added + kept, Keys(Cut(log)));
    KeysSize(Cut(log));
  }

  lemma PlainLogCut(op: DiskWrite)
    requires !op.IsBarrierWrite()
    ensures Cut([op]) == [Epoch([EpochOp(0, op)], false, false)]
  {
    assert [] + Front([op], 0, None) == [EpochOp(0, op)];
    assert CutFrom([op], 0, [], None) == CutFrom([op], 1, [EpochOp(0, op)], None);
  }

  lemma OnlyPart(e: Epoch, part: seq<EpochOp>)
    requires |e.ops| == 1 && !e.hasBarrier
    ensures LegalPart(e, part) <==> part == e.ops
  {
    if LegalPart(e, part) {
      LegalPartLength(e, part);
      var idx :| LegalSelection(e, idx) && part == OpsAt(e, idx);
      assert part[0] == e.ops[idx[0]];
    }
    if part == e.ops {
      assert LegalSelection(e, [0]) && part == OpsAt(e, [0]);
    }
  }

  /** A log of one ordinary operation has one crash state. */
  lemma OnlyState(op: DiskWrite, state: seq<EpochOp>)
    requires !op.IsBarrierWrite()
    ensures Legal(Cut([op]), state) <==> state == [EpochOp(0, op)]
  {
    PlainLogCut(op);
    OnlyPart(Cut([op])[0], state);
    assert Cut([op])[1..] == [];
  }

  lemma OnlyKey(op: DiskWrite)
    ensures Key([EpochOp(0, op)]) == [0]
  {
  }

  lemma OnlyDraws(op: DiskWrite, draws: nat -> Choice, n: nat)
    requires !op.IsBarrierWrite() && Drawable(Cut([op]), draws)
    ensures KnownUpTo(Cut([op]), {[0]}, draws, n)
  {
    PlainLogCut(op);
    forall i | 0 <= i < n
      ensures Key(Gen(Cut([op]), draws(i))) in {[0]}
    {
      GenLegal(Cut([op]), draws(i));
      OnlyState(op, Gen(Cut([op]), draws(i)));
      OnlyKey(op);
    }
  }

  /** Where the memory that survives a new log does harm: once the only state of one single-write log has been handed
      out, no draws hand out the only state of another, which is legal and writes something else. */
  lemma StaleKeySuppresses(first: DiskWrite, second: DiskWrite)
    requires !first.IsBarrierWrite() && !second.IsBarrierWrite()
    ensures Legal(Cut([first]), [EpochOp(0, first)]) && Legal(Cut([second]), [EpochOp(0, second)])
    ensures var keys := {Key([EpochOp(0, first)])};
            forall draws: nat -> Choice :: Drawable(Cut([second]), draws) ==> Exhausted(Cut([second]), keys, draws)
  {
    OnlyState(first, [EpochOp(0, first)]);
    OnlyState(second, [EpochOp(0, second)]);
    OnlyKey(first);
    forall draws: nat -> Choice | Drawable(Cut([second]), draws)
      ensures Exhausted(Cut([second]), {[0]}, draws)
    {
      OnlyDraws(second, draws, MaxRetries(|{[0]}|));
    }
  }

  function Pending(waiting: bool, half: DiskWrite): Option<DiskWrite> {
    if waiting then Some(half) else None
  }

  lemma CutKeyed(log: seq<DiskWrite>)
    ensures NonEmpty(Cut(log)) && KeyedEpochs(Cut(log)) && (log != [] ==> Cut(log) != [])
  {
    CutShape(log);
    if log != [] { CutNonEmpty(log); }
  }

  /** The epochs cut from position `i` on, with `ops` collected and perhaps a data half waiting, are `cut`. */
  ghost predicate CutsTo(log: seq<DiskWrite>, i: nat, ops: seq<EpochOp>, waiting: bool, half: DiskWrite,
                         cut: seq<Epoch>)
  {
    i <= |log| && (waiting ==> i > 0) && CutFrom(log, i, ops, Pending(waiting, half)) == cut
  }

  lemma CutPlain(log: seq<DiskWrite>, i: nat, cur: seq<EpochOp>, pending: Option<DiskWrite>)
    requires i < |log| && (pending.Some? ==> i > 0) && !log[i].IsBarrierWrite()
    ensures CutFrom(log, i, cur, pending) == CutFrom(log, i + 1, cur + Front(log, i, pending), None)
  {
  }

  lemma CutBarrier(log: seq<DiskWrite>, i: nat, cur: seq<EpochOp>, pending: Option<DiskWrite>)
    requires i < |log| && (pending.Some? ==> i > 0) && log[i].IsBarrierWrite()
    ensures CutFrom(log, i, cur, pending)
         == [Epoch(cur + Front(log, i, pending), !log[i].IsSplit(), false)]
            + CutFrom(log, i + 1, [], Later(log, i, pending))
  {
  }
}
