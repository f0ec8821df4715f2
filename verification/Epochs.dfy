/** Cutting a recorded log into epochs, as a function of the log. */
module Epochs {
  import opened DiskOps
  import opened Finite
  import opened Wrappers

  datatype EpochOp = EpochOp(absIndex: nat, op: DiskWrite)

  datatype Epoch = Epoch(ops: seq<EpochOp>, hasBarrier: bool, overlaps: bool)

  /** What the log holds at position `i` when its turn comes: the operation or, if it is split, its flag
      half. In front of an ordinary operation stands the data half that waits since the last split
      operation, under the index before it. */
  function Front(log: seq<DiskWrite>, i: nat, pending: Option<DiskWrite>): (r: seq<EpochOp>)
    requires i < |log| && (pending.Some? ==> i > 0)
    ensures r != [] && r[|r| - 1].absIndex == i
  {
    if log[i].IsBarrierWrite() then [EpochOp(i, if log[i].IsSplit() then log[i].FlagHalf() else log[i])]
    else if pending.Some? then [EpochOp(i - 1, pending.value), EpochOp(i, log[i])]
    else [EpochOp(i, log[i])]
  }

  /** The data half that waits after position `i`. */
  function Later(log: seq<DiskWrite>, i: nat, pending: Option<DiskWrite>): Option<DiskWrite>
    requires i < |log|
  {
    if !log[i].IsBarrierWrite() then None
    else if log[i].IsSplit() then Some(log[i].DataHalf())
    else pending
  }

  /** What is collected for the current epoch after position `i`: a barrier write closes the epoch. */
  function Carry(log: seq<DiskWrite>, i: nat, cur: seq<EpochOp>, pending: Option<DiskWrite>): seq<EpochOp>
    requires i < |log| && (pending.Some? ==> i > 0)
  {
    if log[i].IsBarrierWrite() then [] else cur + Front(log, i, pending)
  }

  /** The epochs still to come at position `i`, when `cur` is already collected for the current one. */
  function CutFrom(log: seq<DiskWrite>, i: nat, cur: seq<EpochOp>, pending: Option<DiskWrite>): seq<Epoch>
    requires i <= |log| && (pending.Some? ==> i > 0)
    decreases |log| - i
  {
    if i == |log| then
      if cur == [] then [] else [Epoch(cur, false, false)]
    else
      var rest := CutFrom(log, i + 1, Carry(log, i, cur, pending), Later(log, i, pending));
      if log[i].IsBarrierWrite() then [Epoch(cur + Front(log, i, pending), !log[i].IsSplit(), false)] + rest
      else rest
  }

  function Cut(log: seq<DiskWrite>): seq<Epoch> {
    CutFrom(log, 0, [], None)
  }

  /** All operations of the epochs, in order. */
  function Flatten(epochs: seq<Epoch>): seq<EpochOp> {
    if epochs == [] then [] else epochs[0].ops + Flatten(epochs[1..])
  }

  function Ops(s: seq<EpochOp>): (r: seq<DiskWrite>)
    ensures |r| == |s| && forall j :: 0 <= j < |s| ==> r[j] == s[j].op
  {
    if s == [] then [] else [s[0].op] + Ops(s[1..])
  }

  lemma OpsAppend(a: seq<EpochOp>, b: seq<EpochOp>)
    ensures Ops(a + b) == Ops(a) + Ops(b)
  {
  }

  // ---------------------------------------------------------------- what is kept

  /** The intended expansion: every split operation becomes its flag half and its data half. */
  function Expand(log: seq<DiskWrite>, i: nat): seq<EpochOp>
    requires i <= |log|
    decreases |log| - i
  {
    if i == |log| then [] else Halves(log, i) + Expand(log, i + 1)
  }

  /** What the expansion holds for position `i`. */
  function Halves(log: seq<DiskWrite>, i: nat): seq<EpochOp>
    requires i < |log|
  {
    if log[i].IsSplit() then [EpochOp(i, log[i].FlagHalf()), EpochOp(i, log[i].DataHalf())] else [EpochOp(i, log[i])]
  }

  /** Every split operation is directly followed by an operation that is no barrier. */
  ghost predicate Clean(log: seq<DiskWrite>, from: nat) {
    forall j :: from <= j < |log| && log[j].IsSplit() ==> j + 1 < |log| && !log[j + 1].IsBarrierWrite()
  }

  /** What the epochs from position `i` on contain, without the epoch boundaries. */
  function Tail(log: seq<DiskWrite>, i: nat, pending: Option<DiskWrite>): seq<EpochOp>
    requires i <= |log| && (pending.Some? ==> i > 0)
    decreases |log| - i
  {
    if i == |log| then [] else Front(log, i, pending) + Tail(log, i + 1, Later(log, i, pending))
  }

  lemma FlattenCons(e: Epoch, rest: seq<Epoch>)
    ensures Flatten([e] + rest) == e.ops + Flatten(rest)
  {
    assert ([e] + rest)[1..] == rest;
  }

  ghost predicate FlattensTo(log: seq<DiskWrite>, i: nat, cur: seq<EpochOp>, pending: Option<DiskWrite>)
    requires i <= |log| && (pending.Some? ==> i > 0)
  {
    Flatten(CutFrom(log, i, cur, pending)) == cur + Tail(log, i, pending)
  }

  lemma FlattenStep(log: seq<DiskWrite>, i: nat, cur: seq<EpochOp>, pending: Option<DiskWrite>)
    requires i < |log| && (pending.Some? ==> i > 0)
    requires FlattensTo(log, i + 1, Carry(log, i, cur, pending), Later(log, i, pending))
    ensures FlattensTo(log, i, cur, pending)
  {
    var front, later := Front(log, i, pending), Later(log, i, pending);
    var tail := Tail(log, i + 1, later);
    Assoc(cur, front, tail);
    assert Tail(log, i, pending) == front + tail;
    if log[i].IsBarrierWrite() {
      var (e, rest) := (Epoch(cur + front, !log[i].IsSplit(), false), CutFrom(log, i + 1, [], later));
      assert Flatten(rest) == [] + tail == tail;
      FlattenCons(e, rest);
      assert CutFrom(log, i, cur, pending) == [e] + rest;
    } else {
      assert CutFrom(log, i, cur, pending) == CutFrom(log, i + 1, cur + front, later);
    }
  }

  lemma {:induction false} FlattenCut(log: seq<DiskWrite>, i: nat, cur: seq<EpochOp>, pending: Option<DiskWrite>)
    requires i <= |log| && (pending.Some? ==> i > 0)
    ensures FlattensTo(log, i, cur, pending)
    decreases |log| - i
  {
    if i == |log| {
      FlattenCons(Epoch(cur, false, false), []);
    } else {
      FlattenCut(log, i + 1, Carry(log, i, cur, pending), Later(log, i, pending));
      FlattenStep(log, i, cur, pending);
    }
  }

  lemma HalfFirst(log: seq<DiskWrite>, i: nat, half: DiskWrite)
    requires 0 < i < |log| && !log[i].IsBarrierWrite()
    ensures Tail(log, i, Some(half)) == [EpochOp(i - 1, half)] + Tail(log, i, None)
  {
  }

  lemma SplitTail(log: seq<DiskWrite>, i: nat)
    requires i + 1 < |log| && log[i].IsSplit() && !log[i + 1].IsBarrierWrite()
    ensures Tail(log, i, None)
         == [EpochOp(i, log[i].FlagHalf()), EpochOp(i, log[i].DataHalf())] + Tail(log, i + 1, None)
  {
    HalfFirst(log, i + 1, log[i].DataHalf());
    Assoc([EpochOp(i, log[i].FlagHalf())], [EpochOp(i, log[i].DataHalf())], Tail(log, i + 1, None));
  }

  lemma PlainTail(log: seq<DiskWrite>, i: nat)
    requires i < |log| && !log[i].IsSplit()
    ensures Tail(log, i, None) == [EpochOp(i, log[i])] + Tail(log, i + 1, None)
  {
  }

  lemma CleanStep(log: seq<DiskWrite>, i: nat)
    requires i < |log| && (log[i].IsSplit() ==> i + 1 < |log| && !log[i + 1].IsBarrierWrite())
    ensures Tail(log, i, None) == Halves(log, i) + Tail(log, i + 1, None)
  {
    if log[i].IsSplit() { SplitTail(log, i); } else { PlainTail(log, i); }
  }

  lemma {:induction false} CleanTail(log: seq<DiskWrite>, i: nat)
    requires i <= |log| && Clean(log, i)
    ensures Tail(log, i, None) == Expand(log, i)
    decreases |log| - i
  {
    if i < |log| {
      CleanTail(log, i + 1);
      CleanStep(log, i);
    }
  }

  lemma BarrierLeads(log: seq<DiskWrite>, i: nat, pending: Option<DiskWrite>)
    requires i < |log| && (pending.Some? ==> i > 0) && log[i].IsBarrierWrite()
    ensures Tail(log, i, pending) != [] && Tail(log, i, pending)[0].absIndex == i
  {
  }

  lemma {:induction false} UncleanTail(log: seq<DiskWrite>, i: nat)
    requires i <= |log| && !Clean(log, i)
    ensures Tail(log, i, None) != Expand(log, i)
    decreases |log| - i
  {
    if log[i].IsSplit() && (i + 1 == |log| || log[i + 1].IsBarrierWrite()) {
      if i + 1 < |log| {
        BarrierLeads(log, i + 1, Some(log[i].DataHalf()));
      }
      assert Expand(log, i)[1].absIndex == i;
    } else {
      UncleanTail(log, i + 1);
      CleanStep(log, i);
      if Tail(log, i, None) == Expand(log, i) {
        SameHead(Halves(log, i), Tail(log, i + 1, None), Expand(log, i + 1));
      }
    }
  }

  /** The epochs hold the intended expansion of the log exactly when every split operation is directly
      followed by an operation that is no barrier. */
  lemma CutKeepsLogIff(log: seq<DiskWrite>)
    ensures Flatten(Cut(log)) == Expand(log, 0) <==> Clean(log, 0)
  {
    FlattenCut(log, 0, [], None);
    if Clean(log, 0) {
      CleanTail(log, 0);
    } else {
      UncleanTail(log, 0);
    }
  }

  /** A waiting data half reaches an epoch: the first operation from `i` on that is not an unsplit
      barrier exists and is no barrier. */
  predicate Delivered(log: seq<DiskWrite>, i: nat)
    requires i <= |log|
    decreases |log| - i
  {
    i < |log| && (!log[i].IsBarrierWrite() || (!log[i].IsSplit() && Delivered(log, i + 1)))
  }

  /** The data halves of the split operations from `i` on that never get into an epoch. */
  function LostHalves(log: seq<DiskWrite>, i: nat): seq<DiskWrite>
    requires i <= |log|
    decreases |log| - i
  {
    if i == |log| then []
    else LostAt(log, i) + LostHalves(log, i + 1)
  }

  /** Conservation on every log: the operations of the epochs and the undelivered data halves together are the
      operations of the intended expansion, each as often as there. */
  lemma CutConserves(log: seq<DiskWrite>)
    ensures multiset(Ops(Flatten(Cut(log)))) + multiset(LostHalves(log, 0)) == multiset(Ops(Expand(log, 0)))
    ensures |Flatten(Cut(log))| + |LostHalves(log, 0)| == |Expand(log, 0)|
  {
    FlattenCut(log, 0, [], None);
    assert Flatten(Cut(log)) == Tail(log, 0, None);
    TailConserves(log, 0, None);
    assert |multiset(Ops(Flatten(Cut(log)))) + multiset(LostHalves(log, 0))| == |multiset(Ops(Expand(log, 0)))|;
  }

  /** The data half that waits at position `i`, if it still gets into an epoch. */
  function Owed(log: seq<DiskWrite>, i: nat, pending: Option<DiskWrite>): multiset<DiskWrite>
    requires i <= |log|
  {
    if pending.Some? && Delivered(log, i) then multiset{pending.value} else multiset{}
  }

  ghost predicate Conserved(log: seq<DiskWrite>, i: nat, pending: Option<DiskWrite>)
    requires i <= |log| && (pending.Some? ==> i > 0)
  {
    multiset(Ops(Tail(log, i, pending))) + multiset(LostHalves(log, i))
    == multiset(Ops(Expand(log, i))) + Owed(log, i, pending)
  }

  lemma FrontOps(log: seq<DiskWrite>, i: nat, pending: Option<DiskWrite>)
    requires i < |log| && (pending.Some? ==> i > 0)
    ensures multiset(Ops(Front(log, i, pending)))
         == (if pending.Some? && !log[i].IsBarrierWrite() then multiset{pending.value} else multiset{})
            + multiset{if log[i].IsSplit() then log[i].FlagHalf() else log[i]}
  {
    var front := Front(log, i, pending);
    if log[i].IsBarrierWrite() || pending.None? {
      assert Ops(front) == [front[0].op];
    } else {
      assert Ops(front) == [front[0].op, front[1].op];
    }
  }

  lemma HalvesOps(log: seq<DiskWrite>, i: nat)
    requires i < |log|
    ensures multiset(Ops(Halves(log, i)))
         == if log[i].IsSplit() then multiset{log[i].FlagHalf()} + multiset{log[i].DataHalf()} else multiset{log[i]}
  {
    OpsOfHalves(log, i);
  }

  /** The data half that position `i` loses for good. */
  function LostAt(log: seq<DiskWrite>, i: nat): seq<DiskWrite>
    requires i < |log|
  {
    if log[i].IsSplit() && !Delivered(log, i + 1) then [log[i].DataHalf()] else []
  }

  lemma BalanceAt(log: seq<DiskWrite>, i: nat, pending: Option<DiskWrite>)
    requires i < |log| && (pending.Some? ==> i > 0)
    ensures multiset(Ops(Front(log, i, pending))) + multiset(LostAt(log, i)) + Owed(log, i + 1, Later(log, i, pending))
         == multiset(Ops(Halves(log, i))) + Owed(log, i, pending)
  {
    FrontOps(log, i, pending);
    HalvesOps(log, i);
  }

  lemma Balance<T>(f: multiset<T>, l: multiset<T>, o': multiset<T>, h: multiset<T>, o: multiset<T>,
                   t: multiset<T>, k: multiset<T>, e: multiset<T>)
    requires f + l + o' == h + o && t + k == e + o'
    ensures (f + t) + (l + k) == (h + e) + o
  {
    forall x: T
      ensures ((f + t) + (l + k))[x] == ((h + e) + o)[x]
    {
      assert (f + l + o')[x] == (h + o)[x] && (t + k)[x] == (e + o')[x];
    }
  }

  lemma ConserveStep(log: seq<DiskWrite>, i: nat, pending: Option<DiskWrite>)
    requires i < |log| && (pending.Some? ==> i > 0) && Conserved(log, i + 1, Later(log, i, pending))
    ensures Conserved(log, i, pending)
  {
    var later := Later(log, i, pending);
    var front, tail := Front(log, i, pending), Tail(log, i + 1, later);
    OpsAppend(front, tail);
    OpsAppend(Halves(log, i), Expand(log, i + 1));
    BalanceAt(log, i, pending);
    Balance(multiset(Ops(front)), multiset(LostAt(log, i)), Owed(log, i + 1, later), multiset(Ops(Halves(log, i))),
            Owed(log, i, pending), multiset(Ops(tail)), multiset(LostHalves(log, i + 1)),
            multiset(Ops(Expand(log, i + 1))));
  }

  lemma {:induction false} TailConserves(log: seq<DiskWrite>, i: nat, pending: Option<DiskWrite>)
    requires i <= |log| && (pending.Some? ==> i > 0)
    ensures Conserved(log, i, pending)
    decreases |log| - i
  {
    if i < |log| {
      TailConserves(log, i + 1, Later(log, i, pending));
      ConserveStep(log, i, pending);
    }
  }

  // ---------------------------------------------------------------- what replay makes of it

  lemma SplitReplay(img: Image, op: DiskWrite)
    requires op.IsSplit() && Fits(op, |img|)
    ensures AllFit([op.FlagHalf(), op.DataHalf()], |img|)
    ensures Replay(img, [op.FlagHalf(), op.DataHalf()]) == Apply(img, op)
  {
    SplitMovesFlushFlags(op);
    var both := [op.FlagHalf(), op.DataHalf()];
    assert Fits(both[0], |img|) && Fits(both[1], |img|);
    ReplayFirst(img, both);
    ReplayFirst(img, [both[1]]);
    assert both[1..] == [both[1]];
  }

  lemma OpsOfHalves(log: seq<DiskWrite>, i: nat)
    requires i < |log|
    ensures Ops(Halves(log, i)) == if log[i].IsSplit() then [log[i].FlagHalf(), log[i].DataHalf()] else [log[i]]
  {
    assert |Halves(log, i)| <= 2;
  }

  lemma HalvesReplay(img: Image, log: seq<DiskWrite>, i: nat)
    requires i < |log| && Fits(log[i], |img|)
    ensures AllFit(Ops(Halves(log, i)), |img|)
    ensures Replay(img, Ops(Halves(log, i))) == Apply(img, log[i])
  {
    OpsOfHalves(log, i);
    if log[i].IsSplit() {
      SplitReplay(img, log[i]);
    } else {
      ReplayFirst(img, [log[i]]);
    }
  }

  /** Replaying a split operation and replaying its two halves is the same. */
  lemma {:induction false} ExpandReplay(img: Image, log: seq<DiskWrite>, i: nat)
    requires i <= |log| && AllFit(log, |img|)
    ensures AllFit(Ops(Expand(log, i)), |img|)
    ensures Replay(img, Ops(Expand(log, i))) == Replay(img, log[i..])
    decreases |log| - i
  {
    if i < |log| {
      var head, rest := Ops(Halves(log, i)), Ops(Expand(log, i + 1));
      HalvesReplay(img, log, i);
      var after := Apply(img, log[i]);
      ExpandReplay(after, log, i + 1);
      OpsAppend(Halves(log, i), Expand(log, i + 1));
      ReplayAppend(img, head, rest);
      ReplayFirst(img, log[i..]);
      assert log[i..][1..] == log[i + 1..];
    }
  }

  /** Cutting a clean log into epochs and replaying all of them gives the image of the raw log. */
  lemma CutReplay(img: Image, log: seq<DiskWrite>)
    requires AllFit(log, |img|) && Clean(log, 0)
    ensures AllFit(Ops(Flatten(Cut(log))), |img|)
    ensures Replay(img, Ops(Flatten(Cut(log)))) == Replay(img, log)
  {
    CutKeepsLogIff(log);
    ExpandReplay(img, log, 0);
    assert log[0..] == log;
  }

  /** Without that condition it need not: a log that ends in a flush carrying data. */
  lemma LastFlushLosesData(img: Image, op: DiskWrite)
    requires op.IsSplit() && Fits(op, |img|)
    ensures !Clean([op], 0)
    ensures AllFit(Ops(Flatten(Cut([op]))), |img|) && Replay(img, Ops(Flatten(Cut([op])))) == img
    ensures Replay(img, [op]) == Laid(img, SECTOR_SIZE * op.meta.sector, op.data)
  {
    SplitMovesFlushFlags(op);
    FlattenCut([op], 0, [], None);
    var flag := EpochOp(0, op.FlagHalf());
    assert Tail([op], 0, None) == [flag];
    assert Ops([flag]) == [flag.op];
    assert [flag.op][..0] == [] && [op][..0] == [];
  }

  // ---------------------------------------------------------------- shape

  ghost predicate Increasing(ops: seq<EpochOp>) {
    forall i, j :: 0 <= i < j < |ops| ==> ops[i].absIndex < ops[j].absIndex
  }

  ghost predicate ShapedEpoch(e: Epoch) {
    && e.ops != [] && Increasing(e.ops) && !e.overlaps
    && (e.hasBarrier <==> e.ops[|e.ops| - 1].op.IsBarrierWrite())
  }

  /** Epochs are non-empty, indices grow inside an epoch and never fall from one to the next, the
      barrier flag says whether the last operation is a barrier write, and the overlap flag is off. */
  ghost predicate Shaped(epochs: seq<Epoch>) {
    && (forall e :: 0 <= e < |epochs| ==> ShapedEpoch(epochs[e]))
    && (forall e, f :: 0 <= e < f < |epochs| ==>
          epochs[e].ops[|epochs[e].ops| - 1].absIndex <= epochs[f].ops[0].absIndex)
  }

  ghost predicate ShapedFrom(epochs: seq<Epoch>, low: int) {
    Shaped(epochs) && forall e :: 0 <= e < |epochs| ==> low <= epochs[e].ops[0].absIndex
  }

  lemma ShapedCons(e: Epoch, rest: seq<Epoch>, low: int)
    requires ShapedEpoch(e) && low <= e.ops[0].absIndex
    requires ShapedFrom(rest, e.ops[|e.ops| - 1].absIndex)
    ensures ShapedFrom([e] + rest, low)
  {
    var all := [e] + rest;
    forall f | 0 <= f < |all|
      ensures ShapedEpoch(all[f]) && low <= all[f].ops[0].absIndex
    {
      assert f > 0 ==> all[f] == rest[f - 1];
      assert e.ops[0].absIndex <= e.ops[|e.ops| - 1].absIndex;
    }
    forall f, g | 0 <= f < g < |all|
      ensures all[f].ops[|all[f].ops| - 1].absIndex <= all[g].ops[0].absIndex
    {
      assert all[g] == rest[g - 1] && (f > 0 ==> all[f] == rest[f - 1]);
    }
  }

  ghost predicate Collected(cur: seq<EpochOp>, i: nat) {
    && Increasing(cur)
    && (forall j :: 0 <= j < |cur| ==> cur[j].absIndex < i)
    && (cur != [] ==> !cur[|cur| - 1].op.IsBarrierWrite())
  }

  lemma CollectMore(log: seq<DiskWrite>, i: nat, cur: seq<EpochOp>, pending: Option<DiskWrite>)
    requires i < |log| && (pending.Some? ==> i > 0 && cur == []) && Collected(cur, i)
    requires !log[i].IsBarrierWrite()
    ensures Collected(cur + Front(log, i, pending), i + 1)
  {
  }

  lemma CloseEpoch(log: seq<DiskWrite>, i: nat, cur: seq<EpochOp>, pending: Option<DiskWrite>)
    requires i < |log| && (pending.Some? ==> i > 0) && Collected(cur, i)
    requires log[i].IsBarrierWrite()
    ensures ShapedEpoch(Epoch(cur + Front(log, i, pending), !log[i].IsSplit(), false))
  {
    if log[i].IsSplit() { SplitMovesFlushFlags(log[i]); }
  }

  /** The smallest index that can still be used at position `i`. */
  function Low(i: nat, cur: seq<EpochOp>, pending: Option<DiskWrite>): int {
    if cur != [] then cur[0].absIndex else if pending.Some? then i - 1 else i
  }

  ghost predicate ShapedAt(log: seq<DiskWrite>, i: nat, cur: seq<EpochOp>, pending: Option<DiskWrite>)
    requires i <= |log| && (pending.Some? ==> i > 0)
  {
    ShapedFrom(CutFrom(log, i, cur, pending), Low(i, cur, pending))
  }

  lemma ShapeStep(log: seq<DiskWrite>, i: nat, cur: seq<EpochOp>, pending: Option<DiskWrite>)
    requires i < |log| && (pending.Some? ==> i > 0 && cur == []) && Collected(cur, i)
    requires ShapedAt(log, i + 1, Carry(log, i, cur, pending), Later(log, i, pending))
    ensures ShapedAt(log, i, cur, pending)
  {
    var front, later := Front(log, i, pending), Later(log, i, pending);
    if log[i].IsBarrierWrite() {
      CloseEpoch(log, i, cur, pending);
      var e := Epoch(cur + front, !log[i].IsSplit(), false);
      assert e.ops[|e.ops| - 1].absIndex == i <= Low(i + 1, [], later);
      ShapedCons(e, CutFrom(log, i + 1, [], later), Low(i, cur, pending));
    }
  }

  lemma {:induction false} ShapeFrom(log: seq<DiskWrite>, i: nat, cur: seq<EpochOp>, pending: Option<DiskWrite>)
    requires i <= |log| && (pending.Some? ==> i > 0 && cur == []) && Collected(cur, i)
    ensures ShapedAt(log, i, cur, pending)
    decreases |log| - i
  {
    if i < |log| {
      if !log[i].IsBarrierWrite() { CollectMore(log, i, cur, pending); }
      ShapeFrom(log, i + 1, Carry(log, i, cur, pending), Later(log, i, pending));
      ShapeStep(log, i, cur, pending);
    }
  }

  lemma CutShape(log: seq<DiskWrite>)
    ensures Shaped(Cut(log))
  {
    ShapeFrom(log, 0, [], None);
  }

  lemma CutNonEmpty(log: seq<DiskWrite>)
    requires log != []
    ensures Cut(log) != []
  {
    FlattenCut(log, 0, [], None);
    assert Tail(log, 0, None) != [];
  }

  // ---------------------------------------------------------------- barriers inside an epoch

  ghost predicate NoBarriers(ops: seq<EpochOp>) {
    forall j :: 0 <= j < |ops| ==> !ops[j].op.IsBarrierWrite()
  }

  /** Barrier writes stand only at the end of their epoch. */
  ghost predicate BarriersLast(epochs: seq<Epoch>) {
    forall e :: 0 <= e < |epochs| ==> epochs[e].ops != [] && NoBarriers(epochs[e].ops[..|epochs[e].ops| - 1])
  }

  /** Some split operation from `from` on has the soft barrier flag and gets its data half delivered. */
  ghost predicate SoftHalf(log: seq<DiskWrite>, from: nat) {
    exists s :: from <= s < |log| && log[s].IsSplit() && log[s].HasSoftBarrier() && Delivered(log, s + 1)
  }

  lemma BarriersLastCons(e: Epoch, rest: seq<Epoch>)
    requires e.ops != []
    ensures BarriersLast([e] + rest) <==> NoBarriers(e.ops[..|e.ops| - 1]) && BarriersLast(rest)
  {
    var all := [e] + rest;
    assert all[0] == e && all[1..] == rest;
    if BarriersLast(all) {
      forall f | 0 <= f < |rest|
        ensures rest[f].ops != [] && NoBarriers(rest[f].ops[..|rest[f].ops| - 1])
      {
        assert all[f + 1] == rest[f];
      }
    }
  }

  lemma NoBarriersAppend(a: seq<EpochOp>, b: seq<EpochOp>)
    ensures NoBarriers(a + b) <==> NoBarriers(a) && NoBarriers(b)
  {
    if NoBarriers(a + b) {
      assert forall j :: 0 <= j < |a| ==> a[j] == (a + b)[j];
      assert forall j :: 0 <= j < |b| ==> b[j] == (a + b)[|a| + j];
    }
  }

  lemma SoftHalfStep(log: seq<DiskWrite>, i: nat)
    requires i < |log|
    ensures SoftHalf(log, i) <==>
            (log[i].IsSplit() && log[i].HasSoftBarrier() && Delivered(log, i + 1)) || SoftHalf(log, i + 1)
  {
  }

  ghost predicate SoftDelivered(log: seq<DiskWrite>, i: nat, pending: Option<DiskWrite>)
    requires i <= |log|
  {
    pending.Some? && pending.value.HasSoftBarrier() && Delivered(log, i)
  }

  lemma FrontBarriers(log: seq<DiskWrite>, i: nat, cur: seq<EpochOp>, pending: Option<DiskWrite>)
    requires i < |log| && (pending.Some? ==> i > 0) && !log[i].IsBarrierWrite()
    requires pending.Some? ==> (pending.value.IsBarrierWrite() <==> pending.value.HasSoftBarrier())
    ensures NoBarriers(cur + Front(log, i, pending)) <==> NoBarriers(cur) && !SoftDelivered(log, i, pending)
  {
    var front := Front(log, i, pending);
    NoBarriersAppend(cur, front);
    assert pending.Some? ==> front[0].op == pending.value;
    assert front[|front| - 1].op == log[i];
  }

  lemma LaterSoft(log: seq<DiskWrite>, i: nat, pending: Option<DiskWrite>)
    requires i < |log| && log[i].IsBarrierWrite()
    ensures SoftDelivered(log, i + 1, Later(log, i, pending)) || SoftHalf(log, i + 1)
       <==> SoftDelivered(log, i, pending) || SoftHalf(log, i)
    ensures log[i].IsSplit() ==> var half := log[i].DataHalf(); half.IsBarrierWrite() <==> half.HasSoftBarrier()
  {
    SoftHalfStep(log, i);
    if log[i].IsSplit() { SplitMovesFlushFlags(log[i]); }
  }

  ghost predicate BarriersLastAt(log: seq<DiskWrite>, i: nat, cur: seq<EpochOp>, pending: Option<DiskWrite>)
    requires i <= |log| && (pending.Some? ==> i > 0)
  {
    BarriersLast(CutFrom(log, i, cur, pending)) <==>
    NoBarriers(cur) && !SoftDelivered(log, i, pending) && !SoftHalf(log, i)
  }

  ghost predicate HalfKept(pending: Option<DiskWrite>) {
    pending.Some? ==> (pending.value.IsBarrierWrite() <==> pending.value.HasSoftBarrier())
  }

  lemma BarriersStep(log: seq<DiskWrite>, i: nat, cur: seq<EpochOp>, pending: Option<DiskWrite>)
    requires i < |log| && (pending.Some? ==> i > 0 && cur == []) && HalfKept(pending)
    requires BarriersLastAt(log, i + 1, Carry(log, i, cur, pending), Later(log, i, pending))
    ensures BarriersLastAt(log, i, cur, pending)
  {
    var front, later := Front(log, i, pending), Later(log, i, pending);
    if log[i].IsBarrierWrite() {
      LaterSoft(log, i, pending);
      BarriersLastCons(Epoch(cur + front, !log[i].IsSplit(), false), CutFrom(log, i + 1, [], later));
      assert (cur + front)[..|cur|] == cur;
    } else {
      SoftHalfStep(log, i);
      FrontBarriers(log, i, cur, pending);
    }
  }

  lemma {:induction false} BarriersFrom(log: seq<DiskWrite>, i: nat, cur: seq<EpochOp>, pending: Option<DiskWrite>)
    requires i <= |log| && (pending.Some? ==> i > 0 && cur == []) && HalfKept(pending)
    requires cur != [] ==> !cur[|cur| - 1].op.IsBarrierWrite()
    ensures BarriersLastAt(log, i, cur, pending)
    decreases |log| - i
  {
    if i == |log| {
      if cur != [] {
        BarriersLastCons(Epoch(cur, false, false), []);
        NoBarriersAppend(cur[..|cur| - 1], cur[|cur| - 1..]);
        assert cur == cur[..|cur| - 1] + cur[|cur| - 1..];
      }
    } else {
      if log[i].IsBarrierWrite() { LaterSoft(log, i, pending); }
      BarriersFrom(log, i + 1, Carry(log, i, cur, pending), Later(log, i, pending));
      BarriersStep(log, i, cur, pending);
    }
  }

  /** Barrier writes end their epoch in all epochs of a log, unless a delivered data half keeps the
      soft barrier flag of its split operation. */
  lemma BarriersLastIff(log: seq<DiskWrite>)
    ensures BarriersLast(Cut(log)) <==> !SoftHalf(log, 0)
  {
    BarriersFrom(log, 0, [], None);
  }

  // ---------------------------------------------------------------- inputs at which the intent fails

  const FLUSHED_SOFT: bv64 := REQ_WRITE | REQ_FLUSH | REQ_SOFTBARRIER

  /** A flush with data and the soft barrier flag, then an ordinary write: the second epoch starts with a barrier
      write and goes on behind it. */
  lemma SoftHalfInside(flushed: DiskWrite, plain: DiskWrite)
    requires flushed.meta.biRw == FLUSHED_SOFT && plain.meta.biRw == REQ_WRITE
    ensures !BarriersLast(Cut([flushed, plain]))
  {
    var log := [flushed, plain];
    assert flushed.IsSplit() && flushed.HasSoftBarrier() && !plain.IsBarrierWrite();
    assert Delivered(log, 1);
    BarriersLastIff(log);
    assert SoftHalf(log, 0) by {
      assert log[0].IsSplit() && log[0].HasSoftBarrier() && Delivered(log, 0 + 1);
    }
  }

  /** Two ordinary writes that share a byte: their epoch is not flagged as overlapping. */
  lemma OverlapUnflagged(first: DiskWrite, second: DiskWrite, a: nat)
    requires first.meta.biRw == REQ_WRITE && second.meta.biRw == REQ_WRITE && Covers(first, a) && Covers(second, a)
    ensures Cut([first, second]) == [Epoch([EpochOp(0, first), EpochOp(1, second)], false, false)]
    ensures !Disjoint(Ops(Cut([first, second])[0].ops))
  {
    var log := [first, second];
    assert !first.IsBarrierWrite() && !second.IsBarrierWrite();
    var e0, e1 := EpochOp(0, first), EpochOp(1, second);
    assert [] + Front(log, 0, None) == [e0] && [e0] + Front(log, 1, None) == [e0, e1];
    assert CutFrom(log, 0, [], None) == CutFrom(log, 1, [e0], None);
    assert CutFrom(log, 1, [e0], None) == CutFrom(log, 2, [e0, e1], None);
    var ops := Ops([e0, e1]);
    assert ops[0] == first && ops[1] == second;
    assert Covers(ops[0], a) && Covers(ops[1], a);
  }
}
