/** What the barriers of a log mean for its epochs and its crash states, said in terms of positions of the log and of
    the bits of its flag words. */
module EpochOrder {
  import opened CrashStates
  import opened DiskOps
  import opened Epochs
  import opened Finite
  import opened Shuffle
  import opened Wrappers

  predicate BarrierAt(log: seq<DiskWrite>, i: nat)
    requires i < |log|
  {
    BarrierBits(log[i].meta.biRw)
  }

  predicate SplitAt(log: seq<DiskWrite>, i: nat)
    requires i < |log|
  {
    SplitBits(log[i].meta.biRw)
  }

  lemma BitsAt(log: seq<DiskWrite>, i: nat)
    requires i < |log|
    ensures log[i].IsBarrierWrite() <==> BarrierAt(log, i)
    ensures log[i].IsSplit() <==> SplitAt(log, i)
  {
    FlagWords(log[i]);
  }

  /** How many barriers stand in front of position `i`. */
  function Bars(log: seq<DiskWrite>, i: nat): nat
    requires i <= |log|
  {
    if i == 0 then 0 else Bars(log, i - 1) + if BarrierAt(log, i - 1) then 1 else 0
  }

  lemma {:induction false} BarsGrow(log: seq<DiskWrite>, p: nat, q: nat)
    requires p <= q <= |log|
    ensures Bars(log, p) <= Bars(log, q)
    ensures Bars(log, p) == Bars(log, q) <==> forall b :: p <= b < q ==> !BarrierAt(log, b)
    decreases q
  {
    if p < q {
      BarsGrow(log, p, q - 1);
    }
  }

  /** What the epochs hold for position `i` itself: the operation, or the flag half of a split one. */
  function Own(log: seq<DiskWrite>, i: nat): EpochOp
    requires i < |log|
  {
    EpochOp(i, if SplitAt(log, i) then log[i].FlagHalf() else log[i])
  }

  /** The data half that waits in front of position `i`: that of the last split operation before it, if only barriers
      that are not split stand between them. */
  function Waiting(log: seq<DiskWrite>, i: nat): Option<DiskWrite>
    requires i <= |log|
  {
    if i == 0 || !BarrierAt(log, i - 1) then None
    else if SplitAt(log, i - 1) then Some(log[i - 1].DataHalf())
    else Waiting(log, i - 1)
  }

  /** `x` is what epoch number `e` holds for a position from `from` on. */
  predicate OwnIn(log: seq<DiskWrite>, from: nat, e: nat, x: EpochOp) {
    from <= x.absIndex < |log| && x == Own(log, x.absIndex) && Bars(log, x.absIndex) == e
  }

  /** `x` is a data half that waits in front of an ordinary operation of epoch number `e`, at a position from `from`
      on. */
  predicate HalfIn(log: seq<DiskWrite>, from: nat, e: nat, x: EpochOp) {
    var q := x.absIndex + 1;
    from <= q < |log| && !BarrierAt(log, q) && Waiting(log, q) == Some(x.op) && Bars(log, q) == e
  }

  predicate MemberOf(log: seq<DiskWrite>, from: nat, e: nat, x: EpochOp) {
    OwnIn(log, from, e, x) || HalfIn(log, from, e, x)
  }

  /** The epochs cut from position `i` on hold exactly the members from there on, and in front of them, in the first
      epoch, what was collected already. */
  ghost predicate HoldsFrom(log: seq<DiskWrite>, i: nat, cur: seq<EpochOp>, es: seq<Epoch>, e: nat, x: EpochOp)
    requires i <= |log|
  {
    var f := e - Bars(log, i);
    (0 <= f < |es| && x in es[f].ops) <==> (f == 0 && x in cur) || MemberOf(log, i, e, x)
  }

  ghost predicate CutHolds(log: seq<DiskWrite>, i: nat, cur: seq<EpochOp>, pending: Option<DiskWrite>, e: nat,
                           x: EpochOp)
    requires i <= |log| && (pending.Some? ==> i > 0)
  {
    HoldsFrom(log, i, cur, CutFrom(log, i, cur, pending), e, x)
  }

  /** What position `i` adds. */
  lemma MembersAt(log: seq<DiskWrite>, i: nat, pending: Option<DiskWrite>, e: nat, x: EpochOp)
    requires i < |log| && (pending.Some? ==> i > 0) && pending == Waiting(log, i)
    ensures MemberOf(log, i, e, x) <==> (e == Bars(log, i) && x in Front(log, i, pending)) || MemberOf(log, i + 1, e, x)
  {
    BitsAt(log, i);
    if log[i].IsBarrierWrite() || pending.None? {
      assert x in Front(log, i, pending) <==> x == Own(log, i);
    } else {
      assert x in Front(log, i, pending) <==> x == Own(log, i) || x == EpochOp(i - 1, pending.value);
    }
  }

  lemma WaitingNext(log: seq<DiskWrite>, i: nat, pending: Option<DiskWrite>)
    requires i < |log| && (pending.Some? ==> i > 0) && pending == Waiting(log, i)
    ensures Later(log, i, pending) == Waiting(log, i + 1)
  {
    BitsAt(log, i);
  }

  lemma CutHoldsStep(log: seq<DiskWrite>, i: nat, cur: seq<EpochOp>, pending: Option<DiskWrite>, e: nat, x: EpochOp)
    requires i < |log| && (pending.Some? ==> i > 0) && pending == Waiting(log, i)
    requires CutHolds(log, i + 1, Carry(log, i, cur, pending), Later(log, i, pending), e, x)
    ensures CutHolds(log, i, cur, pending, e, x)
  {
    BitsAt(log, i);
    MembersAt(log, i, pending, e, x);
    var front, f := Front(log, i, pending), e - Bars(log, i);
    assert x in cur + front <==> x in cur || x in front;
    var rest := CutFrom(log, i + 1, Carry(log, i, cur, pending), Later(log, i, pending));
    var es := CutFrom(log, i, cur, pending);
    if log[i].IsBarrierWrite() {
      assert es == [Epoch(cur + front, !log[i].IsSplit(), false)] + rest;
      assert MemberOf(log, i + 1, e, x) ==> e >= Bars(log, i + 1) by { LaterMember(log, i + 1, e, x); }
      assert f > 0 ==> (f < |es| <==> f - 1 < |rest|) && (f < |es| ==> es[f] == rest[f - 1]);
    } else {
      assert es == rest;
    }
  }

  lemma LaterMember(log: seq<DiskWrite>, i: nat, e: nat, x: EpochOp)
    requires i <= |log|
    ensures MemberOf(log, i, e, x) ==> e >= Bars(log, i)
  {
    if OwnIn(log, i, e, x) { BarsGrow(log, i, x.absIndex); }
    if HalfIn(log, i, e, x) { BarsGrow(log, i, x.absIndex + 1); }
  }

  lemma {:induction false} CutHoldsFrom(log: seq<DiskWrite>, i: nat, cur: seq<EpochOp>, pending: Option<DiskWrite>,
                                        e: nat, x: EpochOp)
    requires i <= |log| && (pending.Some? ==> i > 0) && pending == Waiting(log, i)
    ensures CutHolds(log, i, cur, pending, e, x)
    decreases |log| - i
  {
    if i < |log| {
      WaitingNext(log, i, pending);
      CutHoldsFrom(log, i + 1, Carry(log, i, cur, pending), Later(log, i, pending), e, x);
      CutHoldsStep(log, i, cur, pending, e, x);
    }
  }

  /** The members of each epoch, bit by bit. Epoch number `e` holds exactly: for every position with `e` barriers in
      front of it, its operation, or its flag half if it is split; and for every such position that is no barrier, the
      data half that waits in front of it, under the index before. */
  lemma EpochMembersIff(log: seq<DiskWrite>, e: nat, x: EpochOp)
    ensures (e < |Cut(log)| && x in Cut(log)[e].ops) <==> MemberOf(log, 0, e, x)
  {
    CutHoldsFrom(log, 0, [], None, e, x);
  }

  lemma {:induction false} CutSizeFrom(log: seq<DiskWrite>, i: nat, cur: seq<EpochOp>, pending: Option<DiskWrite>)
    requires i <= |log| && (pending.Some? ==> i > 0) && (cur == [] <==> i == 0 || BarrierAt(log, i - 1))
    ensures |CutFrom(log, i, cur, pending)| + Bars(log, i)
         == Bars(log, |log|) + if log == [] || BarrierAt(log, |log| - 1) then 0 else 1
    decreases |log| - i
  {
    if i < |log| {
      BitsAt(log, i);
      CutSizeFrom(log, i + 1, Carry(log, i, cur, pending), Later(log, i, pending));
    }
  }

  /** There is one epoch for each barrier, and one more if the log does not end in one. */
  lemma EpochCount(log: seq<DiskWrite>)
    ensures |Cut(log)| == Bars(log, |log|) + if log == [] || BarrierAt(log, |log| - 1) then 0 else 1
  {
    CutSizeFrom(log, 0, [], None);
  }

  /** Two operations share an epoch only if no position from the first up to just before the second carries the bits of
      a barrier; behind a data half, which stands in front of its own position's successor, from that successor on. */
  lemma SharedEpoch(log: seq<DiskWrite>, e: nat, x: EpochOp, y: EpochOp, b: nat)
    requires e < |Cut(log)| && x in Cut(log)[e].ops && y in Cut(log)[e].ops
    requires x.absIndex < b < y.absIndex || (b == x.absIndex < y.absIndex && !HalfIn(log, 0, e, x))
    ensures b < |log| && !(log[b].meta.biRw & 0x1 != 0 && log[b].meta.biRw & 0x801_1800 != 0)
  {
    EpochMembersIff(log, e, x);
    EpochMembersIff(log, e, y);
    var p := if OwnIn(log, 0, e, x) then x.absIndex else x.absIndex + 1;
    var q := if OwnIn(log, 0, e, y) then y.absIndex else y.absIndex + 1;
    assert Bars(log, p) == e == Bars(log, q) && p <= b < q;
    BarsGrow(log, p, q);
    assert !BarrierAt(log, b);
  }

  // ---------------------------------------------------------------- crash states

  /** All operations of an epoch are among those of the state. */
  ghost predicate Contains(s: seq<EpochOp>, ops: seq<EpochOp>) {
    forall x :: x in ops ==> x in s
  }

  lemma FullContains(e: Epoch, part: seq<EpochOp>)
    requires e.ops != [] && FullPart(e, part)
    ensures Contains(part, e.ops)
  {
    if e.overlaps {
      var idx :| LegalSelection(e, idx) && part == OpsAt(e, idx);
      forall x | x in e.ops
        ensures x in part
      {
        var i :| 0 <= i < |e.ops| && e.ops[i] == x;
        DistinctIsOnto(idx, i);
        var j :| 0 <= j < |idx| && idx[j] == i;
        assert part[j] == x;
      }
    }
  }

  /** If the operation is the flagged barrier of the epoch, the others of the epoch are in front of it. */
  ghost predicate BarrierLast(e: Epoch, front: seq<EpochOp>, op: EpochOp)
    requires e.ops != []
  {
    e.hasBarrier && op == e.ops[|e.ops| - 1] ==> Contains(front, e.ops[..|e.ops| - 1])
  }

  /** Place `k` of the state belongs to epoch `f`: the epochs before it are complete in front of that place, and a
      flagged barrier comes last in its own. */
  ghost predicate BelongsTo(epochs: seq<Epoch>, s: seq<EpochOp>, k: nat, f: nat)
    requires k < |s|
  {
    && f < |epochs| && s[k] in epochs[f].ops && BarrierLast(epochs[f], s[..k], s[k])
    && forall g :: 0 <= g < f ==> Contains(s[..k], epochs[g].ops)
  }

  lemma PartBarrierLast(e: Epoch, part: seq<EpochOp>, k: nat)
    requires LegalPart(e, part) && k < |part| && Increasing(e.ops)
    ensures part[k] in e.ops && BarrierLast(e, part[..k], part[k])
  {
    var n := |e.ops|;
    var idx :| LegalSelection(e, idx) && part == OpsAt(e, idx);
    assert part[k] == e.ops[idx[k]];
    if e.hasBarrier && part[k] == e.ops[n - 1] {
      assert idx[k] == n - 1 && |idx| == n && k == n - 1;
      forall x | x in e.ops[..n - 1]
        ensures x in part[..k]
      {
        var i :| 0 <= i < n - 1 && e.ops[i] == x;
        DistinctIsOnto(idx, i);
        var j :| 0 <= j < |idx| && idx[j] == i;
        assert part[..k][j] == x;
      }
    }
  }

  lemma FullBarrierLast(e: Epoch, part: seq<EpochOp>, k: nat)
    requires e.ops != [] && FullPart(e, part) && k < |part| && Increasing(e.ops)
    ensures part[k] in e.ops && BarrierLast(e, part[..k], part[k])
  {
    if e.overlaps { PartBarrierLast(e, part, k); }
  }

  lemma BelongsLater(epochs: seq<Epoch>, s: seq<EpochOp>, k: nat, f: nat)
    requires epochs != [] && epochs[0].ops != []
    requires var n := |epochs[0].ops|;
             n <= k < |s| && FullPart(epochs[0], s[..n]) && BelongsTo(epochs[1..], s[n..], k - n, f)
    ensures BelongsTo(epochs, s, k, f + 1)
  {
    var n := |epochs[0].ops|;
    FullContains(epochs[0], s[..n]);
    assert s[..k] == s[..n] + s[n..][..k - n];
    assert Contains(s[..k], s[n..][..k - n]);
    forall g | 0 <= g < f + 1
      ensures Contains(s[..k], epochs[g].ops)
    {
      if g > 0 { assert Contains(s[n..][..k - n], epochs[1..][g - 1].ops); }
    }
  }

  /** Every operation of a legal state belongs to some epoch, and everything of the epochs before stands in front of
      it. */
  lemma {:induction false} EpochsInOrder(epochs: seq<Epoch>, s: seq<EpochOp>, k: nat) returns (f: nat)
    requires KeyedEpochs(epochs) && Legal(epochs, s) && k < |s|
    ensures BelongsTo(epochs, s, k, f)
    decreases |epochs|
  {
    var n := |epochs[0].ops|;
    if |s| <= n {
      PartBarrierLast(epochs[0], s, k);
      f := 0;
    } else if k < n {
      FullBarrierLast(epochs[0], s[..n], k);
      assert s[k] == s[..n][k] && s[..k] == s[..n][..k];
      f := 0;
    } else {
      f := EpochsInOrder(epochs[1..], s[n..], k - n);
      BelongsLater(epochs, s, k, f);
      f := f + 1;
    }
  }

  /** What stands in epoch `f` was recorded behind at most `f` barriers. */
  lemma MemberBars(log: seq<DiskWrite>, f: nat, x: EpochOp)
    requires MemberOf(log, 0, f, x)
    ensures x.absIndex < |log| && Bars(log, x.absIndex) <= f
  {
    if HalfIn(log, 0, f, x) { BarsGrow(log, x.absIndex, x.absIndex + 1); }
  }

  lemma BarBetween(log: seq<DiskWrite>, p: nat, b: nat, q: nat)
    requires p <= b < q <= |log| && BarrierAt(log, b)
    ensures Bars(log, p) < Bars(log, q)
  {
    BarsGrow(log, p, b);
    BarsGrow(log, b + 1, q);
  }

  lemma InEarlierEpoch(log: seq<DiskWrite>, s: seq<EpochOp>, k: nat, p: nat, f: nat)
    requires k < |s| && p < |log| && BelongsTo(Cut(log), s, k, f) && Bars(log, p) < f
    ensures Own(log, p) in s[..k]
  {
    EpochMembersIff(log, Bars(log, p), Own(log, p));
    assert Contains(s[..k], Cut(log)[Bars(log, p)].ops);
  }

  /** Crash states respect the barriers, whatever is drawn: if a state holds something recorded at position `q`, and a
      position from `p` up to just before `q` carries the bits of a barrier, then what was recorded at `p` stands in
      front of it. */
  lemma CrashOrder(log: seq<DiskWrite>, s: seq<EpochOp>, k: nat, p: nat, b: nat)
    requires Legal(Cut(log), s) && k < |s| && p <= b < s[k].absIndex
    ensures s[k].absIndex < |log|
    ensures log[b].meta.biRw & 0x1 != 0 && log[b].meta.biRw & 0x801_1800 != 0 ==> Own(log, p) in s[..k]
  {
    CutShape(log);
    var f := EpochsInOrder(Cut(log), s, k);
    EpochMembersIff(log, f, s[k]);
    MemberBars(log, f, s[k]);
    if BarrierAt(log, b) {
      BarBetween(log, p, b, s[k].absIndex);
      InEarlierEpoch(log, s, k, p, f);
    }
  }

  lemma NothingBehind(log: seq<DiskWrite>, f: nat, q: nat, x: EpochOp)
    requires q < |log| && BarrierAt(log, q) && Bars(log, q) == f && MemberOf(log, 0, f, x)
    ensures x.absIndex <= q
  {
    if x.absIndex > q {
      BarBetween(log, q, q, x.absIndex);
      MemberBars(log, f, x);
    }
  }

  /** A barrier that is not split is the flagged last operation of its epoch. */
  lemma BarrierEndsEpoch(log: seq<DiskWrite>, q: nat)
    requires q < |log| && BarrierAt(log, q) && !SplitAt(log, q)
    ensures Bars(log, q) < |Cut(log)|
    ensures var e := Cut(log)[Bars(log, q)]; e.ops != [] && e.hasBarrier && e.ops[|e.ops| - 1] == Own(log, q)
  {
    var f := Bars(log, q);
    CutShape(log);
    EpochMembersIff(log, f, Own(log, q));
    var ops := Cut(log)[f].ops;
    var i :| 0 <= i < |ops| && ops[i] == Own(log, q);
    EpochMembersIff(log, f, ops[|ops| - 1]);
    NothingBehind(log, f, q, ops[|ops| - 1]);
    assert i == |ops| - 1;
    BitsAt(log, q);
  }

  lemma InFrontOfLast(log: seq<DiskWrite>, p: nat, q: nat)
    requires p < q < |log| && BarrierAt(log, q) && !SplitAt(log, q) && Bars(log, p) == Bars(log, q)
    ensures Bars(log, q) < |Cut(log)|
    ensures var ops := Cut(log)[Bars(log, q)].ops; ops != [] && Own(log, p) in ops[..|ops| - 1]
  {
    BarrierEndsEpoch(log, q);
    EpochMembersIff(log, Bars(log, q), Own(log, p));
    var ops := Cut(log)[Bars(log, q)].ops;
    var i :| 0 <= i < |ops| && ops[i] == Own(log, p);
    assert i < |ops| - 1 && ops[..|ops| - 1][i] == Own(log, p);
  }

  /** A barrier that is not split comes after everything recorded before it. */
  lemma BarrierComesLast(log: seq<DiskWrite>, s: seq<EpochOp>, k: nat, p: nat, q: nat)
    requires Legal(Cut(log), s) && k < |s| && p < q < |log| && s[k] == EpochOp(q, log[q])
    requires log[q].meta.biRw & 0x1 != 0 && log[q].meta.biRw & 0x801_1800 != 0
    requires log[q].meta.biRw & 0x800_1000 == 0 || log[q].meta.biRw & 0x800 != 0
    ensures Own(log, p) in s[..k]
  {
    CutShape(log);
    var f := EpochsInOrder(Cut(log), s, k);
    EpochMembersIff(log, f, s[k]);
    MemberBars(log, f, s[k]);
    BarsGrow(log, p, q);
    if Bars(log, p) < f {
      InEarlierEpoch(log, s, k, p, f);
    } else {
      BarrierEndsEpoch(log, q);
      InFrontOfLast(log, p, q);
    }
  }

  // ---------------------------------------------------------------- logs without barriers

  /** Some operations of the log, each at most once, in any order. */
  ghost predicate AnySelection(log: seq<DiskWrite>, s: seq<EpochOp>) {
    && s != []
    && (forall k :: 0 <= k < |s| ==> s[k].absIndex < |log| && s[k].op == log[s[k].absIndex])
    && (forall j, k :: 0 <= j < k < |s| ==> s[j].absIndex != s[k].absIndex)
  }

  lemma {:induction false} NoBars(log: seq<DiskWrite>, i: nat)
    requires i <= |log| && forall b :: 0 <= b < |log| ==> !BarrierAt(log, b)
    ensures Bars(log, i) == 0 && Waiting(log, i) == None
  {
    if i > 0 { NoBars(log, i - 1); }
  }

  /** A log without barriers is one epoch that holds just its operations. */
  lemma OneEpoch(log: seq<DiskWrite>, x: EpochOp)
    requires log != [] && forall b :: 0 <= b < |log| ==> !BarrierAt(log, b)
    ensures |Cut(log)| == 1 && Shaped(Cut(log)) && !Cut(log)[0].hasBarrier
    ensures x in Cut(log)[0].ops <==> x.absIndex < |log| && x.op == log[x.absIndex]
  {
    NoBars(log, |log|);
    EpochCount(log);
    CutShape(log);
    EpochMembersIff(log, 0, x);
    if x.absIndex < |log| { NoBars(log, x.absIndex); BitsAt(log, x.absIndex); }
    if x.absIndex + 1 < |log| { NoBars(log, x.absIndex + 1); }
    var ops := Cut(log)[0].ops;
    var last := ops[|ops| - 1];
    EpochMembersIff(log, 0, last);
    if last.absIndex + 1 < |log| { NoBars(log, last.absIndex + 1); }
    BitsAt(log, last.absIndex);
  }

  lemma SelectionOf(e: Epoch, s: seq<EpochOp>)
    requires Increasing(e.ops) && !e.hasBarrier && s != [] && Contains(e.ops, s)
    requires forall j, k :: 0 <= j < k < |s| ==> s[j].absIndex != s[k].absIndex
    ensures LegalPart(e, s)
  {
    var idx := seq(|s|, k requires 0 <= k < |s| => IndexOf(e.ops, s[k]));
    assert LegalSelection(e, idx) && s == OpsAt(e, idx);
  }

  /** Which crash states a log without barriers has: every non-empty selection of its operations, in every order. */
  lemma FreeOrderIff(log: seq<DiskWrite>, s: seq<EpochOp>)
    requires forall b :: 0 <= b < |log| ==> !(log[b].meta.biRw & 0x1 != 0 && log[b].meta.biRw & 0x801_1800 != 0)
    ensures Legal(Cut(log), s) <==> AnySelection(log, s)
  {
    if log != [] {
      assert forall b :: 0 <= b < |log| ==> !BarrierAt(log, b);
      forall x: EpochOp
        ensures |Cut(log)| == 1 && Shaped(Cut(log)) && !Cut(log)[0].hasBarrier
        ensures x in Cut(log)[0].ops <==> x.absIndex < |log| && x.op == log[x.absIndex]
      {
        OneEpoch(log, x);
      }
      assert Cut(log) == [Cut(log)[0]];
      FreePart(log, Cut(log)[0], s);
    } else {
      assert Cut(log) == [] && (AnySelection(log, s) ==> s[0].absIndex < 0);
    }
  }

  lemma LegalAlone(e: Epoch, s: seq<EpochOp>)
    requires e.ops != []
    ensures Legal([e], s) <==> LegalPart(e, s)
  {
    assert [e][1..] == [];
    LegalPartLength(e, s);
  }

  lemma FreePart(log: seq<DiskWrite>, e: Epoch, s: seq<EpochOp>)
    requires e.ops != [] && Increasing(e.ops) && !e.hasBarrier && !e.overlaps
    requires forall x :: x in e.ops <==> x.absIndex < |log| && x.op == log[x.absIndex]
    ensures Legal([e], s) <==> AnySelection(log, s)
  {
    LegalAlone(e, s);
    if AnySelection(log, s) {
      SelectionOf(e, s);
      LegalPartLength(e, s);
    }
    if Legal([e], s) {
      var idx :| LegalSelection(e, idx) && s == OpsAt(e, idx);
      assert forall k :: 0 <= k < |s| ==> s[k] in e.ops;
    }
  }
}
