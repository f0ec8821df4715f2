/** The crash states that a vector of epochs allows, the states that the random generator builds, and
    how many there are. */
module CrashStates {
  import opened DiskOps
  import opened Epochs
  import opened Finite
  import opened Shuffle

  // ---------------------------------------------------------------- one epoch

  /** The operations that may be placed at random: all but a flagged barrier. */
  function Slots(e: Epoch): nat
    requires e.ops != []
  {
    if e.hasBarrier then |e.ops| - 1 else |e.ops|
  }

  function Iota(n: nat): (r: seq<nat>)
    ensures |r| == n && forall i :: 0 <= i < n ==> r[i] == i
  {
    seq(n, i => i)
  }

  /** How many of `k` places are filled by picks. */
  function Picked(e: Epoch, k: nat): nat
    requires e.ops != []
  {
    if k <= Slots(e) then k else Slots(e)
  }

  ghost predicate ValidEpochPicks(e: Epoch, k: nat, picks: seq<nat>) {
    && e.ops != [] && 1 <= k <= |e.ops|
    && |picks| == Picked(e, k) && ValidPicks(picks, Slots(e))
  }

  /** Positions inside the epoch, in the order in which they are placed. */
  function Selection(e: Epoch, k: nat, picks: seq<nat>): (r: seq<nat>)
    requires ValidEpochPicks(e, k, picks)
    ensures |r| == k
  {
    var last: nat := |e.ops| - 1;
    Take(Iota(Slots(e)), picks) + if k > Slots(e) then [last] else []
  }

  ghost predicate Inside(e: Epoch, idx: seq<nat>) {
    forall j :: 0 <= j < |idx| ==> idx[j] < |e.ops|
  }

  function OpsAt(e: Epoch, idx: seq<nat>): (r: seq<EpochOp>)
    requires Inside(e, idx)
    ensures |r| == |idx| && forall j :: 0 <= j < |idx| ==> r[j] == e.ops[idx[j]]
  {
    seq(|idx|, j requires 0 <= j < |idx| => e.ops[idx[j]])
  }

  /** A non-empty selection without duplicates in which the flagged barrier of the epoch, if it occurs,
      comes after all other operations of the epoch. */
  ghost predicate LegalSelection(e: Epoch, idx: seq<nat>) {
    && idx != [] && Inside(e, idx) && Distinct(idx)
    && (e.hasBarrier && (|e.ops| - 1) in idx ==> |idx| == |e.ops| && idx[|idx| - 1] == |e.ops| - 1)
  }

  ghost predicate LegalPart(e: Epoch, part: seq<EpochOp>) {
    exists idx :: LegalSelection(e, idx) && part == OpsAt(e, idx)
  }

  lemma IotaDistinct(n: nat)
    ensures Distinct(Iota(n))
  {
  }

  lemma SelectionLegal(e: Epoch, k: nat, picks: seq<nat>)
    requires ValidEpochPicks(e, k, picks)
    ensures LegalSelection(e, Selection(e, k, picks))
  {
    var slots := Iota(Slots(e));
    IotaDistinct(Slots(e));
    TakeArranges(slots, picks);
    var taken := Take(slots, picks);
    forall j | 0 <= j < |taken| ensures taken[j] < Slots(e) {
      assert taken[j] in slots;
    }
    var idx := Selection(e, k, picks);
    assert forall j :: 0 <= j < |taken| ==> idx[j] == taken[j];
    assert forall j :: |taken| <= j < |idx| ==> idx[j] == |e.ops| - 1 == Slots(e);
  }

  /** The barrier is the last of a legal selection that takes the whole epoch, and in no shorter one. */
  lemma BarrierPlace(e: Epoch, idx: seq<nat>)
    requires e.ops != [] && LegalSelection(e, idx)
    ensures |idx| <= |e.ops|
    ensures forall j :: 0 <= j < Picked(e, |idx|) ==> idx[j] < Slots(e)
    ensures |idx| > Slots(e) ==> idx[|idx| - 1] == |e.ops| - 1
  {
    DistinctSize(idx);
    var members := set x | x in idx;
    SubsetSize(members, Below(|e.ops|));
    if e.hasBarrier && |idx| == |e.ops| {
      DistinctIsOnto(idx, |e.ops| - 1);
    }
  }

  lemma PickedArrange(e: Epoch, idx: seq<nat>)
    requires e.ops != [] && LegalSelection(e, idx)
    ensures Picked(e, |idx|) <= |idx|
    ensures Arranges(Iota(Slots(e)), idx[..Picked(e, |idx|)])
  {
    BarrierPlace(e, idx);
    var slots := Iota(Slots(e));
    forall x | x in idx[..Picked(e, |idx|)] ensures x in slots {
      assert slots[x] == x;
    }
  }

  /** The picks that place a legal selection. */
  function PicksFor(e: Epoch, idx: seq<nat>): seq<nat>
    requires e.ops != [] && LegalSelection(e, idx)
  {
    PickedArrange(e, idx);
    IotaDistinct(Slots(e));
    PicksOf(Iota(Slots(e)), idx[..Picked(e, |idx|)])
  }

  /** Every legal selection of an epoch is placed by exactly one pick sequence. */
  lemma PicksExact(e: Epoch, idx: seq<nat>, picks: seq<nat>)
    requires e.ops != []
    ensures ValidEpochPicks(e, |idx|, picks) && Selection(e, |idx|, picks) == idx
       <==> LegalSelection(e, idx) && picks == PicksFor(e, idx)
  {
    IotaDistinct(Slots(e));
    if ValidEpochPicks(e, |idx|, picks) && Selection(e, |idx|, picks) == idx {
      SelectionLegal(e, |idx|, picks);
      assert idx[..Picked(e, |idx|)] == Take(Iota(Slots(e)), picks);
      PicksAreArrangements(Iota(Slots(e)), picks, idx[..Picked(e, |idx|)]);
    }
    if LegalSelection(e, idx) && picks == PicksFor(e, idx) {
      BarrierPlace(e, idx);
      PickedArrange(e, idx);
      var k := Picked(e, |idx|);
      TakePicksOf(Iota(Slots(e)), idx[..k]);
      assert idx == idx[..k] + idx[k..];
    }
  }

  /** What `permute_epoch` writes into `k` places. */
  function PermutedPart(e: Epoch, k: nat, picks: seq<nat>): (r: seq<EpochOp>)
    requires ValidEpochPicks(e, k, picks)
    ensures |r| == k
  {
    SelectionLegal(e, k, picks);
    OpsAt(e, Selection(e, k, picks))
  }

  /** `permute_epoch` reaches exactly the legal parts of an epoch. */
  lemma PermutedPartExact(e: Epoch, part: seq<EpochOp>)
    requires e.ops != []
    ensures LegalPart(e, part) <==>
            exists picks :: ValidEpochPicks(e, |part|, picks) && PermutedPart(e, |part|, picks) == part
  {
    if LegalPart(e, part) {
      var idx :| LegalSelection(e, idx) && part == OpsAt(e, idx);
      PicksExact(e, idx, PicksFor(e, idx));
      assert PermutedPart(e, |part|, PicksFor(e, idx)) == part;
    }
    if picks :| ValidEpochPicks(e, |part|, picks) && PermutedPart(e, |part|, picks) == part {
      SelectionLegal(e, |part|, picks);
    }
  }

  lemma LegalPartLength(e: Epoch, part: seq<EpochOp>)
    requires e.ops != []
    ensures LegalPart(e, part) ==> 0 < |part| <= |e.ops|
  {
    if idx :| LegalSelection(e, idx) && part == OpsAt(e, idx) {
      BarrierPlace(e, idx);
    }
  }

  // ---------------------------------------------------------------- whole states

  ghost predicate NonEmpty(epochs: seq<Epoch>) {
    forall i :: 0 <= i < |epochs| ==> epochs[i].ops != []
  }

  /** A complete epoch: in recorded order, or in any legal order if it has overlapping writes. */
  ghost predicate FullPart(e: Epoch, part: seq<EpochOp>) {
    |part| == |e.ops| && if e.overlaps then LegalPart(e, part) else part == e.ops
  }

  /** A legal crash state: some epochs complete and in order, then a legal part of the next epoch. */
  ghost predicate Legal(epochs: seq<Epoch>, s: seq<EpochOp>) {
    epochs != [] &&
    var n := |epochs[0].ops|;
    if |s| <= n then LegalPart(epochs[0], s)
    else FullPart(epochs[0], s[..n]) && Legal(epochs[1..], s[n..])
  }

  /** All random draws for one state: the number of epochs, the number of operations of the last one,
      and the picks for each epoch. */
  datatype Choice = Choice(numEpochs: nat, numRequests: nat, picks: seq<seq<nat>>) {
    function Rest(): Choice
      requires numEpochs > 0 && picks != []
    {
      Choice(numEpochs - 1, numRequests, picks[1..])
    }
  }

  ghost predicate ValidChoice(epochs: seq<Epoch>, c: Choice) {
    && 1 <= c.numEpochs <= |epochs| && |c.picks| == c.numEpochs
    && if c.numEpochs == 1 then ValidEpochPicks(epochs[0], c.numRequests, c.picks[0])
       else && (if epochs[0].overlaps then ValidEpochPicks(epochs[0], |epochs[0].ops|, c.picks[0])
                else c.picks[0] == [])
            && ValidChoice(epochs[1..], c.Rest())
  }

  /** What a complete epoch contributes. */
  function Complete(e: Epoch, picks: seq<nat>): seq<EpochOp>
    requires e.overlaps ==> ValidEpochPicks(e, |e.ops|, picks)
  {
    if e.overlaps then PermutedPart(e, |e.ops|, picks) else e.ops
  }

  /** The state that `gen_one_state` builds from its draws. */
  function Gen(epochs: seq<Epoch>, c: Choice): (s: seq<EpochOp>)
    requires ValidChoice(epochs, c)
    ensures s != []
  {
    if c.numEpochs == 1 then PermutedPart(epochs[0], c.numRequests, c.picks[0])
    else Complete(epochs[0], c.picks[0]) + Gen(epochs[1..], c.Rest())
  }

  lemma {:induction false} GenLegal(epochs: seq<Epoch>, c: Choice)
    requires NonEmpty(epochs) && ValidChoice(epochs, c)
    ensures Legal(epochs, Gen(epochs, c))
    decreases |epochs|
  {
    if c.numEpochs == 1 {
      PermutedPartExact(epochs[0], Gen(epochs, c));
    } else {
      var part, rest := Complete(epochs[0], c.picks[0]), Gen(epochs[1..], c.Rest());
      GenLegal(epochs[1..], c.Rest());
      if epochs[0].overlaps { PermutedPartExact(epochs[0], part); }
      assert (part + rest)[..|part|] == part && (part + rest)[|part|..] == rest;
    }
  }

  /** The draws for a state that fits into the first epoch. */
  lemma LegalGenLast(epochs: seq<Epoch>, s: seq<EpochOp>) returns (c: Choice)
    requires NonEmpty(epochs) && epochs != [] && LegalPart(epochs[0], s)
    ensures ValidChoice(epochs, c) && Gen(epochs, c) == s
  {
    PermutedPartExact(epochs[0], s);
    var picks :| ValidEpochPicks(epochs[0], |s|, picks) && PermutedPart(epochs[0], |s|, picks) == s;
    c := Choice(1, |s|, [picks]);
  }

  /** The draws that complete an epoch. */
  lemma LegalGenFull(e: Epoch, part: seq<EpochOp>) returns (picks: seq<nat>)
    requires e.ops != [] && FullPart(e, part)
    ensures if e.overlaps then ValidEpochPicks(e, |e.ops|, picks) else picks == []
    ensures Complete(e, picks) == part
  {
    picks := [];
    if e.overlaps {
      PermutedPartExact(e, part);
      picks :| ValidEpochPicks(e, |e.ops|, picks) && PermutedPart(e, |e.ops|, picks) == part;
    }
  }

  lemma GenCons(epochs: seq<Epoch>, picks: seq<nat>, rest: Choice)
    requires epochs != [] && ValidChoice(epochs[1..], rest)
    requires if epochs[0].overlaps then ValidEpochPicks(epochs[0], |epochs[0].ops|, picks) else picks == []
    ensures var c := Choice(rest.numEpochs + 1, rest.numRequests, [picks] + rest.picks);
            ValidChoice(epochs, c) && Gen(epochs, c) == Complete(epochs[0], picks) + Gen(epochs[1..], rest)
  {
    var c := Choice(rest.numEpochs + 1, rest.numRequests, [picks] + rest.picks);
    assert c.Rest() == rest;
  }

  lemma {:induction false} LegalGen(epochs: seq<Epoch>, s: seq<EpochOp>) returns (c: Choice)
    requires NonEmpty(epochs) && Legal(epochs, s)
    ensures ValidChoice(epochs, c) && Gen(epochs, c) == s
    decreases |epochs|
  {
    var n := |epochs[0].ops|;
    if |s| <= n {
      c := LegalGenLast(epochs, s);
    } else {
      var picks := LegalGenFull(epochs[0], s[..n]);
      var rest := LegalGen(epochs[1..], s[n..]);
      c := Choice(rest.numEpochs + 1, rest.numRequests, [picks] + rest.picks);
      GenCons(epochs, picks, rest);
      assert s == s[..n] + s[n..];
    }
  }

  /** The generator reaches exactly the legal crash states: each of its states is legal, for all draws,
      and each legal state comes from some draws. */
  lemma GenExact(epochs: seq<Epoch>, s: seq<EpochOp>)
    requires NonEmpty(epochs)
    ensures Legal(epochs, s) <==> exists c :: ValidChoice(epochs, c) && Gen(epochs, c) == s
  {
    if Legal(epochs, s) {
      var c := LegalGen(epochs, s);
    }
    if c :| ValidChoice(epochs, c) && Gen(epochs, c) == s {
      GenLegal(epochs, c);
    }
  }

  // ---------------------------------------------------------------- epochs without the overlap flag

  ghost predicate InOrder(epochs: seq<Epoch>) {
    forall i :: 0 <= i < |epochs| ==> epochs[i].ops != [] && !epochs[i].overlaps
  }

  /** The state is the recorded operations of the first `e` epochs followed by a legal part of the next. */
  ghost predicate CutsAt(epochs: seq<Epoch>, e: nat, s: seq<EpochOp>) {
    && e < |epochs|
    && |Flatten(epochs[..e])| <= |s|
    && s[..|Flatten(epochs[..e])|] == Flatten(epochs[..e])
    && LegalPart(epochs[e], s[|Flatten(epochs[..e])|..])
  }

  lemma CutsAtStep(epochs: seq<Epoch>, e: nat, s: seq<EpochOp>)
    requires epochs != [] && e + 1 < |epochs|
    ensures CutsAt(epochs, e + 1, s) <==>
            var n := |epochs[0].ops|; |s| >= n && s[..n] == epochs[0].ops && CutsAt(epochs[1..], e, s[n..])
  {
    var n, rest := |epochs[0].ops|, Flatten(epochs[1..][..e]);
    assert epochs[..e + 1][1..] == epochs[1..][..e];
    assert Flatten(epochs[..e + 1]) == epochs[0].ops + rest;
    if |s| >= n + |rest| {
      assert s[n..][|rest|..] == s[n + |rest|..];
      assert s[..n + |rest|] == s[..n] + s[n..][..|rest|];
      if s[..n + |rest|] == epochs[0].ops + rest {
        assert s[..n] == s[..n + |rest|][..n] && s[n..][..|rest|] == s[..n + |rest|][n..];
      }
    }
  }

  lemma CutsAtLonger(epochs: seq<Epoch>, e: nat, s: seq<EpochOp>)
    requires InOrder(epochs) && 0 < e && CutsAt(epochs, e, s)
    ensures |s| > |epochs[0].ops|
  {
    CutsAtStep(epochs, e - 1, s);
    LegalPartLength(epochs[e], s[|Flatten(epochs[..e])|..]);
    assert epochs[..e][0] == epochs[0];
    assert |Flatten(epochs[..e])| >= |epochs[0].ops|;
  }

  lemma CutsAtFirst(epochs: seq<Epoch>, s: seq<EpochOp>)
    requires InOrder(epochs) && epochs != []
    ensures CutsAt(epochs, 0, s) <==> LegalPart(epochs[0], s)
  {
    assert Flatten(epochs[..0]) == [] && s[0..] == s && s[..0] == [];
  }

  /** Without overlap flags a state is legal exactly when it keeps the recorded order of some leading
      epochs and continues with a legal part of the next one. */
  lemma {:induction false} InOrderLegal(epochs: seq<Epoch>, s: seq<EpochOp>)
    requires InOrder(epochs)
    ensures Legal(epochs, s) <==> exists e :: CutsAt(epochs, e, s)
    decreases |epochs|
  {
    if epochs != [] {
      var n := |epochs[0].ops|;
      CutsAtFirst(epochs, s);
      LegalPartLength(epochs[0], s);
      if |s| > n {
        InOrderLegal(epochs[1..], s[n..]);
        if e: nat :| CutsAt(epochs[1..], e, s[n..]) { CutsAtStep(epochs, e, s); }
        if e: nat :| CutsAt(epochs, e, s) { if e > 0 { CutsAtStep(epochs, e - 1, s); } }
      } else if e: nat :| CutsAt(epochs, e, s) {
        if e > 0 { CutsAtLonger(epochs, e, s); }
      }
    }
  }

  /** An epoch whose writes share no byte leaves the same image in whatever order it is completed. */
  lemma DisjointEpochOrder(img: Image, e: Epoch, part: seq<EpochOp>)
    requires e.ops != [] && LegalPart(e, part) && |part| == |e.ops|
    requires AllFit(Ops(e.ops), |img|) && Disjoint(Ops(e.ops))
    ensures AllFit(Ops(part), |img|) && Replay(img, Ops(part)) == Replay(img, Ops(e.ops))
  {
    var idx :| LegalSelection(e, idx) && part == OpsAt(e, idx);
    ReorderDisjoint(img, Ops(e.ops), Ops(part), idx);
  }

  // ---------------------------------------------------------------- the duplicate key

  function Key(s: seq<EpochOp>): (r: seq<nat>)
    ensures |r| == |s| && forall j :: 0 <= j < |s| ==> r[j] == s[j].absIndex
  {
    seq(|s|, j requires 0 <= j < |s| => s[j].absIndex)
  }

  ghost predicate KeyedEpochs(epochs: seq<Epoch>) {
    forall i :: 0 <= i < |epochs| ==> epochs[i].ops != [] && Increasing(epochs[i].ops)
  }

  lemma SelectionKey(e: Epoch, a: seq<nat>, b: seq<nat>)
    requires Increasing(e.ops) && Inside(e, a) && Inside(e, b)
    requires Key(OpsAt(e, a)) == Key(OpsAt(e, b))
    ensures a == b
  {
    var p, q := OpsAt(e, a), OpsAt(e, b);
    assert |a| == |Key(p)| == |Key(q)| == |b|;
    forall j | 0 <= j < |a| ensures a[j] == b[j] {
      assert e.ops[a[j]].absIndex == Key(p)[j] == Key(q)[j] == e.ops[b[j]].absIndex;
    }
  }

  lemma PartKey(e: Epoch, p: seq<EpochOp>, q: seq<EpochOp>)
    requires Increasing(e.ops) && LegalPart(e, p) && LegalPart(e, q) && Key(p) == Key(q)
    ensures p == q
  {
    var a :| LegalSelection(e, a) && p == OpsAt(e, a);
    var b :| LegalSelection(e, b) && q == OpsAt(e, b);
    SelectionKey(e, a, b);
  }

  /** Two legal states with the same index vector are the same state, operation by operation. */
  lemma {:induction false} KeyIsFaithful(epochs: seq<Epoch>, s: seq<EpochOp>, t: seq<EpochOp>)
    requires KeyedEpochs(epochs) && Legal(epochs, s) && Legal(epochs, t) && Key(s) == Key(t)
    ensures s == t
    decreases |epochs|
  {
    var n := |epochs[0].ops|;
    assert |s| == |Key(s)| == |t|;
    if |s| <= n {
      PartKey(epochs[0], s, t);
    } else {
      assert Key(s[..n]) == Key(s)[..n] && Key(t[..n]) == Key(t)[..n];
      assert Key(s[n..]) == Key(s)[n..] && Key(t[n..]) == Key(t)[n..];
      if epochs[0].overlaps { PartKey(epochs[0], s[..n], t[..n]); }
      KeyIsFaithful(epochs[1..], s[n..], t[n..]);
      assert s == s[..n] + s[n..] && t == t[..n] + t[n..];
    }
  }

  // ---------------------------------------------------------------- counting

  /** The part that a pick sequence places; nothing, if it is not a valid one. */
  ghost function PartFor(e: Epoch, k: nat, picks: seq<nat>): seq<EpochOp> {
    if ValidEpochPicks(e, k, picks) then PermutedPart(e, k, picks) else []
  }

  /** All parts of exactly `k` operations that `permute_epoch` can write. */
  ghost function PartsOfSize(e: Epoch, k: nat): set<seq<EpochOp>>
    requires e.ops != [] && 1 <= k <= |e.ops|
  {
    set p | p in AllPicks(Slots(e), Picked(e, k)) :: PartFor(e, k, p)
  }

  function SizeCount(e: Epoch, k: nat): nat
    requires e.ops != [] && 1 <= k <= |e.ops|
  {
    Falling(Slots(e), Picked(e, k))
  }

  lemma AllPicksValid(e: Epoch, k: nat)
    requires e.ops != [] && 1 <= k <= |e.ops|
    ensures forall p :: p in AllPicks(Slots(e), Picked(e, k)) <==> ValidEpochPicks(e, k, p)
  {
    forall p ensures p in AllPicks(Slots(e), Picked(e, k)) <==> ValidEpochPicks(e, k, p) {
      AllPicksMembers(Slots(e), Picked(e, k), p);
    }
  }

  lemma PermutedPartInjective(e: Epoch, k: nat, p: seq<nat>, q: seq<nat>)
    requires Increasing(e.ops) && ValidEpochPicks(e, k, p) && ValidEpochPicks(e, k, q)
    requires PermutedPart(e, k, p) == PermutedPart(e, k, q)
    ensures p == q
  {
    var a, b := Selection(e, k, p), Selection(e, k, q);
    SelectionLegal(e, k, p);
    SelectionLegal(e, k, q);
    SelectionKey(e, a, b);
    PicksExact(e, a, p);
    PicksExact(e, a, q);
  }

  lemma PartsOfSizeMembers(e: Epoch, k: nat, part: seq<EpochOp>)
    requires e.ops != [] && 1 <= k <= |e.ops|
    ensures part in PartsOfSize(e, k) <==> |part| == k && LegalPart(e, part)
  {
    PermutedPartExact(e, part);
    AllPicksValid(e, k);
    if |part| == k && LegalPart(e, part) {
      var picks :| ValidEpochPicks(e, k, picks) && PermutedPart(e, k, picks) == part;
      assert PartFor(e, k, picks) == part;
    }
  }

  lemma PartsOfSizeCount(e: Epoch, k: nat)
    requires e.ops != [] && Increasing(e.ops) && 1 <= k <= |e.ops|
    ensures |PartsOfSize(e, k)| == SizeCount(e, k)
  {
    var all := AllPicks(Slots(e), Picked(e, k));
    AllPicksValid(e, k);
    forall p, q | p in all && q in all && PartFor(e, k, p) == PartFor(e, k, q) ensures p == q {
      PermutedPartInjective(e, k, p, q);
    }
    ImageSize(all, p => PartFor(e, k, p), PartsOfSize(e, k));
    AllPicksSize(Slots(e), Picked(e, k));
  }

  /** All legal parts of at most `m` operations. */
  ghost function Parts(e: Epoch, m: nat): set<seq<EpochOp>>
    requires e.ops != [] && m <= |e.ops|
  {
    if m == 0 then {} else Parts(e, m - 1) + PartsOfSize(e, m)
  }

  function PartCount(e: Epoch, m: nat): nat
    requires e.ops != [] && m <= |e.ops|
  {
    if m == 0 then 0 else PartCount(e, m - 1) + SizeCount(e, m)
  }

  lemma {:induction false} PartsMembers(e: Epoch, m: nat, part: seq<EpochOp>)
    requires e.ops != [] && m <= |e.ops|
    ensures part in Parts(e, m) <==> |part| <= m && LegalPart(e, part)
  {
    if m > 0 {
      PartsMembers(e, m - 1, part);
      PartsOfSizeMembers(e, m, part);
    }
  }

  lemma PartsLonger(e: Epoch, m: nat, part: seq<EpochOp>)
    requires e.ops != [] && 1 <= m <= |e.ops|
    ensures !(part in Parts(e, m - 1) && part in PartsOfSize(e, m))
  {
    PartsMembers(e, m - 1, part);
    PartsOfSizeMembers(e, m, part);
  }

  lemma PartsDisjoint(e: Epoch, m: nat)
    requires e.ops != [] && 1 <= m <= |e.ops|
    ensures Parts(e, m - 1) !! PartsOfSize(e, m)
  {
    var short, long := Parts(e, m - 1), PartsOfSize(e, m);
    forall part | part in short ensures part !in long {
      PartsLonger(e, m, part);
    }
  }

  lemma UnionSize<T>(a: set<T>, b: set<T>, m: nat, n: nat)
    requires a !! b && |a| == m && |b| == n
    ensures |a + b| == m + n
  {
  }

  ghost predicate PartsCounted(e: Epoch, m: nat)
    requires e.ops != [] && m <= |e.ops|
  {
    |Parts(e, m)| == PartCount(e, m)
  }

  lemma PartsCountStep(e: Epoch, m: nat)
    requires e.ops != [] && Increasing(e.ops) && 1 <= m <= |e.ops| && PartsCounted(e, m - 1)
    ensures PartsCounted(e, m)
  {
    PartsOfSizeCount(e, m);
    PartsDisjoint(e, m);
    UnionSize(Parts(e, m - 1), PartsOfSize(e, m), PartCount(e, m - 1), SizeCount(e, m));
  }

  lemma {:induction false} PartsCount(e: Epoch, m: nat)
    requires e.ops != [] && Increasing(e.ops) && m <= |e.ops|
    ensures PartsCounted(e, m)
  {
    if m > 0 {
      PartsCount(e, m - 1);
      PartsCountStep(e, m);
    }
  }

  ghost function FullParts(e: Epoch): set<seq<EpochOp>>
    requires e.ops != []
  {
    if e.overlaps then PartsOfSize(e, |e.ops|) else {e.ops}
  }

  function FullCount(e: Epoch): nat
    requires e.ops != []
  {
    if e.overlaps then SizeCount(e, |e.ops|) else 1
  }

  lemma FullPartsExact(e: Epoch, part: seq<EpochOp>)
    requires e.ops != [] && Increasing(e.ops)
    ensures part in FullParts(e) <==> FullPart(e, part)
    ensures |FullParts(e)| == FullCount(e)
  {
    PartsOfSizeMembers(e, |e.ops|, part);
    PartsOfSizeCount(e, |e.ops|);
  }

  function Join(p: (seq<EpochOp>, seq<EpochOp>)): seq<EpochOp> {
    p.0 + p.1
  }

  ghost function JoinAll(pairs: set<(seq<EpochOp>, seq<EpochOp>)>): set<seq<EpochOp>> {
    set p | p in pairs :: Join(p)
  }

  lemma JoinMember(a: set<seq<EpochOp>>, b: set<seq<EpochOp>>, n: nat, s: seq<EpochOp>)
    requires forall x :: x in a ==> |x| == n
    ensures s in JoinAll(Pairs(a, b)) <==> |s| >= n && s[..n] in a && s[n..] in b
  {
    if s in JoinAll(Pairs(a, b)) {
      var p :| p in Pairs(a, b) && s == Join(p);
      assert s[..n] == p.0 && s[n..] == p.1;
    }
    if |s| >= n && s[..n] in a && s[n..] in b {
      assert s == Join((s[..n], s[n..]));
    }
  }

  lemma JoinCount(a: set<seq<EpochOp>>, b: set<seq<EpochOp>>, n: nat, m: nat, k: nat)
    requires forall x :: x in a ==> |x| == n
    requires |a| == m && |b| == k
    ensures |JoinAll(Pairs(a, b))| == m * k
  {
    var pairs := Pairs(a, b);
    PairsSize(a, b, m, k);
    forall x, y | x in pairs && y in pairs && Join(x) == Join(y) ensures x == y {
      assert Join(x)[..n] == x.0 && Join(y)[..n] == y.0;
      assert Join(x)[n..] == x.1 && Join(y)[n..] == y.1;
    }
    ImageSize(pairs, Join, JoinAll(pairs));
  }

  /** The set of all legal crash states. */
  ghost function States(epochs: seq<Epoch>): set<seq<EpochOp>>
    requires NonEmpty(epochs)
  {
    if epochs == [] then {}
    else Parts(epochs[0], |epochs[0].ops|) + JoinAll(Pairs(FullParts(epochs[0]), States(epochs[1..])))
  }

  /** Their number: the legal parts of the first epoch, and its complete forms times what follows. */
  function StateCount(epochs: seq<Epoch>): nat
    requires forall i :: 0 <= i < |epochs| ==> epochs[i].ops != []
  {
    if epochs == [] then 0
    else PartCount(epochs[0], |epochs[0].ops|) + FullCount(epochs[0]) * StateCount(epochs[1..])
  }

  lemma FullPartsLength(e: Epoch)
    requires e.ops != [] && Increasing(e.ops)
    ensures forall x :: x in FullParts(e) ==> |x| == |e.ops|
  {
    forall x | x in FullParts(e) ensures |x| == |e.ops| {
      FullPartsExact(e, x);
    }
  }

  lemma LegalNonEmpty(epochs: seq<Epoch>, s: seq<EpochOp>)
    requires Legal(epochs, s)
    ensures s != []
  {
  }

  ghost predicate StatesAre(epochs: seq<Epoch>, s: seq<EpochOp>)
    requires NonEmpty(epochs)
  {
    s in States(epochs) <==> Legal(epochs, s)
  }

  lemma StatesStep(epochs: seq<Epoch>, s: seq<EpochOp>)
    requires epochs != [] && NonEmpty(epochs) && KeyedEpochs(epochs)
    requires |s| >= |epochs[0].ops| ==> StatesAre(epochs[1..], s[|epochs[0].ops|..])
    ensures StatesAre(epochs, s)
  {
    var e, n := epochs[0], |epochs[0].ops|;
    var full, rest := FullParts(e), States(epochs[1..]);
    PartsMembers(e, n, s);
    LegalPartLength(e, s);
    FullPartsLength(e);
    JoinMember(full, rest, n, s);
    if |s| > n {
      FullPartsExact(e, s[..n]);
    } else if |s| == n && Legal(epochs[1..], s[n..]) {
      LegalNonEmpty(epochs[1..], s[n..]);
      assert false;
    }
  }

  lemma {:induction false} StatesMembers(epochs: seq<Epoch>, s: seq<EpochOp>)
    requires NonEmpty(epochs) && KeyedEpochs(epochs)
    ensures StatesAre(epochs, s)
    decreases |epochs|
  {
    if epochs != [] {
      if |s| >= |epochs[0].ops| {
        StatesMembers(epochs[1..], s[|epochs[0].ops|..]);
      }
      StatesStep(epochs, s);
    }
  }

  lemma LongerStates(epochs: seq<Epoch>)
    requires epochs != [] && NonEmpty(epochs) && KeyedEpochs(epochs)
    ensures Parts(epochs[0], |epochs[0].ops|) !! JoinAll(Pairs(FullParts(epochs[0]), States(epochs[1..])))
  {
    var e, n, rest := epochs[0], |epochs[0].ops|, States(epochs[1..]);
    FullPartsLength(e);
    forall s | s in JoinAll(Pairs(FullParts(e), rest)) ensures s !in Parts(e, n) {
      PartsMembers(e, n, s);
      JoinMember(FullParts(e), rest, n, s);
      StatesMembers(epochs[1..], s[n..]);
      LegalNonEmpty(epochs[1..], s[n..]);
    }
  }

  /** There are exactly StateCount legal crash states. */
  lemma {:induction false} StatesSize(epochs: seq<Epoch>)
    requires NonEmpty(epochs) && KeyedEpochs(epochs)
    ensures |States(epochs)| == StateCount(epochs)
    decreases |epochs|
  {
    if epochs != [] {
      var e, n, rest := epochs[0], |epochs[0].ops|, States(epochs[1..]);
      StatesSize(epochs[1..]);
      PartsCount(e, n);
      FullPartsLength(e);
      FullPartsExact(e, e.ops);
      JoinCount(FullParts(e), rest, n, FullCount(e), StateCount(epochs[1..]));
      LongerStates(epochs);
      UnionSize(Parts(e, n), JoinAll(Pairs(FullParts(e), rest)), PartCount(e, n),
                FullCount(e) * StateCount(epochs[1..]));
    }
  }

  /** The index vectors of all legal crash states. */
  ghost function Keys(epochs: seq<Epoch>): set<seq<nat>>
    requires NonEmpty(epochs)
  {
    set s | s in States(epochs) :: Key(s)
  }

  /** As many index vectors as states. */
  lemma KeysSize(epochs: seq<Epoch>)
    requires NonEmpty(epochs) && KeyedEpochs(epochs)
    ensures |Keys(epochs)| == StateCount(epochs)
  {
    StatesSize(epochs);
    forall s, t | s in States(epochs) && t in States(epochs) && Key(s) == Key(t) ensures s == t {
      StatesMembers(epochs, s);
      StatesMembers(epochs, t);
      KeyIsFaithful(epochs, s, t);
    }
    ImageSize(States(epochs), Key, Keys(epochs));
  }

  lemma KeyOfLegal(epochs: seq<Epoch>, s: seq<EpochOp>)
    requires NonEmpty(epochs) && KeyedEpochs(epochs) && Legal(epochs, s)
    ensures Key(s) in Keys(epochs)
  {
    StatesMembers(epochs, s);
  }
}
