/** Recorded disk operations: the flag word of a bio, one log entry, and what writing a list of
    log entries to a disk does to the bytes of that disk. */
module DiskOps {
  import opened Finite

  newtype byte = x: int | 0 <= x < 256

  /** `unsigned int` and `unsigned long` of the machines the program supports. */
  type u32 = x: nat | x < 0x1_0000_0000
  type u64 = x: nat | x < 0x1_0000_0000_0000_0000

  const SECTOR_SIZE: nat := 512

  // ---------------------------------------------------------------- flags

  /** Bit positions follow the flag name table of the device wrapper. */
  const REQ_WRITE: bv64 := 1
  const REQ_SYNC: bv64 := 0x10
  const REQ_DISCARD: bv64 := 0x80
  const REQ_FUA: bv64 := 0x800
  const REQ_FLUSH: bv64 := 0x1000
  const REQ_SOFTBARRIER: bv64 := 0x1_0000
  const REQ_FLUSH_SEQ: bv64 := 0x800_0000

  predicate Has(rw: bv64, flag: bv64) {
    rw & flag != 0
  }

  datatype Meta = Meta(biFlags: bv64, biRw: bv64, sector: u64, size: u32)

  /** A log entry. An empty `data` stands for a null data pointer; entries are copied, never shared
      while being changed, so they are values. */
  datatype DiskWrite = DiskWrite(meta: Meta, data: seq<byte>) {

    predicate HasWrite() { Has(meta.biRw, REQ_WRITE) }

    predicate HasFlush() { Has(meta.biRw, REQ_FLUSH) }

    predicate HasFlushSeq() { Has(meta.biRw, REQ_FLUSH_SEQ) }

    predicate HasFua() { Has(meta.biRw, REQ_FUA) }

    predicate HasSoftBarrier() { Has(meta.biRw, REQ_SOFTBARRIER) }

    predicate IsBarrierWrite() {
      (HasFua() || HasFlush() || HasFlushSeq() || HasSoftBarrier()) && HasWrite()
    }

    predicate IsAsyncWrite() {
      !(Has(meta.biRw, REQ_SYNC) || HasFua() || HasFlush() || HasFlushSeq() || HasSoftBarrier()) && HasWrite()
    }

    /** The barrier writes that the epoch cutter takes apart. */
    predicate IsSplit() {
      IsBarrierWrite() && (HasFlush() || HasFlushSeq()) && !HasFua()
    }

    /** The buffer holds as many bytes as the metadata says. */
    predicate WellFormed() { |data| == meta.size }

    function WithRw(rw: bv64): DiskWrite {
      this.(meta := meta.(biRw := rw))
    }

    function SetFlush(): DiskWrite { WithRw(meta.biRw | REQ_FLUSH) }

    function SetFlushSeq(): DiskWrite { WithRw(meta.biRw | REQ_FLUSH_SEQ) }

    function ClearFlush(): DiskWrite { WithRw(meta.biRw & !REQ_FLUSH) }

    function ClearFlushSeq(): DiskWrite { WithRw(meta.biRw & !REQ_FLUSH_SEQ) }

    /** A default-constructed entry that is given the flush flags of this one. */
    function FlagHalf(): DiskWrite {
      var blank := DiskWrite(Meta(0, 0, 0, 0), []);
      var half := if HasFlush() then blank.SetFlush() else blank;
      if HasFlushSeq() then half.SetFlushSeq() else half
    }

    /** This entry without its flush flags. */
    function DataHalf(): DiskWrite {
      var half := if HasFlush() then this.ClearFlush() else this;
      if HasFlushSeq() then half.ClearFlushSeq() else half
    }
  }

  /** The flush flags of a split operation move to the flag half, which carries no write; everything
      else (write, FUA, soft barrier, target and data) stays with the data half. */
  lemma SplitMovesFlushFlags(op: DiskWrite)
    requires op.IsSplit()
    ensures op.FlagHalf().HasFlush() == op.HasFlush() && op.FlagHalf().HasFlushSeq() == op.HasFlushSeq()
    ensures !op.FlagHalf().HasWrite() && op.FlagHalf().data == []
    ensures !op.DataHalf().HasFlush() && !op.DataHalf().HasFlushSeq()
    ensures op.DataHalf().HasWrite() && !op.DataHalf().HasFua()
    ensures op.DataHalf().HasSoftBarrier() == op.HasSoftBarrier()
    ensures op.DataHalf() == op.WithRw(op.DataHalf().meta.biRw)
  {
    var rw := op.meta.biRw;
    var rest := if op.HasFlush() then rw & !REQ_FLUSH else rw;
    ClearOther(rw, REQ_FLUSH, REQ_WRITE);
    ClearOther(rest, REQ_FLUSH_SEQ, REQ_WRITE);
    ClearOther(rw, REQ_FLUSH, REQ_FUA);
    ClearOther(rest, REQ_FLUSH_SEQ, REQ_FUA);
    ClearOther(rw, REQ_FLUSH, REQ_SOFTBARRIER);
    ClearOther(rest, REQ_FLUSH_SEQ, REQ_SOFTBARRIER);
    ClearOther(rw, REQ_FLUSH, REQ_FLUSH_SEQ);
    ClearOther(rest, REQ_FLUSH_SEQ, REQ_FLUSH);
    ClearSame(rw, REQ_FLUSH);
    ClearSame(rest, REQ_FLUSH_SEQ);
  }

  lemma ClearOther(rw: bv64, flag: bv64, other: bv64)
    requires flag & other == 0
    ensures (rw & !flag) & other == rw & other
  {
  }

  lemma ClearSame(rw: bv64, flag: bv64)
    ensures (rw & !flag) & flag == 0
  {
  }

  /** A write is either asynchronous, or a barrier, or merely synchronous: never the first two at once. */
  lemma AsyncIsNotBarrier(op: DiskWrite)
    ensures !(op.IsAsyncWrite() && op.IsBarrierWrite())
    ensures op.HasWrite() && !Has(op.meta.biRw, REQ_SYNC) ==> (op.IsAsyncWrite() <==> !op.IsBarrierWrite())
  {
  }

  /** A write with FUA, flush, flush sequence or soft barrier. */
  predicate BarrierBits(w: bv64) {
    w & 0x1 != 0 && w & 0x801_1800 != 0
  }

  /** A barrier write with a flush flag and without FUA. */
  predicate SplitBits(w: bv64) {
    w & 0x1 != 0 && w & 0x800_1000 != 0 && w & 0x800 == 0
  }

  /** What the predicates ask of the flag word, bit by bit: write 0x1, sync 0x10, FUA 0x800, flush 0x1000, soft barrier
      0x1_0000, flush sequence 0x800_0000. Whether a barrier is synchronous makes no difference. */
  lemma FlagWords(op: DiskWrite)
    ensures op.HasWrite() <==> op.meta.biRw & 0x1 != 0
    ensures op.HasFua() <==> op.meta.biRw & 0x800 != 0
    ensures op.HasFlush() <==> op.meta.biRw & 0x1000 != 0
    ensures op.HasFlushSeq() <==> op.meta.biRw & 0x800_0000 != 0
    ensures op.HasSoftBarrier() <==> op.meta.biRw & 0x1_0000 != 0
    ensures op.IsBarrierWrite() <==> op.meta.biRw & 0x1 != 0 && op.meta.biRw & 0x801_1800 != 0
    ensures op.IsAsyncWrite() <==> op.meta.biRw & 0x801_1811 == 0x1
    ensures op.IsSplit() <==>
            op.meta.biRw & 0x1 != 0 && op.meta.biRw & 0x800_1000 != 0 && op.meta.biRw & 0x800 == 0
  {
    BarrierMask(op.meta.biRw);
    AsyncMask(op.meta.biRw);
  }

  lemma BarrierMask(w: bv64)
    ensures w & 0x801_1800 != 0 <==> w & 0x800 != 0 || w & 0x1000 != 0 || w & 0x800_0000 != 0 || w & 0x1_0000 != 0
    ensures w & 0x800_1000 != 0 <==> w & 0x1000 != 0 || w & 0x800_0000 != 0
  {
  }

  lemma AsyncMask(w: bv64)
    ensures w & 0x801_1811 == 0x1 <==> w & 0x1 != 0 && w & 0x10 == 0 && w & 0x801_1800 == 0
  {
  }

  lemma OneFlag(w: bv64)
    ensures w & 0x1000 == 0 || w & 0x1000 == 0x1000
    ensures w & 0x800_0000 == 0 || w & 0x800_0000 == 0x800_0000
    ensures w & 0x800_1000 == (w & 0x1000) | (w & 0x800_0000)
  {
  }

  /** The flag half is blank but for the flush flags of the operation. */
  lemma FlagHalfWord(op: DiskWrite)
    ensures op.FlagHalf() == DiskWrite(Meta(0, op.meta.biRw & 0x800_1000, 0, 0), [])
  {
    OneFlag(op.meta.biRw);
  }

  /** The data half of a flush that has all other flags but FUA keeps all of these, and that of a flush without other
      flags than write and flush gets none. */
  lemma DataHalfWord(full: DiskWrite, bare: DiskWrite)
    requires full.meta.biRw == 0xffff_ffff_ffff_f7ff && bare.meta.biRw == 0x800_1001
    ensures full.DataHalf() == full.WithRw(0xffff_ffff_f7ff_e7ff) && bare.DataHalf() == bare.WithRw(0x1)
  {
  }

  // ---------------------------------------------------------------- disk images

  type Image = seq<byte>

  /** The image with `d` stored at byte address `at`. */
  function Splice(img: Image, at: nat, d: seq<byte>): (r: Image)
    requires at + |d| <= |img|
    ensures |r| == |img|
    ensures forall a :: 0 <= a < |img| ==> r[a] == if at <= a < at + |d| then d[a - at] else img[a]
  {
    img[..at] + d + img[at + |d|..]
  }

  lemma SpliceTwice(img: Image, at: nat, d: seq<byte>, e: seq<byte>)
    requires at + |d| + |e| <= |img|
    ensures Splice(Splice(img, at, d), at + |d|, e) == Splice(img, at, d + e)
  {
  }

  lemma SpliceNothing(img: Image, at: nat)
    requires at <= |img|
    ensures Splice(img, at, []) == img
  {
  }

  /** The image after a write of `d`; a write of no bytes may be addressed behind the end. */
  function Laid(img: Image, at: nat, d: seq<byte>): (r: Image)
    requires d == [] || at + |d| <= |img|
    ensures |r| == |img|
  {
    if d == [] then img else Splice(img, at, d)
  }

  lemma LaidTwice(img: Image, at: nat, d: seq<byte>, e: seq<byte>)
    requires d + e == [] || at + |d| + |e| <= |img|
    ensures Laid(Laid(img, at, d), at + |d|, e) == Laid(img, at, d + e)
  {
    if d == [] {
      assert d + e == e;
    } else if e == [] {
      assert d + e == d;
    } else {
      SpliceTwice(img, at, d, e);
    }
  }

  /** The operation, if it is a write at all, has its data and lies on a disk of `n` bytes. */
  predicate Fits(op: DiskWrite, n: nat) {
    op.HasWrite() ==> op.WellFormed() && (op.data == [] || SECTOR_SIZE * op.meta.sector + |op.data| <= n)
  }

  ghost predicate AllFit(ops: seq<DiskWrite>, n: nat) {
    forall i :: 0 <= i < |ops| ==> Fits(ops[i], n)
  }

  function Apply(img: Image, op: DiskWrite): (r: Image)
    requires Fits(op, |img|)
    ensures |r| == |img|
  {
    if op.HasWrite() then Laid(img, SECTOR_SIZE * op.meta.sector, op.data) else img
  }

  /** The image after writing the operations in order, each one whole. */
  function Replay(img: Image, ops: seq<DiskWrite>): (r: Image)
    requires AllFit(ops, |img|)
    ensures |r| == |img|
    decreases |ops|
  {
    if ops == [] then img else Apply(Replay(img, ops[..|ops| - 1]), ops[|ops| - 1])
  }

  lemma {:induction false} ReplayAppend(img: Image, a: seq<DiskWrite>, b: seq<DiskWrite>)
    requires AllFit(a, |img|) && AllFit(b, |img|)
    ensures AllFit(a + b, |img|) && Replay(img, a + b) == Replay(Replay(img, a), b)
    decreases |b|
  {
    if b == [] {
      assert a + b == a;
    } else {
      var m := |b| - 1;
      ReplayAppend(img, a, b[..m]);
      assert (a + b)[..|a + b| - 1] == a + b[..m];
    }
  }

  lemma FitLast(front: seq<DiskWrite>, op: DiskWrite, n: nat)
    requires AllFit(front, n) && Fits(op, n)
    ensures AllFit(front + [op], n)
  {
  }

  lemma ReplayLast(img: Image, front: seq<DiskWrite>, op: DiskWrite)
    requires AllFit(front, |img|) && Fits(op, |img|)
    ensures AllFit(front + [op], |img|) && Replay(img, front + [op]) == Apply(Replay(img, front), op)
  {
    FitLast(front, op, |img|);
    assert (front + [op])[..|front|] == front;
  }

  lemma ReplayFirst(img: Image, ops: seq<DiskWrite>)
    requires ops != [] && AllFit(ops, |img|)
    ensures Replay(img, ops) == Replay(Apply(img, ops[0]), ops[1..])
  {
    assert [ops[0]][..0] == [];
    ReplayAppend(img, [ops[0]], ops[1..]);
    assert [ops[0]] + ops[1..] == ops;
  }

  // ---------------------------------------------------------------- reordering

  /** The operation writes byte `a` of the disk. */
  predicate Covers(op: DiskWrite, a: nat) {
    op.HasWrite() && SECTOR_SIZE * op.meta.sector <= a < SECTOR_SIZE * op.meta.sector + |op.data|
  }

  /** No byte of the disk is written by two of the operations. */
  ghost predicate Disjoint(ops: seq<DiskWrite>) {
    forall i, j, a: nat :: 0 <= i < |ops| && 0 <= j < |ops| && i != j && Covers(ops[i], a) ==> !Covers(ops[j], a)
  }

  /** `q` lists the operations of `p` in the order given by `idx`. */
  ghost predicate Reorders(idx: seq<nat>, p: seq<DiskWrite>, q: seq<DiskWrite>) {
    && |idx| == |q| == |p|
    && (forall j :: 0 <= j < |idx| ==> idx[j] < |p| && q[j] == p[idx[j]])
    && (forall i, j :: 0 <= i < j < |idx| ==> idx[i] != idx[j])
  }

  /** Byte `a` of a disk that held `old` there, after the operations: the last covering one decides. */
  function ByteAfter(ops: seq<DiskWrite>, a: nat, before: byte): byte
    decreases |ops|
  {
    if ops == [] then before
    else
      var op := ops[|ops| - 1];
      if Covers(op, a) then op.data[a - SECTOR_SIZE * op.meta.sector]
      else ByteAfter(ops[..|ops| - 1], a, before)
  }

  lemma {:induction false} ReplayByte(img: Image, ops: seq<DiskWrite>, a: nat)
    requires AllFit(ops, |img|) && a < |img|
    ensures Replay(img, ops)[a] == ByteAfter(ops, a, img[a])
    decreases |ops|
  {
    if ops != [] {
      ReplayByte(img, ops[..|ops| - 1], a);
    }
  }

  /** When one operation alone covers the byte, it decides wherever it stands in the list. */
  lemma {:induction false} SoleCover(ops: seq<DiskWrite>, a: nat, before: byte, k: nat)
    requires k < |ops| && Covers(ops[k], a)
    requires forall i :: 0 <= i < |ops| && i != k ==> !Covers(ops[i], a)
    ensures ByteAfter(ops, a, before) == ops[k].data[a - SECTOR_SIZE * ops[k].meta.sector]
    decreases |ops|
  {
    if k < |ops| - 1 {
      SoleCover(ops[..|ops| - 1], a, before, k);
    }
  }

  lemma {:induction false} NoCover(ops: seq<DiskWrite>, a: nat, before: byte)
    requires forall i :: 0 <= i < |ops| ==> !Covers(ops[i], a)
    ensures ByteAfter(ops, a, before) == before
    decreases |ops|
  {
    if ops != [] {
      NoCover(ops[..|ops| - 1], a, before);
    }
  }

  lemma ReorderByte(p: seq<DiskWrite>, q: seq<DiskWrite>, idx: seq<nat>, a: nat, before: byte)
    requires Disjoint(p) && Reorders(idx, p, q)
    ensures ByteAfter(q, a, before) == ByteAfter(p, a, before)
  {
    if k :| 0 <= k < |p| && Covers(p[k], a) {
      DistinctIsOnto(idx, k);
      var j :| 0 <= j < |idx| && idx[j] == k;
      SoleCover(p, a, before, k);
      SoleCover(q, a, before, j);
    } else {
      NoCover(p, a, before);
      NoCover(q, a, before);
    }
  }

  /** Writes that share no byte may be replayed in any order. */
  lemma ReorderDisjoint(img: Image, p: seq<DiskWrite>, q: seq<DiskWrite>, idx: seq<nat>)
    requires AllFit(p, |img|) && Disjoint(p) && Reorders(idx, p, q)
    ensures AllFit(q, |img|) && Replay(img, q) == Replay(img, p)
  {
    forall a | 0 <= a < |img|
      ensures Replay(img, q)[a] == Replay(img, p)[a]
    {
      ReplayByte(img, p, a);
      ReplayByte(img, q, a);
      ReorderByte(p, q, idx, a, img[a]);
    }
  }

  // ---------------------------------------------------------------- replaying onto another disk

  predicate Written(ops: seq<DiskWrite>, a: nat) {
    exists k :: 0 <= k < |ops| && Covers(ops[k], a)
  }

  lemma {:induction false} CoverForgets(ops: seq<DiskWrite>, a: nat, k: nat, x: byte, y: byte)
    requires k < |ops| && Covers(ops[k], a)
    ensures ByteAfter(ops, a, x) == ByteAfter(ops, a, y)
    decreases |ops|
  {
    if k < |ops| - 1 {
      CoverForgets(ops[..|ops| - 1], a, k, x, y);
    }
  }

  lemma ByteAfterSameIff(ops: seq<DiskWrite>, a: nat, x: byte, y: byte)
    ensures ByteAfter(ops, a, x) == ByteAfter(ops, a, y) <==> x == y || Written(ops, a)
  {
    if k :| 0 <= k < |ops| && Covers(ops[k], a) {
      CoverForgets(ops, a, k, x, y);
    } else {
      NoCover(ops, a, x);
      NoCover(ops, a, y);
    }
  }

  /** Replaying the same operations onto two disks gives the same image if and only if every byte in which they differ
      is written. */
  lemma ReplaySameIff(one: Image, other: Image, ops: seq<DiskWrite>)
    requires |one| == |other| && AllFit(ops, |one|)
    ensures Replay(one, ops) == Replay(other, ops) <==>
            forall a :: 0 <= a < |one| && one[a] != other[a] ==> Written(ops, a)
  {
    forall a | 0 <= a < |one|
      ensures Replay(one, ops)[a] == Replay(other, ops)[a] <==> one[a] == other[a] || Written(ops, a)
    {
      ReplayByte(one, ops, a);
      ReplayByte(other, ops, a);
      ByteAfterSameIff(ops, a, one[a], other[a]);
    }
  }
}
