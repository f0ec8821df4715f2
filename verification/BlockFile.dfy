/** Writing to a block device file: short writes, write-back in whole pages, and the harness's replay loop. */
module BlockFile {
  import opened DiskOps
  import opened PageTree
  import opened CowBrd
  import opened Segments

  /** The bytes of a disk as its readers see them. */
  ghost function ImageOf(dev: BrdDevice): (r: Image)
    requires dev.Valid()
    reads dev, dev.pages.Values
    reads if dev.parent == null then {} else {dev.parent}
    reads if dev.parent == null then {} else dev.parent.pages.Values
    ensures |r| == SECTOR_SIZE * dev.capacity
  {
    View(dev.Contents(), dev.ParentContents(), SECTOR_SIZE * dev.capacity)
  }

  /** The device can be written, its pages lie on it, and byte addresses on it are ordinary file offsets. */
  ghost predicate Writable(dev: BrdDevice)
    reads dev, dev.pages.Values
    reads if dev.parent == null then {} else {dev.parent}
    reads if dev.parent == null then {} else dev.parent.pages.Values
  {
    && dev.Valid() && dev.isWritable && InRange(dev.Contents(), dev.capacity)
    && SECTOR_SIZE * dev.capacity < 0x8000_0000_0000_0000
  }

  /** The device can be written and shows the image; its parent holds the given pages. */
  ghost predicate Shows(dev: BrdDevice, img: Image, parentPages: Tree)
    reads dev, dev.pages.Values
    reads if dev.parent == null then {} else {dev.parent}
    reads if dev.parent == null then {} else dev.parent.pages.Values
  {
    Writable(dev) && ImageOf(dev) == img && dev.ParentContents() == parentPages
  }

  const WRITE_RW: bv64 := 1
  const READ_RW: bv64 := 0

  /** A request for one page, cut short at the end of the disk. */
  function PageBio(rw: bv64, page: nat, data: seq<byte>): Bio
    requires |data| <= PAGE_SIZE && PAGE_SECTORS * page < 0x1_0000_0000_0000_0000
  {
    Bio(0, rw, PAGE_SECTORS * page, |data|, [data])
  }

  lemma PageBioShape(rw: bv64, page: nat, data: seq<byte>, own: set<nat>, parent: set<nat>, capacity: nat)
    requires |data| <= PAGE_SIZE && |data| % SECTOR_SIZE == 0 && PAGE_SECTORS * page < 0x1_0000_0000_0000_0000
    requires PAGE_SIZE * page + |data| <= SECTOR_SIZE * capacity
    requires rw == WRITE_RW || rw == READ_RW
    ensures var bio := PageBio(rw, page, data);
            && bio.Formed() && !bio.IsDiscard() && (bio.IsWrite() <==> rw == WRITE_RW)
            && Concat(bio.segs) == data && bio.EndSector() <= capacity
            && Pieces(bio.sector, bio.segs) == [Piece(PAGE_SECTORS * page, data)]
            && SafeBio(own, parent, capacity, bio)
  {
    var bio := PageBio(rw, page, data);
    assert [data][1..] == [];
    assert Pieces(bio.sector + |data| / SECTOR_SIZE, []) == [];
    assert SpanOf(PAGE_SECTORS * page, |data|).rest == 0;
  }

  lemma PageLaid(own: Tree, parent: Tree, capacity: nat, page: nat, data: seq<byte>, bio: Bio)
    requires Paged(own) && Paged(parent) && bio.Formed() && bio.IsWrite() && !bio.IsDiscard()
    requires bio.sector == PAGE_SECTORS * page && bio.size == |data| && Concat(bio.segs) == data
    requires SafeBio(own.Keys, parent.Keys, capacity, bio) && bio.EndSector() <= capacity
    ensures PAGE_SIZE * page + |data| <= SECTOR_SIZE * capacity
    ensures View(After(own, parent, true, capacity, bio), parent, SECTOR_SIZE * capacity)
         == Splice(View(own, parent, SECTOR_SIZE * capacity), PAGE_SIZE * page, data)
  {
    BioStretch(bio, capacity);
    RequestView(own, parent, true, capacity, bio);
  }

  lemma PageWritten(own: Tree, parent: Tree, capacity: nat, page: nat, data: seq<byte>)
    requires Paged(own) && Paged(parent) && InRange(own, capacity)
    requires |data| <= PAGE_SIZE && |data| % SECTOR_SIZE == 0 && PAGE_SECTORS * page < 0x1_0000_0000_0000_0000
    requires PAGE_SIZE * page + |data| <= SECTOR_SIZE * capacity
    ensures PageBio(WRITE_RW, page, data).Formed()
    ensures var after := After(own, parent, true, capacity, PageBio(WRITE_RW, page, data));
            && InRange(after, capacity)
            && View(after, parent, SECTOR_SIZE * capacity)
               == Splice(View(own, parent, SECTOR_SIZE * capacity), PAGE_SIZE * page, data)
  {
    PageBioShape(WRITE_RW, page, data, own.Keys, parent.Keys, capacity);
    PageLaid(own, parent, capacity, page, data, PageBio(WRITE_RW, page, data));
    AfterInRange(own, parent, true, capacity, PageBio(WRITE_RW, page, data));
  }

  /** Replacing a page by its contents with `d` laid in is laying `d` into the disk. */
  lemma PageSplice(img: Image, start: nat, n: nat, o: nat, d: seq<byte>)
    requires start + n <= |img| && o + |d| <= n
    ensures Splice(img, start, Splice(Window(img, start, n), o, d)) == Splice(img, start + o, d)
  {
  }

  /** Writes one whole page through to the device. */
  method WritePage(dev: BrdDevice, page: nat, data: seq<byte>, past: seq<byte>, ghost img: Image,
                   ghost parentPages: Tree)
    requires Shows(dev, img, parentPages) && |past| == PAGE_SIZE && |data| <= PAGE_SIZE && |data| % SECTOR_SIZE == 0
    requires PAGE_SIZE * page + |data| <= |img|
    modifies dev, dev.pages.Values
    ensures fresh(dev.pages.Values - old(dev.pages.Values))
    ensures Shows(dev, Splice(img, PAGE_SIZE * page, data), parentPages)
  {
    PageWritten(dev.Contents(), parentPages, dev.capacity, page, data);
    var ok, dst := dev.MakeRequest(PageBio(WRITE_RW, page, data), past);
  }

  /** Reads one whole page from the device. */
  method ReadPage(dev: BrdDevice, page: nat, n: nat, past: seq<byte>, ghost img: Image, ghost parentPages: Tree)
    returns (data: seq<byte>)
    requires Shows(dev, img, parentPages) && |past| == PAGE_SIZE && n <= PAGE_SIZE && n % SECTOR_SIZE == 0
    requires PAGE_SIZE * page + n <= |img|
    ensures data == Window(img, PAGE_SIZE * page, n)
  {
    data := dev.CopyFrom(PAGE_SECTORS * page, n, past);
    ghost var p := Piece(PAGE_SECTORS * page, Zeros(n));
    assert SpanOf(PAGE_SECTORS * page, n).rest == 0;
    ReadView(dev.Contents(), dev.ParentContents(), p, past, SECTOR_SIZE * dev.capacity);
  }

  /** The sectors of a page on a disk of `capacity` sectors; the last page may be cut short. */
  function SectorsIn(page: nat, capacity: nat): (k: nat)
    requires PAGE_SECTORS * page <= capacity
    ensures k <= PAGE_SECTORS && PAGE_SECTORS * page + k <= capacity
  {
    if PAGE_SECTORS * page + PAGE_SECTORS <= capacity then PAGE_SECTORS else capacity - PAGE_SECTORS * page
  }

  /** Lays bytes that stay inside one page into the device: read the page, change it, write it back. */
  method WriteInPage(dev: BrdDevice, page: nat, o: nat, d: seq<byte>, past: seq<byte>, ghost img: Image,
                     ghost parentPages: Tree)
    requires Shows(dev, img, parentPages) && |past| == PAGE_SIZE && d != []
    requires o + |d| <= PAGE_SIZE && PAGE_SIZE * page + o + |d| <= |img|
    modifies dev, dev.pages.Values
    ensures fresh(dev.pages.Values - old(dev.pages.Values))
    ensures Shows(dev, Splice(img, PAGE_SIZE * page + o, d), parentPages)
  {
    var n := SECTOR_SIZE * SectorsIn(page, dev.capacity);
    PageSplice(img, PAGE_SIZE * page, n, o, d);
    var before := ReadPage(dev, page, n, past, img, parentPages);
    WritePage(dev, page, Splice(before, o, d), past, img, parentPages);
  }

  /** How many of `left` bytes at byte address `at` lie in the page of the first of them. */
  method ShareOfPage(at: nat, left: nat) returns (page: nat, o: nat, n: nat)
    requires left > 0
    ensures PAGE_SIZE * page + o == at && 0 < n <= left && o + n <= PAGE_SIZE
  {
    page, o := at / PAGE_SIZE, at % PAGE_SIZE;
    n := if left <= PAGE_SIZE - o then left else PAGE_SIZE - o;
  }

  /** Lays the next bytes into the device, as many as the page of the first of them can take. */
  method WriteShare(dev: BrdDevice, at: nat, data: seq<byte>, done: nat, past: seq<byte>, ghost img: Image,
                    ghost parentPages: Tree)
    returns (next: nat)
    requires |past| == PAGE_SIZE && done < |data| && at + |data| <= |img| == SECTOR_SIZE * dev.capacity
    requires Shows(dev, Splice(img, at, data[..done]), parentPages)
    modifies dev, dev.pages.Values
    ensures fresh(dev.pages.Values - old(dev.pages.Values)) && done < next <= |data|
    ensures Shows(dev, Splice(img, at, data[..next]), parentPages)
  {
    var page, o, n := ShareOfPage(at + done, |data| - done);
    next := done + n;
    ghost var before, after := Splice(img, at, data[..done]), Splice(img, at, data[..next]);
    var part := data[done..next];
    assert Splice(before, at + done, part) == after by {
      SpliceMore(img, at, data, done, n);
    }
    WriteInPage(dev, page, o, part, past, before, parentPages);
  }

  /** Lays bytes into the device page by page. */
  method WriteBytes(dev: BrdDevice, at: nat, data: seq<byte>, past: seq<byte>)
    requires Writable(dev) && |past| == PAGE_SIZE && at + |data| <= SECTOR_SIZE * dev.capacity
    modifies dev, dev.pages.Values
    ensures Writable(dev) && fresh(dev.pages.Values - old(dev.pages.Values))
    ensures dev.ParentContents() == old(dev.ParentContents())
    ensures ImageOf(dev) == Splice(old(ImageOf(dev)), at, data)
  {
    var done: nat := 0;
    ghost var img, parentPages := ImageOf(dev), dev.ParentContents();
    SpliceNothing(img, at);
    while done < |data|
      invariant done <= |data| && fresh(dev.pages.Values - old(dev.pages.Values))
      invariant Shows(dev, Splice(img, at, data[..done]), parentPages)
    {
      done := WriteShare(dev, at, data, done, past, img, parentPages);
    }
    assert data[..|data|] == data;
  }

  lemma SpliceMore(img: Image, at: nat, data: seq<byte>, done: nat, n: nat)
    requires at + |data| <= |img| && done + n <= |data|
    ensures Splice(Splice(img, at, data[..done]), at + done, data[done..done + n]) == Splice(img, at, data[..done + n])
  {
    PrefixJoin(data, done, n);
    SpliceTwice(img, at, data[..done], data[done..done + n]);
  }

  /** `write(2)`: the kernel takes as many bytes as it likes, at least one and none behind the end of the disk,
      or reports an error. `answer` is what it would like. */
  method Syscall(dev: BrdDevice, at: nat, buf: seq<byte>, answer: int, past: seq<byte>) returns (res: int)
    requires Writable(dev) && |past| == PAGE_SIZE
    modifies dev, dev.pages.Values
    ensures Writable(dev) && fresh(dev.pages.Values - old(dev.pages.Values))
    ensures dev.ParentContents() == old(dev.ParentContents())
    ensures res < 0 <==> answer < 0 || (buf != [] && at >= SECTOR_SIZE * dev.capacity)
    ensures res <= |buf| && (res >= 0 && buf != [] ==> res > 0 && at + res <= SECTOR_SIZE * dev.capacity)
    ensures ImageOf(dev) == if res <= 0 then old(ImageOf(dev)) else Laid(old(ImageOf(dev)), at, buf[..res])
  {
    var end := SECTOR_SIZE * dev.capacity;
    if answer < 0 {
      return -1;
    }
    if buf == [] {
      return 0;
    }
    if at >= end {
      return -1;
    }
    var wanted := if answer == 0 then 1 else answer;
    res := if wanted <= |buf| then wanted else |buf|;
    res := if res <= end - at then res else end - at;
    WriteBytes(dev, at, buf[..res], past);
  }

  /** One call of the write loop: the next bytes of the operation, behind those already written. */
  method WriteChunk(dev: BrdDevice, at: nat, data: seq<byte>, written: nat, answer: int, past: seq<byte>,
                    ghost img: Image)
    returns (res: int)
    requires Writable(dev) && |past| == PAGE_SIZE && written <= |data| && |img| == SECTOR_SIZE * dev.capacity
    requires (written == 0 || at + written <= |img|) && ImageOf(dev) == Laid(img, at, data[..written])
    modifies dev, dev.pages.Values
    ensures Writable(dev) && fresh(dev.pages.Values - old(dev.pages.Values))
    ensures dev.ParentContents() == old(dev.ParentContents())
    ensures res < 0 <==> answer < 0 || (written < |data| && at + written >= |img|)
    ensures res >= 0 ==> written + res <= |data| && (written < |data| ==> res > 0)
    ensures res >= 0 ==> (written + res == 0 || at + written + res <= |img|)
                         && ImageOf(dev) == Laid(img, at, data[..written + res])
    ensures res < 0 ==> ImageOf(dev) == old(ImageOf(dev))
  {
    res := Syscall(dev, at + written, data[written..], answer, past);
    if res >= 0 {
      LaidMore(img, at, data, written, res);
    }
  }

  lemma LaidMore(img: Image, at: nat, data: seq<byte>, written: nat, res: nat)
    requires written + res <= |data| && (written + res == 0 || at + written + res <= |img|)
    ensures Laid(Laid(img, at, data[..written]), at + written, data[written..][..res])
         == Laid(img, at, data[..written + res])
  {
    var (d, e) := (data[..written], data[written..][..res]);
    PrefixJoin(data, written, res);
    LaidTwice(img, at, d, e);
  }

  lemma PrefixJoin<T>(s: seq<T>, m: nat, k: nat)
    requires m + k <= |s|
    ensures s[..m] + s[m..][..k] == s[..m + k] == s[..m] + s[m..m + k]
  {
  }

  /** The first `n` bytes of the data can be laid at the address, and the device shows the image with them laid in. */
  ghost predicate LaidTo(dev: BrdDevice, img: Image, at: nat, data: seq<byte>, n: nat)
    reads dev, dev.pages.Values
    reads if dev.parent == null then {} else {dev.parent}
    reads if dev.parent == null then {} else dev.parent.pages.Values
  {
    && dev.Valid() && |img| == SECTOR_SIZE * dev.capacity && n <= |data| && (n == 0 || at + n <= |img|)
    && ImageOf(dev) == Laid(img, at, data[..n])
  }

  /** Writes a buffer, call by call, until all its bytes are taken or a call fails; then some leading bytes have been
      written. An empty buffer is written once, too. */
  method WriteAll(dev: BrdDevice, at: nat, data: seq<byte>, answers: nat -> int, first: nat, past: seq<byte>)
    returns (ok: bool, next: nat, written: nat)
    requires Writable(dev) && |past| == PAGE_SIZE
    modifies dev, dev.pages.Values
    ensures Writable(dev) && fresh(dev.pages.Values - old(dev.pages.Values))
    ensures dev.ParentContents() == old(dev.ParentContents())
    ensures LaidTo(dev, old(ImageOf(dev)), at, data, written) && (ok ==> written == |data|)
    ensures first < next && forall k :: first <= k < next - 1 ==> answers(k) >= 0
    ensures ok <==> answers(next - 1) >= 0 && (written < |data| ==> at + written < SECTOR_SIZE * dev.capacity)
  {
    written := 0;
    next := first;
    ghost var img := ImageOf(dev);
    var more := true;
    while more
      invariant Writable(dev) && fresh(dev.pages.Values - old(dev.pages.Values))
      invariant dev.ParentContents() == old(dev.ParentContents())
      invariant LaidTo(dev, img, at, data, written) && (!more ==> written == |data| && first < next)
      invariant first <= next && forall k :: first <= k < next ==> answers(k) >= 0
      decreases |data| - written, more
    {
      var res := WriteChunk(dev, at, data, written, answers(next), past, img);
      next := next + 1;
      if res < 0 {
        return false, next, written;
      }
      written := written + res;
      more := written < |data|;
    }
    ok := true;
  }

  /** Seeks to the operation's sector and writes its data. A block device refuses to seek behind its end; that covers
      addresses that read as negative offsets. */
  method WriteOp(dev: BrdDevice, op: DiskWrite, answers: nat -> int, first: nat, past: seq<byte>)
    returns (ok: bool, next: nat, written: nat)
    requires Writable(dev) && |past| == PAGE_SIZE && op.HasWrite() && op.WellFormed()
    requires SECTOR_SIZE * op.meta.sector < 0x1_0000_0000_0000_0000
    modifies dev, dev.pages.Values
    ensures Writable(dev) && fresh(dev.pages.Values - old(dev.pages.Values))
    ensures dev.ParentContents() == old(dev.ParentContents())
    ensures ok ==> Fits(op, SECTOR_SIZE * dev.capacity) && ImageOf(dev) == Apply(old(ImageOf(dev)), op)
    ensures LaidTo(dev, old(ImageOf(dev)), SECTOR_SIZE * op.meta.sector, op.data, written)
    ensures first <= next && forall k :: first <= k < next - 1 ==> answers(k) >= 0
    ensures !ok ==> !Seekable(op, SECTOR_SIZE * dev.capacity) || !Fits(op, SECTOR_SIZE * dev.capacity)
                    || (first < next && answers(next - 1) < 0)
    ensures ok ==> Seekable(op, SECTOR_SIZE * dev.capacity)
  {
    var at := SECTOR_SIZE * op.meta.sector;
    if at > SECTOR_SIZE * dev.capacity {
      return false, first, 0;
    }
    ok, next, written := WriteAll(dev, at, op.data, answers, first, past);
    assert op.data[..|op.data|] == op.data;
  }

  /** What the harness demands of an operation it replays: a whole buffer, a byte address that does not wrap. */
  predicate Sound(op: DiskWrite) {
    op.HasWrite() ==> op.WellFormed() && SECTOR_SIZE * op.meta.sector < 0x1_0000_0000_0000_0000
  }

  /** The operation's byte address is not behind the end of a disk of `n` bytes. */
  predicate Seekable(op: DiskWrite, n: nat) {
    op.HasWrite() ==> SECTOR_SIZE * op.meta.sector <= n
  }

  ghost predicate AllSeekable(ops: seq<DiskWrite>, n: nat) {
    forall i :: 0 <= i < |ops| ==> Seekable(ops[i], n)
  }

  ghost predicate Replayable(ops: seq<DiskWrite>) {
    forall i :: 0 <= i < |ops| ==> Sound(ops[i])
  }

  /** When no call reports an error, writing the operations succeeds exactly if every one of them lies on the disk; an
      empty one may be addressed to its end. */
  ghost predicate Decided(answers: nat -> int, ops: seq<DiskWrite>, n: nat, ok: bool) {
    (forall k: nat :: answers(k) >= 0) ==> (ok <==> AllFit(ops, n) && AllSeekable(ops, n))
  }

  lemma PrefixLast<T>(s: seq<T>, i: nat)
    requires i < |s|
    ensures s[..i + 1] == s[..i] + [s[i]]
  {
  }

  /** Replays the operations onto the device. However the kernel splits the writes: if all of them succeed, the disk
      is what writing each operation whole and in order makes of it; when no call reports an error, they succeed exactly
      if every operation lies on the disk. If one fails, `whole` operations before it are complete, and of its own data
      the first `part` bytes are written. */
  method TestWriteData(dev: BrdDevice, ops: seq<DiskWrite>, answers: nat -> int, past: seq<byte>)
    returns (ok: bool, ghost whole: nat, ghost part: nat)
    requires Writable(dev) && |past| == PAGE_SIZE && Replayable(ops)
    modifies dev, dev.pages.Values
    ensures Writable(dev) && fresh(dev.pages.Values - old(dev.pages.Values))
    ensures dev.ParentContents() == old(dev.ParentContents())
    ensures whole <= |ops| && (ok <==> whole == |ops|) && AllFit(ops[..whole], SECTOR_SIZE * dev.capacity)
    ensures ok ==> AllFit(ops, SECTOR_SIZE * dev.capacity) && ImageOf(dev) == Replay(old(ImageOf(dev)), ops)
    ensures Decided(answers, ops, SECTOR_SIZE * dev.capacity, ok)
    ensures !ok ==> ops[whole].HasWrite()
                    && LaidTo(dev, Replay(old(ImageOf(dev)), ops[..whole]), SECTOR_SIZE * ops[whole].meta.sector,
                              ops[whole].data, part)
  {
    ghost var img, parentPages := ImageOf(dev), dev.ParentContents();
    var call: nat := 0;
    assert ops[..0] == [];
    for i := 0 to |ops|
      invariant fresh(dev.pages.Values - old(dev.pages.Values))
      invariant AllFit(ops[..i], |img|) && Shows(dev, Replay(img, ops[..i]), parentPages)
      invariant forall k :: 0 <= k < i ==> Seekable(ops[k], |img|)
    {
      if ops[i].HasWrite() {
        var good, written;
        good, call, written := WriteOp(dev, ops[i], answers, call, past);
        if !good {
          return false, i, written;
        }
      }
      ReplayLast(img, ops[..i], ops[i]);
      PrefixLast(ops, i);
    }
    assert ops[..|ops|] == ops;
    ok, whole, part := true, |ops|, 0;
  }
}
