/** The copy-on-write RAM disk as objects: devices that own page objects, found by page index. */
module CowBrd {
  import opened DiskOps
  import opened Finite
  import opened PageTree

  /** A page frame. It belongs to the device that allocated it. */
  class Page {
    const index: nat
    var data: seq<byte>
    ghost const owner: BrdDevice

    constructor (index: nat, owner: BrdDevice)
      ensures this.index == index && this.owner == owner && data == Zeros(PAGE_SIZE)
    {
      this.index, this.owner, data := index, owner, Zeros(PAGE_SIZE);
    }
  }

  datatype Command = Snapshot | Unsnapshot | RestoreSnapshot | Wipe | Other

  const FREE_BATCH: nat := 16

  class BrdDevice {
    const parent: BrdDevice?
    const isSnapshot: bool
    const capacity: nat
    var isWritable: bool
    var pages: map<nat, Page>

    /** Every page is filed under its index, whole, and the device's own. */
    ghost predicate Own()
      reads this, pages.Values
    {
      forall i :: i in pages ==> pages[i].index == i && pages[i].owner == this && |pages[i].data| == PAGE_SIZE
    }

    ghost predicate Valid()
      reads this, pages.Values
      reads if parent == null then {} else {parent}
      reads if parent == null then {} else parent.pages.Values
    {
      && Own()
      && (isSnapshot <==> parent != null)
      && (parent != null ==> parent != this && parent.Own())
    }

    /** What the pages hold, by index. */
    ghost function Contents(): Tree
      reads this, pages.Values
    {
      map i | i in pages :: pages[i].data
    }

    /** What the parent's pages hold; nothing for a base device. */
    ghost function ParentContents(): Tree
      reads if parent == null then {} else {parent}
      reads if parent == null then {} else parent.pages.Values
    {
      if parent == null then map[] else parent.Contents()
    }

    constructor (parent: BrdDevice?, capacity: nat)
      requires parent != null ==> parent.Own()
      ensures Valid() && this.parent == parent && this.capacity == capacity
      ensures Contents() == map[] && isWritable
    {
      this.parent, this.capacity := parent, capacity;
      isSnapshot, isWritable := parent != null, true;
      pages := map[];
    }

    method LookupPage(sector: nat) returns (page: Page?)
      requires Own()
      ensures page == if PageOf(sector) in pages then pages[PageOf(sector)] else null
    {
      var idx := PageOf(sector);
      page := if idx in pages then pages[idx] else null;
      assert page != null ==> page.index == idx;
    }

    /** Allocates a zeroed page and files it. */
    method AddPage(idx: nat) returns (page: Page)
      modifies this`pages
      ensures fresh(page) && page.index == idx && page.owner == this && page.data == Zeros(PAGE_SIZE)
      ensures pages == old(pages)[idx := page]
    {
      page := new Page(idx, this);
      pages := pages[idx := page];
    }

    /** Copies the parent's page over a page of this device, if the parent has one. */
    method FillFromParent(page: Page, sector: nat)
      requires parent != null ==> parent.Own()
      modifies page`data
      ensures page.data == if PageOf(sector) in old(ParentContents()) then old(ParentContents())[PageOf(sector)]
                           else old(page.data)
    {
      if parent != null {
        var parentPage := parent.LookupPage(sector);
        if parentPage != null {
          page.data := parentPage.data;
        }
      }
    }

    /** A page for an index that has none yet. */
    method InsertNew(sector: nat) returns (page: Page)
      requires Valid() && PageOf(sector) !in pages
      modifies this`pages
      ensures Valid() && fresh(page) && pages == old(pages)[PageOf(sector) := page]
      ensures Contents() == Insert(old(Contents()), ParentContents(), PageOf(sector))
      ensures ParentContents() == old(ParentContents())
    {
      page := AddPage(PageOf(sector));
      assert ParentContents() == old(ParentContents());
      FillFromParent(page, sector);
      assert ParentContents() == old(ParentContents());
      assert forall i :: i in old(pages) ==> pages[i] == old(pages[i]) && pages[i].data == old(pages[i].data);
      assert Contents() == old(Contents())[PageOf(sector) := page.data];
    }

    method InsertPage(sector: nat) returns (page: Page)
      requires Valid()
      modifies this`pages
      ensures Valid() && fresh(pages.Values - old(pages.Values))
      ensures PageOf(sector) in pages && page == pages[PageOf(sector)]
      ensures Contents() == Insert(old(Contents()), ParentContents(), PageOf(sector))
      ensures ParentContents() == old(ParentContents())
    {
      var found := LookupPage(sector);
      if found != null {
        return found;
      }
      page := InsertNew(sector);
    }

    /** Where an access starts in its page, and how much of it lies there. */
    static method FirstPart(sector: nat, n: nat) returns (offset: nat, copy: nat)
      requires n <= PAGE_SIZE
      ensures var s := SpanOf(sector, n); offset == s.at && copy == s.first && n - copy == s.rest
      ensures copy < n ==> PageOf(sector + copy / SECTOR_SIZE) == PageOf(sector) + 1
    {
      offset := sector % PAGE_SECTORS * SECTOR_SIZE;
      copy := if n <= PAGE_SIZE - offset then n else PAGE_SIZE - offset;
      OffsetInPage(sector, n);
      if copy < n { SecondSector(sector, n); }
    }

    /** Overwrites the contents of one of this device's pages. */
    method Store(page: Page, d: seq<byte>)
      requires Valid() && page.index in pages && pages[page.index] == page && |d| == PAGE_SIZE
      modifies page`data
      ensures Valid() && Contents() == old(Contents())[page.index := d]
      ensures ParentContents() == old(ParentContents())
    {
      page.data := d;
      assert forall i :: i in pages && i != page.index ==> pages[i].data == old(pages[i].data);
    }

    method CopyToSetup(sector: nat, n: nat)
      requires Valid() && n <= PAGE_SIZE
      modifies this`pages
      ensures Valid() && fresh(pages.Values - old(pages.Values))
      ensures Contents() == Setup(old(Contents()), ParentContents(), SpanOf(sector, n))
      ensures ParentContents() == old(ParentContents())
    {
      var offset, copy := FirstPart(sector, n);
      var page := InsertPage(sector);
      ghost var one := pages.Values;
      if copy < n {
        page := InsertPage(sector + copy / SECTOR_SIZE);
      }
      assert pages.Values - old(pages.Values) <= (pages.Values - one) + (one - old(pages.Values));
    }

    /** The pages must be there already. */
    method CopyTo(src: seq<byte>, sector: nat)
      requires Valid() && |src| <= PAGE_SIZE && HasPages(Contents(), SpanOf(sector, |src|))
      modifies pages.Values
      ensures Valid()
      ensures Contents() == PageTree.CopyTo(old(Contents()), ParentContents(), SpanOf(sector, |src|), src)
      ensures ParentContents() == old(ParentContents())
    {
      var n := |src|;
      var offset, copy := FirstPart(sector, n);
      var page := LookupPage(sector);
      Store(page, Splice(page.data, offset, src[..copy]));
      if copy < n {
        CopySecond(src[copy..], sector + copy / SECTOR_SIZE);
      }
    }

    /** The second page of a crossing write: first what lies behind the data is taken from the parent. */
    method CopySecond(src: seq<byte>, sector: nat)
      requires Valid() && |src| <= PAGE_SIZE && PageOf(sector) in pages
      modifies pages.Values
      ensures Valid()
      ensures var i := PageOf(sector);
              Contents() == old(Contents())[i := Splice(Backed(old(Contents())[i], ParentContents(), i, |src|), 0, src)]
      ensures ParentContents() == old(ParentContents())
    {
      var page := LookupPage(sector);
      var backed := page.data;
      if parent != null {
        var parentPage := parent.LookupPage(sector);
        if parentPage != null {
          backed := page.data[..|src|] + parentPage.data[|src|..];
        }
      }
      Store(page, Splice(backed, 0, src));
    }

    /** One page's share of a read: the device's own page, else the parent's, else zeros. `skip` is where the
        parent's bytes are taken from; they may run into the memory behind the page. */
    method ReadPart(sector: nat, at: nat, skip: nat, n: nat, past: seq<byte>) returns (dst: seq<byte>)
      requires Valid() && at + n <= PAGE_SIZE && skip + n <= PAGE_SIZE + |past|
      ensures |dst| == n && PartOf(Contents(), ParentContents(), PageOf(sector), at, skip, past, dst)
    {
      var page := LookupPage(sector);
      if page != null {
        return page.data[at..at + n];
      }
      if parent != null {
        page := parent.LookupPage(sector);
        if page != null {
          return (page.data + past)[skip..skip + n];
        }
      }
      return Zeros(n);
    }

    method CopyFrom(sector: nat, n: nat, past: seq<byte>) returns (dst: seq<byte>)
      requires Valid() && n <= PAGE_SIZE && |past| == PAGE_SIZE
      ensures dst == Read(Contents(), ParentContents(), sector, n, past)
    {
      var offset, copy := FirstPart(sector, n);
      var first := ReadPart(sector, offset, offset, copy, past);
      var second := [];
      if copy < n {
        second := ReadPart(sector + copy / SECTOR_SIZE, 0, offset, n - copy, past);
      }
      ReadInParts(Contents(), ParentContents(), SpanOf(sector, n), past, first, second);
      return first + second;
    }

    /** One segment of a request. */
    method DoBvec(isWrite: bool, sector: nat, seg: seq<byte>, past: seq<byte>) returns (dst: seq<byte>)
      requires Valid() && |seg| <= PAGE_SIZE && |past| == PAGE_SIZE
      modifies if isWrite then {this} + pages.Values else {}
      ensures Valid() && fresh(pages.Values - old(pages.Values)) && isWritable == old(isWritable)
      ensures ParentContents() == old(ParentContents())
      ensures Contents() == if isWrite then Write(old(Contents()), ParentContents(), sector, seg) else old(Contents())
      ensures !isWrite ==> dst == Read(Contents(), ParentContents(), sector, |seg|, past)
    {
      if isWrite {
        CopyToSetup(sector, |seg|);
        SetupSeen(old(Contents()), ParentContents(), SpanOf(sector, |seg|), 0);
        CopyTo(seg, sector);
        dst := [];
      } else {
        dst := CopyFrom(sector, |seg|, past);
      }
    }

    /** One turn of the loop over the segments of a write. `goal` is what all segments lead to. */
    method WriteSegment(at: nat, segs: seq<seq<byte>>, i: nat, past: seq<byte>, ghost goal: Tree) returns (next: nat)
      requires Valid() && Segmented(segs) && i < |segs| && |past| == PAGE_SIZE
      requires WritesTo(Contents(), ParentContents(), at, segs, i, goal)
      modifies this, pages.Values
      ensures Valid() && fresh(pages.Values - old(pages.Values)) && isWritable == old(isWritable)
      ensures ParentContents() == old(ParentContents())
      ensures WritesTo(Contents(), ParentContents(), next, segs, i + 1, goal)
    {
      ghost var own, parentPages := Contents(), ParentContents();
      next := at + |segs[i]| / SECTOR_SIZE;
      var dst := DoBvec(true, at, segs[i], past);
      StepTo(own, parentPages, Contents(), at, segs, i, next, goal);
    }

    method WriteSegments(sector: nat, segs: seq<seq<byte>>, past: seq<byte>)
      requires Valid() && Segmented(segs) && |past| == PAGE_SIZE
      modifies this, pages.Values
      ensures Valid() && fresh(pages.Values - old(pages.Values)) && isWritable == old(isWritable)
      ensures ParentContents() == old(ParentContents())
      ensures Contents() == WriteFrom(old(Contents()), ParentContents(), sector, segs, 0)
    {
      var at: nat := sector;
      ghost var parentPages := ParentContents();
      ghost var goal := WriteFrom(Contents(), parentPages, sector, segs, 0);
      for i := 0 to |segs|
        invariant Valid() && fresh(pages.Values - old(pages.Values)) && isWritable == old(isWritable)
        invariant ParentContents() == parentPages && WritesTo(Contents(), parentPages, at, segs, i, goal)
      {
        at := WriteSegment(at, segs, i, past, goal);
      }
      WriteFromEnd(Contents(), parentPages, at, segs);
    }

    /** One turn of the loop over the segments of a read. */
    method ReadSegment(at: nat, segs: seq<seq<byte>>, i: nat, past: seq<byte>, dst: seq<byte>, ghost goal: seq<byte>)
      returns (next: nat, dst': seq<byte>)
      requires Valid() && Segmented(segs) && i < |segs| && |past| == PAGE_SIZE
      requires ReadsTo(Contents(), ParentContents(), at, segs, i, past, dst, goal)
      ensures ReadsTo(Contents(), ParentContents(), next, segs, i + 1, past, dst', goal)
    {
      next := at + |segs[i]| / SECTOR_SIZE;
      var part := DoBvec(false, at, segs[i], past);
      dst' := dst + part;
      ReadTo(Contents(), ParentContents(), at, segs, i, next, past, dst, part, goal);
    }

    method ReadSegments(sector: nat, segs: seq<seq<byte>>, past: seq<byte>) returns (dst: seq<byte>)
      requires Valid() && Segmented(segs) && |past| == PAGE_SIZE
      ensures dst == ReadFrom(Contents(), ParentContents(), sector, segs, 0, past)
    {
      var at: nat := sector;
      dst := [];
      ghost var goal := ReadFrom(Contents(), ParentContents(), sector, segs, 0, past);
      for i := 0 to |segs|
        invariant ReadsTo(Contents(), ParentContents(), at, segs, i, past, dst, goal)
      {
        at, dst := ReadSegment(at, segs, i, past, dst, goal);
      }
      ReadFromEnd(Contents(), ParentContents(), at, segs, past);
    }

    /** Writes or reads all segments of an admitted request. */
    method ServeSegments(bio: Bio, past: seq<byte>) returns (dst: seq<byte>)
      requires Valid() && bio.Formed() && |past| == PAGE_SIZE
      requires Admitted(bio, isWritable, capacity) && !bio.IsDiscard()
      modifies this, pages.Values
      ensures Valid() && fresh(pages.Values - old(pages.Values)) && isWritable == old(isWritable)
      ensures ParentContents() == old(ParentContents())
      ensures Contents() == After(old(Contents()), ParentContents(), isWritable, capacity, bio)
      ensures !bio.IsWrite() ==> dst == ReadFrom(Contents(), ParentContents(), bio.sector, bio.segs, 0, past)
    {
      assert bio.segs[0..] == bio.segs;
      if bio.IsWrite() {
        WriteSegments(bio.sector, bio.segs, past);
        dst := [];
      } else {
        dst := ReadSegments(bio.sector, bio.segs, past);
      }
    }

    /** What a request will do, in bits and sectors. */
    lemma Effects(bio: Bio)
      requires Valid() && bio.Formed()
      ensures Admitted(bio, isWritable, capacity) <==>
              bio.sector + bio.size / 512 <= capacity && (isWritable || (bio.rw & 0x1 == 0 && bio.rw & 0x80 == 0))
      ensures bio.IsDiscard() <==> bio.rw & 0x80 != 0
      ensures bio.rw & 0x80 != 0 && isWritable && bio.sector + bio.size / 512 <= capacity ==>
                ZeroedAt(Contents(), After(Contents(), ParentContents(), isWritable, capacity, bio), ParentContents(),
                         bio.sector, bio.size)
    {
      AdmittedBits(bio, isWritable, capacity);
      if bio.rw & 0x80 != 0 && isWritable && bio.sector + bio.size / 512 <= capacity {
        forall a: nat
          ensures ByteAt(After(Contents(), ParentContents(), isWritable, capacity, bio), ParentContents(), a)
               == if a / 4096 in Contents() && bio.sector / 8 <= a / 4096 < bio.sector / 8 + bio.size / 4096 then 0
                  else ByteAt(Contents(), ParentContents(), a)
        {
          DiscardRequest(Contents(), ParentContents(), capacity, bio, a);
        }
      }
    }

    /** Serves one block request. A request that is refused changes nothing; one without segments reports an
        error although it is not refused. */
    method MakeRequest(bio: Bio, past: seq<byte>) returns (ok: bool, dst: seq<byte>)
      requires Valid() && bio.Formed() && |past| == PAGE_SIZE
      modifies this, pages.Values
      ensures Valid() && fresh(pages.Values - old(pages.Values)) && isWritable == old(isWritable)
      ensures ParentContents() == old(ParentContents())
      ensures Contents() == After(old(Contents()), ParentContents(), isWritable, capacity, bio)
      ensures ok <==> Admitted(bio, isWritable, capacity) && (bio.IsDiscard() || bio.segs != [])
      ensures ok && !bio.IsDiscard() && !bio.IsWrite() ==>
                dst == ReadFrom(Contents(), ParentContents(), bio.sector, bio.segs, 0, past)
      ensures bio.sector + bio.size / 512 > capacity ==> !ok && Contents() == old(Contents())
      ensures !isWritable && (bio.rw & 0x1 != 0 || bio.rw & 0x80 != 0) ==> !ok && Contents() == old(Contents())
      ensures bio.rw & 0x80 != 0 && isWritable && bio.sector + bio.size / 512 <= capacity ==>
                ok && ZeroedAt(old(Contents()), Contents(), ParentContents(), bio.sector, bio.size)
    {
      Effects(bio);
      dst := [];
      if bio.EndSector() > capacity {
        return false, [];
      }
      if (bio.IsWrite() || bio.IsDiscard()) && !isWritable {
        return false, [];
      }
      if bio.IsDiscard() {
        DiscardFrom(bio.sector, bio.size);
        return true, [];
      }
      dst := ServeSegments(bio, past);
      ok := bio.segs != [];
    }

    method ZeroPage(sector: nat)
      requires Valid()
      modifies pages.Values
      ensures Valid() && ParentContents() == old(ParentContents())
      ensures var i := PageOf(sector);
              Contents() == if i in old(Contents()) then old(Contents())[i := Zeros(PAGE_SIZE)] else old(Contents())
    {
      var page := LookupPage(sector);
      if page != null {
        Store(page, Zeros(PAGE_SIZE));
      }
    }

    method DiscardFrom(sector: nat, n: nat)
      requires Valid()
      modifies pages.Values
      ensures Valid() && ParentContents() == old(ParentContents())
      ensures Contents() == Discard(old(Contents()), sector, n)
    {
      var at: nat, left: nat := sector, n;
      while left >= PAGE_SIZE
        invariant Valid() && ParentContents() == old(ParentContents())
        invariant Discard(Contents(), at, left) == Discard(old(Contents()), sector, n)
      {
        ZeroPage(at);
        at := at + PAGE_SECTORS;
        left := left - PAGE_SIZE;
      }
    }

    // -------------------------------------------------------------- freeing all pages

    /** Up to `max` pages with the smallest indices from `pos` on, in order of index. */
    method GangLookup(pos: nat, max: nat) returns (found: seq<Page>)
      requires Own()
      ensures Batch(pages, pos, found) && |found| <= max
      ensures forall k :: k in pages && k >= pos && k !in KeysOf(found) ==> |found| == max && Before(found, k)
    {
      found := [];
      var rest := set k | k in pages && k >= pos;
      while rest != {} && |found| < max
        invariant Batch(pages, pos, found) && |found| <= max
        invariant rest == (set k | k in pages && k >= pos) - KeysOf(found)
        invariant forall k :: k in rest ==> Before(found, k)
        decreases rest
      {
        var k := Smallest(rest);
        var page := pages[k];
        assert page.index == k;
        KeysAppend(found, page);
        BatchAppend(pages, pos, found, page);
        found := found + [page];
        rest := rest - {k};
        assert found[|found| - 1] == page;
      }
    }

    /** Removes one batch of pages from the tree, following the order of their indices. */
    method FreeBatch(found: seq<Page>, start: nat) returns (pos: nat)
      requires Own() && Batch(pages, start, found)
      modifies this`pages
      ensures Own() && pages.Keys == old(pages.Keys) - KeysOf(found)
      ensures pos == if found == [] then start else found[|found| - 1].index
    {
      pos := start;
      for i := 0 to |found|
        invariant pos == if i == 0 then start else found[i - 1].index
        invariant pages == old(pages) - KeysOf(found[..i])
      {
        assert found[i].index >= pos;
        pos := found[i].index;
        KeysBefore(old(pages), start, found, i);
        assert pos in pages && pages[pos] == found[i];
        KeysAppend(found[..i], found[i]);
        assert found[..i + 1] == found[..i] + [found[i]];
        pages := pages - {pos};
      }
      assert found[..|found|] == found;
    }

    /** One turn of the loop: what is left lies behind the new position, and a short batch leaves nothing. */
    method FreeRound(start: nat) returns (pos: nat, more: bool)
      requires Own() && forall k :: k in pages ==> start <= k < 0xffff_ffff_ffff_ffff
      modifies this`pages
      ensures Own() && forall k :: k in pages ==> pos <= k < 0xffff_ffff_ffff_ffff
      ensures forall k :: k in old(pages) && k !in pages ==> k < pos
      ensures if more then |pages| + 16 == |old(pages)| else pages == map[] && |old(pages)| < 16
    {
      var found := GangLookup(start, FREE_BATCH);
      pos := FreeBatch(found, start);
      BatchShrinks(old(pages), pages, start, found);
      assert forall k :: k in pages ==> Before(found, k) && |found| == FREE_BATCH;
      more := |found| == FREE_BATCH;
      pos := NextPosition(old(pages), pages, start, found, pos);
    }

    /** The position behind the last page of a batch. */
    static method NextPosition(ghost before: map<nat, Page>, ghost after: map<nat, Page>, ghost start: nat,
                               ghost found: seq<Page>, at: nat)
      returns (pos: nat)
      requires Batch(before, start, found) && after.Keys == before.Keys - KeysOf(found)
      requires forall k :: k in before ==> k < 0xffff_ffff_ffff_ffff
      requires found != [] ==> at == found[|found| - 1].index
      requires forall k :: k in after ==> found != [] && Before(found, k)
      ensures forall k :: k in after ==> pos <= k
      ensures forall k :: k in before && k !in after ==> k < pos
    {
      KeysUpTo(before, start, found);
      pos := (at + 1) % 0x1_0000_0000_0000_0000;
      assert found != [] ==> pos == at + 1;
    }

    /** Drops every page. Page indices lie below the largest machine word, so the position cannot wrap. */
    method FreePages()
      requires Own() && forall k :: k in pages ==> k < 0xffff_ffff_ffff_ffff
      modifies this`pages
      ensures Own() && pages == map[]
    {
      var pos: nat, more := 0, true;
      while more
        invariant Own() && forall k :: k in pages ==> pos <= k < 0xffff_ffff_ffff_ffff
        invariant !more ==> pages == map[]
        decreases |pages|, more
      {
        pos, more := FreeRound(pos);
      }
    }

    /** Only a base device can be frozen, thawed or wiped; only a snapshot can be restored. */
    method Ioctl(cmd: Command) returns (ok: bool)
      requires Valid() && forall k :: k in pages ==> k < 0xffff_ffff_ffff_ffff
      modifies this
      ensures Valid()
      ensures ok <==> cmd != Other && (cmd == RestoreSnapshot <==> isSnapshot)
      ensures isWritable == if ok && cmd == Snapshot then false else if ok && cmd == Unsnapshot then true
                            else old(isWritable)
      ensures pages == if ok && (cmd == RestoreSnapshot || cmd == Wipe) then map[] else old(pages)
    {
      match cmd {
        case Snapshot =>
          if isSnapshot { return false; }
          isWritable := false;
        case Unsnapshot =>
          if isSnapshot { return false; }
          isWritable := true;
        case RestoreSnapshot =>
          if !isSnapshot { return false; }
          FreePages();
        case Wipe =>
          if isSnapshot { return false; }
          FreePages();
        case Other =>
          return false;
      }
      ok := true;
    }
  }

  /** From `before` to `after` the device's own pages from that of the sector on, as many as the length has page
      lengths, have turned into zeros for a reader, and nothing else has changed for it. */
  ghost predicate ZeroedAt(before: Tree, after: Tree, parent: Tree, sector: nat, n: nat) {
    && Paged(before) && Paged(after) && Paged(parent)
    && forall a: nat :: ByteAt(after, parent, a)
                     == if a / 4096 in before && sector / 8 <= a / 4096 < sector / 8 + n / 4096 then 0
                        else ByteAt(before, parent, a)
  }

  method Smallest(s: set<nat>) returns (m: nat)
    requires s != {}
    ensures m in s && forall k :: k in s ==> m <= k
  {
    m :| m in s;
    var rest := s - {m};
    while rest != {}
      invariant m in s && rest <= s && forall k :: k in s && k !in rest ==> m <= k
      decreases rest
    {
      var k :| k in rest;
      if k < m { m := k; }
      rest := rest - {k};
    }
  }

  /** Pages of the tree from `pos` on, by strictly growing index. */
  ghost predicate Batch(pages: map<nat, Page>, pos: nat, found: seq<Page>) {
    && (forall j :: 0 <= j < |found| ==>
          found[j].index in pages && pages[found[j].index] == found[j] && found[j].index >= pos)
    && (forall i, j :: 0 <= i < j < |found| ==> found[i].index < found[j].index)
  }

  function KeysOf(found: seq<Page>): set<nat> {
    if found == [] then {} else KeysOf(found[..|found| - 1]) + {found[|found| - 1].index}
  }

  lemma KeysAppend(found: seq<Page>, page: Page)
    ensures KeysOf(found + [page]) == KeysOf(found) + {page.index}
  {
    assert (found + [page])[..|found|] == found;
  }

  lemma BatchAppend(pages: map<nat, Page>, pos: nat, found: seq<Page>, page: Page)
    requires Batch(pages, pos, found) && page.index in pages && pages[page.index] == page && page.index >= pos
    requires Before(found, page.index)
    ensures Batch(pages, pos, found + [page])
  {
    assert forall j :: 0 <= j < |found| ==> found[j].index <= found[|found| - 1].index;
  }

  lemma {:induction false} KeysUpTo(pages: map<nat, Page>, pos: nat, found: seq<Page>)
    requires Batch(pages, pos, found)
    ensures forall k :: k in KeysOf(found) ==> found != [] && k <= found[|found| - 1].index
  {
    if found != [] { KeysUpTo(pages, pos, found[..|found| - 1]); }
  }

  ghost predicate Before(found: seq<Page>, k: nat) {
    found != [] ==> found[|found| - 1].index < k
  }

  lemma {:induction false} KeysBefore(pages: map<nat, Page>, pos: nat, found: seq<Page>, i: nat)
    requires Batch(pages, pos, found) && i <= |found|
    ensures KeysOf(found[..i]) <= pages.Keys
    ensures forall j :: i <= j < |found| ==> found[j].index !in KeysOf(found[..i])
    decreases i
  {
    if i > 0 {
      KeysBefore(pages, pos, found, i - 1);
      assert found[..i][..i - 1] == found[..i - 1];
    }
  }

  lemma {:induction false} KeysOfSize(pages: map<nat, Page>, pos: nat, found: seq<Page>)
    requires Batch(pages, pos, found)
    ensures |KeysOf(found)| == |found|
  {
    if found != [] {
      var front := found[..|found| - 1];
      KeysOfSize(pages, pos, front);
      KeysBefore(pages, pos, found, |found| - 1);
    }
  }

  lemma BatchShrinks(before: map<nat, Page>, after: map<nat, Page>, pos: nat, found: seq<Page>)
    requires Batch(before, pos, found) && after.Keys == before.Keys - KeysOf(found)
    ensures |after| + |found| == |before|
  {
    KeysBefore(before, pos, found, |found|);
    KeysOfSize(before, pos, found);
    assert found[..|found|] == found;
    var gone := KeysOf(found);
    assert before.Keys == after.Keys + gone && after.Keys !! gone;
    assert |before.Keys| == |after.Keys| + |gone|;
  }

  /** The tree after writing the segments from `i` on, the first of them at sector `at`. */
  ghost function WriteFrom(own: Tree, parent: Tree, at: nat, segs: seq<seq<byte>>, i: nat): (r: Tree)
    requires Paged(own) && Paged(parent) && Segmented(segs) && i <= |segs|
    ensures Paged(r)
  {
    PiecesAdjacent(at, segs[i..]);
    WritePieces(own, parent, Pieces(at, segs[i..]))
  }

  ghost function ReadFrom(own: Tree, parent: Tree, at: nat, segs: seq<seq<byte>>, i: nat, past: seq<byte>): seq<byte>
    requires Paged(own) && Paged(parent) && Segmented(segs) && i <= |segs| && |past| == PAGE_SIZE
  {
    PiecesAdjacent(at, segs[i..]);
    ReadPieces(own, parent, Pieces(at, segs[i..]), past)
  }

  lemma PiecesStep(at: nat, segs: seq<seq<byte>>, i: nat, next: nat)
    requires i < |segs| && next == at + |segs[i]| / SECTOR_SIZE
    ensures Pieces(at, segs[i..]) == [Piece(at, segs[i])] + Pieces(next, segs[i + 1..])
  {
    assert segs[i..][1..] == segs[i + 1..];
  }

  lemma WritePiecesFirst(own: Tree, parent: Tree, first: Piece, rest: seq<Piece>, after: Tree)
    requires Paged(own) && Paged(parent) && |first.data| <= PAGE_SIZE && Small(rest)
    requires after == Write(own, parent, first.sector, first.data)
    ensures Small([first] + rest) && WritePieces(own, parent, [first] + rest) == WritePieces(after, parent, rest)
  {
    assert ([first] + rest)[1..] == rest;
  }

  ghost predicate WritesTo(own: Tree, parent: Tree, at: nat, segs: seq<seq<byte>>, i: nat, goal: Tree)
    requires Paged(own) && Paged(parent) && Segmented(segs) && i <= |segs|
  {
    WriteFrom(own, parent, at, segs, i) == goal
  }

  ghost predicate ReadsTo(own: Tree, parent: Tree, at: nat, segs: seq<seq<byte>>, i: nat, past: seq<byte>,
                          dst: seq<byte>, goal: seq<byte>)
    requires Paged(own) && Paged(parent) && Segmented(segs) && i <= |segs| && |past| == PAGE_SIZE
  {
    dst + ReadFrom(own, parent, at, segs, i, past) == goal
  }

  lemma StepTo(own: Tree, parent: Tree, after: Tree, at: nat, segs: seq<seq<byte>>, i: nat, next: nat, goal: Tree)
    requires Paged(own) && Paged(parent) && Segmented(segs) && i < |segs| && next == at + |segs[i]| / SECTOR_SIZE
    requires after == Write(own, parent, at, segs[i]) && WritesTo(own, parent, at, segs, i, goal)
    ensures Paged(after) && WritesTo(after, parent, next, segs, i + 1, goal)
  {
    PiecesAdjacent(next, segs[i + 1..]);
    PiecesStep(at, segs, i, next);
    WritePiecesFirst(own, parent, Piece(at, segs[i]), Pieces(next, segs[i + 1..]), after);
  }

  lemma ReadTo(own: Tree, parent: Tree, at: nat, segs: seq<seq<byte>>, i: nat, next: nat, past: seq<byte>,
               dst: seq<byte>, part: seq<byte>, goal: seq<byte>)
    requires Paged(own) && Paged(parent) && Segmented(segs) && i < |segs| && next == at + |segs[i]| / SECTOR_SIZE
    requires |past| == PAGE_SIZE && part == Read(own, parent, at, |segs[i]|, past)
    requires ReadsTo(own, parent, at, segs, i, past, dst, goal)
    ensures ReadsTo(own, parent, next, segs, i + 1, past, dst + part, goal)
  {
    PiecesAdjacent(at, segs[i..]);
    PiecesStep(at, segs, i, next);
    Assoc(dst, part, ReadFrom(own, parent, next, segs, i + 1, past));
  }

  lemma WriteFromEnd(own: Tree, parent: Tree, at: nat, segs: seq<seq<byte>>)
    requires Paged(own) && Paged(parent) && Segmented(segs)
    ensures WriteFrom(own, parent, at, segs, |segs|) == own
  {
  }

  lemma ReadFromEnd(own: Tree, parent: Tree, at: nat, segs: seq<seq<byte>>, past: seq<byte>)
    requires Paged(own) && Paged(parent) && Segmented(segs) && |past| == PAGE_SIZE
    ensures ReadFrom(own, parent, at, segs, |segs|, past) == []
  {
  }

  /** What one page contributes to a read, its parent's bytes taken from `skip` on. */
  ghost predicate PartOf(own: Tree, parent: Tree, i: nat, at: nat, skip: nat, past: seq<byte>, dst: seq<byte>)
    requires Paged(own) && Paged(parent) && at + |dst| <= PAGE_SIZE && skip + |dst| <= PAGE_SIZE + |past|
  {
    dst == if i in own then own[i][at..at + |dst|]
           else if i in parent then (parent[i] + past)[skip..skip + |dst|]
           else Zeros(|dst|)
  }

  lemma PartSeen(own: Tree, parent: Tree, i: nat, at: nat, past: seq<byte>, dst: seq<byte>)
    requires Paged(own) && Paged(parent) && at + |dst| <= PAGE_SIZE && PartOf(own, parent, i, at, at, past, dst)
    ensures dst == Seen(own, parent, i)[at..at + |dst|]
  {
  }

  lemma ReadInParts(own: Tree, parent: Tree, s: Span, past: seq<byte>, first: seq<byte>, second: seq<byte>)
    requires Paged(own) && Paged(parent) && Spanned(s) && |past| == PAGE_SIZE
    requires |first| == s.first && PartOf(own, parent, s.page, s.at, s.at, past, first)
    requires |second| == s.rest && (s.rest > 0 ==> PartOf(own, parent, s.page + 1, 0, s.at, past, second))
    ensures first + second == ReadSpan(own, parent, s, past)
  {
    PartSeen(own, parent, s.page, s.at, past, first);
  }
}
