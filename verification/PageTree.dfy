/** The copy-on-write RAM disk as values: a sparse tree of pages that falls through to the tree of a
    parent device, and what its copy loops do to the flat disk that a reader sees. */
module PageTree {
  import opened DiskOps

  const PAGE_SIZE: nat := 4096
  const PAGE_SECTORS: nat := 8

  /** The pages of one device by page index. A base device has the empty tree as its parent. */
  type Tree = map<nat, seq<byte>>

  ghost predicate Paged(t: Tree) {
    forall i :: i in t ==> |t[i]| == PAGE_SIZE
  }

  function Zeros(n: nat): (r: seq<byte>)
    ensures |r| == n && forall j :: 0 <= j < n ==> r[j] == 0
  {
    seq(n, _ => 0)
  }

  /** The page that a reader sees at index `i`: the device's own, else its parent's, else zeros. */
  function Seen(own: Tree, parent: Tree, i: nat): (page: seq<byte>)
    requires Paged(own) && Paged(parent)
    ensures |page| == PAGE_SIZE
  {
    if i in own then own[i] else if i in parent then parent[i] else Zeros(PAGE_SIZE)
  }

  /** The flat disk: the byte at address `a`. */
  function ByteAt(own: Tree, parent: Tree, a: nat): byte
    requires Paged(own) && Paged(parent)
  {
    Seen(own, parent, a / PAGE_SIZE)[a % PAGE_SIZE]
  }

  lemma ByteAtPage(own: Tree, parent: Tree, i: nat, o: nat)
    requires Paged(own) && Paged(parent) && o < PAGE_SIZE
    ensures ByteAt(own, parent, PAGE_SIZE * i + o) == Seen(own, parent, i)[o]
  {
    assert (PAGE_SIZE * i + o) / PAGE_SIZE == i && (PAGE_SIZE * i + o) % PAGE_SIZE == o;
  }

  /** The first `n` bytes of the flat disk. */
  function View(own: Tree, parent: Tree, n: nat): (r: Image)
    requires Paged(own) && Paged(parent)
    ensures |r| == n && forall a :: 0 <= a < n ==> r[a] == ByteAt(own, parent, a)
  {
    seq(n, a requires 0 <= a => ByteAt(own, parent, a))
  }

  // ---------------------------------------------------------------- one or two pages

  function PageOf(sector: nat): nat {
    sector / PAGE_SECTORS
  }

  /** Where the bytes of an access lie: `first` of them from `at` on in page `page`, `rest` at the start of
      the next page. */
  datatype Span = Span(page: nat, at: nat, first: nat, rest: nat)

  predicate Spanned(s: Span) {
    && s.at < PAGE_SIZE && s.at + s.first <= PAGE_SIZE
    && (s.rest > 0 ==> s.at + s.first == PAGE_SIZE && s.rest <= s.at)
  }

  function SpanOf(sector: nat, n: nat): (s: Span)
    requires n <= PAGE_SIZE
    ensures Spanned(s) && s.first + s.rest == n && s.page == PageOf(sector)
    ensures PAGE_SIZE * s.page + s.at == SECTOR_SIZE * sector
  {
    var at := SECTOR_SIZE * sector - PAGE_SIZE * PageOf(sector);
    var first := if n <= PAGE_SIZE - at then n else PAGE_SIZE - at;
    Span(PageOf(sector), at, first, n - first)
  }

  /** The offset as the driver computes it. */
  lemma OffsetInPage(sector: nat, n: nat)
    requires n <= PAGE_SIZE
    ensures SpanOf(sector, n).at == sector % PAGE_SECTORS * SECTOR_SIZE
  {
  }

  lemma SecondSector(sector: nat, n: nat)
    requires n <= PAGE_SIZE && SpanOf(sector, n).rest > 0
    ensures PageOf(sector + SpanOf(sector, n).first / SECTOR_SIZE) == PageOf(sector) + 1
  {
  }

  // ---------------------------------------------------------------- writing

  /** A page for index `i` of its own, copied from the parent if that has one. */
  function Insert(own: Tree, parent: Tree, i: nat): Tree {
    if i in own then own
    else own[i := if i in parent then parent[i] else Zeros(PAGE_SIZE)]
  }

  /** The pages that `copy_to_brd_setup` provides. */
  function Setup(own: Tree, parent: Tree, s: Span): Tree {
    var one := Insert(own, parent, s.page);
    if s.rest > 0 then Insert(one, parent, s.page + 1) else one
  }

  /** What the second page holds before the data goes in: its own bytes, but behind the data those of the
      parent's page, if there is one. */
  function Backed(page: seq<byte>, parent: Tree, i: nat, n: nat): (r: seq<byte>)
    requires |page| == PAGE_SIZE && Paged(parent) && n <= PAGE_SIZE
    ensures |r| == PAGE_SIZE
  {
    if i in parent then page[..n] + parent[i][n..] else page
  }

  ghost predicate HasPages(t: Tree, s: Span) {
    Paged(t) && s.page in t && (s.rest > 0 ==> s.page + 1 in t)
  }

  /** What `copy_to_brd` makes of a tree that has the pages. */
  function CopyTo(t: Tree, parent: Tree, s: Span, src: seq<byte>): (r: Tree)
    requires HasPages(t, s) && Paged(parent) && Spanned(s) && |src| == s.first + s.rest
    ensures Paged(r)
  {
    var one := t[s.page := Splice(t[s.page], s.at, src[..s.first])];
    if s.rest > 0 then one[s.page + 1 := Splice(Backed(t[s.page + 1], parent, s.page + 1, s.rest), 0, src[s.first..])]
    else one
  }

  lemma SetupSeen(own: Tree, parent: Tree, s: Span, j: nat)
    requires Paged(own) && Paged(parent)
    ensures HasPages(Setup(own, parent, s), s)
    ensures Seen(Setup(own, parent, s), parent, j) == Seen(own, parent, j)
  {
  }

  /** The tree after writing `src` at a span: setup, then the copy into one or two pages. */
  function WriteSpan(own: Tree, parent: Tree, s: Span, src: seq<byte>): (r: Tree)
    requires Paged(own) && Paged(parent) && Spanned(s) && |src| == s.first + s.rest
    ensures Paged(r)
  {
    SetupSeen(own, parent, s, 0);
    CopyTo(Setup(own, parent, s), parent, s, src)
  }

  function Write(own: Tree, parent: Tree, sector: nat, src: seq<byte>): (r: Tree)
    requires Paged(own) && Paged(parent) && |src| <= PAGE_SIZE
    ensures Paged(r)
  {
    WriteSpan(own, parent, SpanOf(sector, |src|), src)
  }

  /** Byte `a` of the flat disk with `src` laid over it at byte address `at`. */
  function Overlaid(own: Tree, parent: Tree, at: nat, src: seq<byte>, a: nat): byte
    requires Paged(own) && Paged(parent)
  {
    if at <= a < at + |src| then src[a - at] else ByteAt(own, parent, a)
  }

  /** The write changes exactly the bytes it addresses in the flat disk. */
  ghost predicate WriteIsFlat(own: Tree, parent: Tree, sector: nat, src: seq<byte>)
    requires Paged(own) && Paged(parent) && |src| <= PAGE_SIZE
  {
    forall a: nat ::
      ByteAt(Write(own, parent, sector, src), parent, a) == Overlaid(own, parent, SECTOR_SIZE * sector, src, a)
  }

  /** What a reader sees of page `j` after the write. */
  function SeenAfter(own: Tree, parent: Tree, s: Span, src: seq<byte>, j: nat): seq<byte>
    requires Paged(own) && Paged(parent) && Spanned(s) && |src| == s.first + s.rest
  {
    if j == s.page then Splice(Seen(own, parent, j), s.at, src[..s.first])
    else if s.rest > 0 && j == s.page + 1 then
      Splice(Backed(Seen(own, parent, j), parent, j, s.rest), 0, src[s.first..])
    else Seen(own, parent, j)
  }

  lemma WriteSeen(own: Tree, parent: Tree, s: Span, src: seq<byte>, j: nat)
    requires Paged(own) && Paged(parent) && Spanned(s) && |src| == s.first + s.rest
    ensures Seen(WriteSpan(own, parent, s, src), parent, j) == SeenAfter(own, parent, s, src, j)
  {
    var t := Setup(own, parent, s);
    SetupSeen(own, parent, s, s.page);
    SetupSeen(own, parent, s, s.page + 1);
    SetupSeen(own, parent, s, j);
    assert t[s.page] == Seen(own, parent, s.page);
    if s.rest > 0 {
      assert t[s.page + 1] == Seen(own, parent, s.page + 1);
    }
  }

  /** Which byte of the data byte `o` of page `j` is; -1 if none. */
  function HitAt(s: Span, j: nat, o: nat): int {
    if j == s.page && s.at <= o < s.at + s.first then o - s.at
    else if j == s.page + 1 && o < s.rest then s.first + o
    else -1
  }

  lemma HitAddress(s: Span, a: nat)
    requires Spanned(s)
    ensures var at := PAGE_SIZE * s.page + s.at;
            HitAt(s, a / PAGE_SIZE, a % PAGE_SIZE) == if at <= a < at + s.first + s.rest then a - at else -1
  {
  }

  /** Byte `o` of page `j` after the write: the data, or behind it on the second page the parent's byte. */
  function ByteAfter(own: Tree, parent: Tree, s: Span, src: seq<byte>, j: nat, o: nat): byte
    requires Paged(own) && Paged(parent) && Spanned(s) && |src| == s.first + s.rest && o < PAGE_SIZE
  {
    var p := HitAt(s, j, o);
    if p >= 0 then src[p]
    else if s.rest > 0 && j == s.page + 1 && j in parent then parent[j][o]
    else Seen(own, parent, j)[o]
  }

  lemma BackedSplice(page: seq<byte>, parent: Tree, j: nat, d: seq<byte>, o: nat)
    requires |page| == PAGE_SIZE && Paged(parent) && |d| <= PAGE_SIZE && o < PAGE_SIZE
    ensures Splice(Backed(page, parent, j, |d|), 0, d)[o]
         == (if o < |d| then d[o] else if j in parent then parent[j][o] else page[o])
  {
  }

  lemma SeenAfterByte(own: Tree, parent: Tree, s: Span, src: seq<byte>, j: nat, o: nat)
    requires Paged(own) && Paged(parent) && Spanned(s) && |src| == s.first + s.rest && o < PAGE_SIZE
    ensures SeenAfter(own, parent, s, src, j)[o] == ByteAfter(own, parent, s, src, j, o)
  {
    if s.rest > 0 && j == s.page + 1 {
      BackedSplice(Seen(own, parent, j), parent, j, src[s.first..], o);
    }
  }

  /** The bytes behind the data on the second page are the parent's already. */
  ghost predicate TailKept(own: Tree, parent: Tree, s: Span)
    requires Paged(own) && Paged(parent)
  {
    var j := s.page + 1;
    s.rest > 0 && j in own && j in parent ==> forall o :: s.rest <= o < PAGE_SIZE ==> own[j][o] == parent[j][o]
  }

  lemma WrittenByte(own: Tree, parent: Tree, s: Span, src: seq<byte>, a: nat)
    requires Paged(own) && Paged(parent) && Spanned(s) && |src| == s.first + s.rest
    ensures ByteAt(WriteSpan(own, parent, s, src), parent, a)
         == ByteAfter(own, parent, s, src, a / PAGE_SIZE, a % PAGE_SIZE)
  {
    WriteSeen(own, parent, s, src, a / PAGE_SIZE);
    SeenAfterByte(own, parent, s, src, a / PAGE_SIZE, a % PAGE_SIZE);
  }

  /** One byte of the flat disk after a write whose second page keeps its tail. */
  lemma WriteByte(own: Tree, parent: Tree, s: Span, src: seq<byte>, a: nat)
    requires Paged(own) && Paged(parent) && Spanned(s) && |src| == s.first + s.rest
    requires TailKept(own, parent, s)
    ensures ByteAt(WriteSpan(own, parent, s, src), parent, a)
         == Overlaid(own, parent, PAGE_SIZE * s.page + s.at, src, a)
  {
    WrittenByte(own, parent, s, src, a);
    HitAddress(s, a);
  }

  lemma LostByte(own: Tree, parent: Tree, s: Span, src: seq<byte>, a: nat)
    requires Paged(own) && Paged(parent) && Spanned(s) && |src| == s.first + s.rest && s.rest > 0
    requires s.page + 1 in own && s.page + 1 in parent && a / PAGE_SIZE == s.page + 1
    requires s.rest <= a % PAGE_SIZE && own[s.page + 1][a % PAGE_SIZE] != parent[s.page + 1][a % PAGE_SIZE]
    ensures ByteAt(WriteSpan(own, parent, s, src), parent, a)
         != Overlaid(own, parent, PAGE_SIZE * s.page + s.at, src, a)
  {
    WrittenByte(own, parent, s, src, a);
    HitAddress(s, a);
  }

  lemma KeptIsFlat(own: Tree, parent: Tree, sector: nat, src: seq<byte>)
    requires Paged(own) && Paged(parent) && |src| <= PAGE_SIZE && TailKept(own, parent, SpanOf(sector, |src|))
    ensures WriteIsFlat(own, parent, sector, src)
  {
    forall a: nat
      ensures ByteAt(Write(own, parent, sector, src), parent, a) == Overlaid(own, parent, SECTOR_SIZE * sector, src, a)
    {
      WriteByte(own, parent, SpanOf(sector, |src|), src, a);
    }
  }

  lemma UnkeptIsNotFlat(own: Tree, parent: Tree, sector: nat, src: seq<byte>, o: nat)
    requires Paged(own) && Paged(parent) && |src| <= PAGE_SIZE && SpanOf(sector, |src|).rest <= o < PAGE_SIZE
    requires var j := PageOf(sector) + 1;
             SpanOf(sector, |src|).rest > 0 && j in own && j in parent && own[j][o] != parent[j][o]
    ensures !WriteIsFlat(own, parent, sector, src)
  {
    var a := PAGE_SIZE * (PageOf(sector) + 1) + o;
    assert a / PAGE_SIZE == PageOf(sector) + 1 && a % PAGE_SIZE == o;
    LostByte(own, parent, SpanOf(sector, |src|), src, a);
  }

  /** Exactly when a write is a flat write, for given contents: it stays in one page, or its second page
      holds the parent's bytes behind the data. */
  lemma WriteIsFlatIff(own: Tree, parent: Tree, sector: nat, src: seq<byte>)
    requires Paged(own) && Paged(parent) && |src| <= PAGE_SIZE
    ensures WriteIsFlat(own, parent, sector, src) <==> TailKept(own, parent, SpanOf(sector, |src|))
  {
    var s := SpanOf(sector, |src|);
    if TailKept(own, parent, s) {
      KeptIsFlat(own, parent, sector, src);
    } else {
      var o :| s.rest <= o < PAGE_SIZE && own[s.page + 1][o] != parent[s.page + 1][o];
      UnkeptIsNotFlat(own, parent, sector, src, o);
    }
  }

  /** No earlier write of a snapshot can be lost by a crossing write: the access stays in one page, or the
      second page is not held by both the snapshot and its parent. */
  predicate SafeWrite(own: set<nat>, parent: set<nat>, sector: nat, n: nat)
    requires n <= PAGE_SIZE
  {
    var s := SpanOf(sector, n);
    s.rest > 0 ==> !(s.page + 1 in own && s.page + 1 in parent)
  }

  /** A tree whose pages hold 1 at the start and `b` behind it. */
  ghost function Marked(pages: set<nat>, b: byte): (t: Tree)
    ensures Paged(t) && t.Keys == pages
    ensures forall i, o :: i in pages && 0 <= o < PAGE_SIZE ==> t[i][o] == if o == 0 then 1 else b
  {
    map i | i in pages :: seq(PAGE_SIZE, o => if o == 0 then 1 else b)
  }

  /** Which page sets make every write of `n` bytes at `sector` a flat write, whatever the pages hold. */
  lemma SafeWriteIff(ownPages: set<nat>, parentPages: set<nat>, sector: nat, n: nat)
    requires n <= PAGE_SIZE
    ensures SafeWrite(ownPages, parentPages, sector, n) <==>
            (forall own, parent, src ::
              Paged(own) && Paged(parent) && own.Keys == ownPages && parent.Keys == parentPages && |src| == n ==>
              WriteIsFlat(own, parent, sector, src))
  {
    if SafeWrite(ownPages, parentPages, sector, n) {
      forall own, parent, src | Paged(own) && Paged(parent) && own.Keys == ownPages && parent.Keys == parentPages
                                && |src| == n
        ensures WriteIsFlat(own, parent, sector, src)
      {
        SafeWriteSuffices(own, parent, sector, src);
      }
    } else {
      var own, parent, src := UnsafeWrite(ownPages, parentPages, sector, n);
    }
  }

  lemma SafeWriteSuffices(own: Tree, parent: Tree, sector: nat, src: seq<byte>)
    requires Paged(own) && Paged(parent) && |src| <= PAGE_SIZE && SafeWrite(own.Keys, parent.Keys, sector, |src|)
    ensures WriteIsFlat(own, parent, sector, src)
  {
    WriteIsFlatIff(own, parent, sector, src);
  }

  lemma UnsafeWrite(ownPages: set<nat>, parentPages: set<nat>, sector: nat, n: nat)
    returns (own: Tree, parent: Tree, src: seq<byte>)
    requires n <= PAGE_SIZE && !SafeWrite(ownPages, parentPages, sector, n)
    ensures Paged(own) && Paged(parent) && own.Keys == ownPages && parent.Keys == parentPages && |src| == n
    ensures !WriteIsFlat(own, parent, sector, src)
  {
    own, parent, src := Marked(ownPages, 0), Marked(parentPages, 1), Zeros(n);
    var s := SpanOf(sector, n);
    assert own[s.page + 1][s.rest] != parent[s.page + 1][s.rest];
    WriteIsFlatIff(own, parent, sector, src);
  }

  // ---------------------------------------------------------------- reading

  /** What `copy_from_brd` puts into the caller's buffer. On a page held by the parent alone, the second part
      is read `at` bytes too far into the page; `past` is the memory behind that page. */
  function ReadSpan(own: Tree, parent: Tree, s: Span, past: seq<byte>): (r: seq<byte>)
    requires Paged(own) && Paged(parent) && Spanned(s) && |past| == PAGE_SIZE
    ensures |r| == s.first + s.rest
  {
    var j := s.page + 1;
    Seen(own, parent, s.page)[s.at..s.at + s.first] +
    if s.rest == 0 then []
    else if j in own then own[j][..s.rest]
    else if j in parent then (parent[j] + past)[s.at..s.at + s.rest]
    else Zeros(s.rest)
  }

  function Read(own: Tree, parent: Tree, sector: nat, n: nat, past: seq<byte>): (r: seq<byte>)
    requires Paged(own) && Paged(parent) && n <= PAGE_SIZE && |past| == PAGE_SIZE
    ensures |r| == n
  {
    ReadSpan(own, parent, SpanOf(sector, n), past)
  }

  /** `n` bytes of the flat disk from byte address `at` on. */
  function Slice(own: Tree, parent: Tree, at: nat, n: nat): (r: seq<byte>)
    requires Paged(own) && Paged(parent)
    ensures |r| == n && forall p :: 0 <= p < n ==> r[p] == ByteAt(own, parent, at + p)
  {
    seq(n, p requires 0 <= p => ByteAt(own, parent, at + p))
  }

  /** The bytes wrongly taken from the parent's page happen to be the right ones. */
  ghost predicate StrayMatches(own: Tree, parent: Tree, s: Span, past: seq<byte>)
    requires Paged(own) && Paged(parent) && Spanned(s) && |past| == PAGE_SIZE
  {
    var j := s.page + 1;
    s.rest > 0 && j !in own && j in parent ==>
      forall q :: 0 <= q < s.rest ==> (parent[j] + past)[s.at + q] == parent[j][q]
  }

  lemma SliceByte(own: Tree, parent: Tree, s: Span, p: nat)
    requires Paged(own) && Paged(parent) && Spanned(s) && p < s.first + s.rest
    ensures ByteAt(own, parent, PAGE_SIZE * s.page + s.at + p) ==
            (if p < s.first then Seen(own, parent, s.page)[s.at + p] else Seen(own, parent, s.page + 1)[p - s.first])
  {
    if p < s.first {
      ByteAtPage(own, parent, s.page, s.at + p);
    } else {
      ByteAtPage(own, parent, s.page + 1, p - s.first);
    }
  }

  /** One byte of the buffer after a read. */
  lemma ReadByte(own: Tree, parent: Tree, s: Span, past: seq<byte>, p: nat)
    requires Paged(own) && Paged(parent) && Spanned(s) && |past| == PAGE_SIZE && p < s.first + s.rest
    ensures var (j, q) := (s.page + 1, p - s.first);
            ReadSpan(own, parent, s, past)[p] ==
            if q < 0 then Seen(own, parent, s.page)[s.at + p]
            else if j !in own && j in parent then (parent[j] + past)[s.at + q]
            else Seen(own, parent, j)[q]
  {
  }

  /** The byte of the buffer is the flat disk's, or comes from the wrong place of the parent's page. */
  lemma ReadOrStray(own: Tree, parent: Tree, s: Span, past: seq<byte>, p: nat)
    requires Paged(own) && Paged(parent) && Spanned(s) && |past| == PAGE_SIZE && p < s.first + s.rest
    ensures var (j, q) := (s.page + 1, p - s.first);
            ReadSpan(own, parent, s, past)[p] == ByteAt(own, parent, PAGE_SIZE * s.page + s.at + p) <==>
            (q >= 0 && j !in own && j in parent ==> (parent[j] + past)[s.at + q] == parent[j][q])
  {
    SliceByte(own, parent, s, p);
    ReadByte(own, parent, s, past, p);
  }

  lemma MatchIsFlat(own: Tree, parent: Tree, s: Span, past: seq<byte>)
    requires Paged(own) && Paged(parent) && Spanned(s) && |past| == PAGE_SIZE && StrayMatches(own, parent, s, past)
    ensures ReadSpan(own, parent, s, past) == Slice(own, parent, PAGE_SIZE * s.page + s.at, s.first + s.rest)
  {
    var (r, flat) := (ReadSpan(own, parent, s, past), Slice(own, parent, PAGE_SIZE * s.page + s.at, s.first + s.rest));
    forall p | 0 <= p < s.first + s.rest ensures r[p] == flat[p] {
      ReadOrStray(own, parent, s, past, p);
    }
  }

  lemma StrayIsNotFlat(own: Tree, parent: Tree, s: Span, past: seq<byte>, q: nat)
    requires Paged(own) && Paged(parent) && Spanned(s) && |past| == PAGE_SIZE && q < s.rest
    requires s.page + 1 !in own && s.page + 1 in parent
    requires (parent[s.page + 1] + past)[s.at + q] != parent[s.page + 1][q]
    ensures ReadSpan(own, parent, s, past) != Slice(own, parent, PAGE_SIZE * s.page + s.at, s.first + s.rest)
  {
    ReadOrStray(own, parent, s, past, s.first + q);
    assert ReadSpan(own, parent, s, past)[s.first + q]
        != Slice(own, parent, PAGE_SIZE * s.page + s.at, s.first + s.rest)[s.first + q];
  }

  /** Exactly when a read returns the flat disk's bytes, for given contents. */
  lemma ReadIsFlatIff(own: Tree, parent: Tree, sector: nat, n: nat, past: seq<byte>)
    requires Paged(own) && Paged(parent) && n <= PAGE_SIZE && |past| == PAGE_SIZE
    ensures Read(own, parent, sector, n, past) == Slice(own, parent, SECTOR_SIZE * sector, n)
       <==> StrayMatches(own, parent, SpanOf(sector, n), past)
  {
    var s := SpanOf(sector, n);
    if StrayMatches(own, parent, s, past) {
      MatchIsFlat(own, parent, s, past);
    } else {
      var q: nat :| q < s.rest && (parent[s.page + 1] + past)[s.at + q] != parent[s.page + 1][q];
      StrayIsNotFlat(own, parent, s, past, q);
    }
  }

  /** No page held by the parent alone is reached by crossing into it. */
  predicate SafeRead(own: set<nat>, parent: set<nat>, sector: nat, n: nat)
    requires n <= PAGE_SIZE
  {
    var s := SpanOf(sector, n);
    s.rest > 0 ==> s.page + 1 in own || s.page + 1 !in parent
  }

  /** Which page sets make every read of `n` bytes at `sector` right, whatever the pages hold. */
  lemma SafeReadIff(ownPages: set<nat>, parentPages: set<nat>, sector: nat, n: nat, past: seq<byte>)
    requires n <= PAGE_SIZE && |past| == PAGE_SIZE
    ensures SafeRead(ownPages, parentPages, sector, n) <==>
            (forall own, parent ::
              Paged(own) && Paged(parent) && own.Keys == ownPages && parent.Keys == parentPages ==>
              Read(own, parent, sector, n, past) == Slice(own, parent, SECTOR_SIZE * sector, n))
  {
    if SafeRead(ownPages, parentPages, sector, n) {
      forall own, parent | Paged(own) && Paged(parent) && own.Keys == ownPages && parent.Keys == parentPages
        ensures Read(own, parent, sector, n, past) == Slice(own, parent, SECTOR_SIZE * sector, n)
      {
        ReadIsFlatIff(own, parent, sector, n, past);
      }
    } else {
      var (own, parent, s) := (Marked(ownPages, 0), Marked(parentPages, 0), SpanOf(sector, n));
      assert (parent[s.page + 1] + past)[s.at + 0] == 0 != parent[s.page + 1][0];
      ReadIsFlatIff(own, parent, sector, n, past);
    }
  }

  // ---------------------------------------------------------------- several segments

  /** Segments as the block layer builds them: whole sectors, at most a page each. */
  ghost predicate Segmented(segs: seq<seq<byte>>) {
    forall i :: 0 <= i < |segs| ==> |segs[i]| <= PAGE_SIZE && |segs[i]| % SECTOR_SIZE == 0
  }

  function Concat(segs: seq<seq<byte>>): seq<byte> {
    if segs == [] then [] else segs[0] + Concat(segs[1..])
  }

  /** A segment and the sector at which it goes. */
  datatype Piece = Piece(sector: nat, data: seq<byte>)

  /** Every segment goes behind the one before. */
  function Pieces(sector: nat, segs: seq<seq<byte>>): seq<Piece>
    decreases |segs|
  {
    if segs == [] then []
    else [Piece(sector, segs[0])] + Pieces(sector + |segs[0]| / SECTOR_SIZE, segs[1..])
  }

  ghost predicate Small(ps: seq<Piece>) {
    forall i :: 0 <= i < |ps| ==> |ps[i].data| <= PAGE_SIZE
  }

  /** The pieces lie one behind the other from byte address `at` on. */
  ghost predicate Adjacent(at: nat, ps: seq<Piece>)
    decreases |ps|
  {
    ps == [] || (SECTOR_SIZE * ps[0].sector == at && Adjacent(at + |ps[0].data|, ps[1..]))
  }

  function Data(ps: seq<Piece>): seq<byte> {
    if ps == [] then [] else ps[0].data + Data(ps[1..])
  }

  lemma {:induction false} PiecesAdjacent(sector: nat, segs: seq<seq<byte>>)
    requires Segmented(segs)
    ensures Small(Pieces(sector, segs)) && Adjacent(SECTOR_SIZE * sector, Pieces(sector, segs))
    ensures Data(Pieces(sector, segs)) == Concat(segs)
    decreases |segs|
  {
    if segs != [] {
      PiecesAdjacent(sector + |segs[0]| / SECTOR_SIZE, segs[1..]);
    }
  }

  function WritePieces(own: Tree, parent: Tree, ps: seq<Piece>): (r: Tree)
    requires Paged(own) && Paged(parent) && Small(ps)
    ensures Paged(r)
    decreases |ps|
  {
    if ps == [] then own else WritePieces(Write(own, parent, ps[0].sector, ps[0].data), parent, ps[1..])
  }

  /** Reading into segments of the given lengths. */
  function ReadPieces(own: Tree, parent: Tree, ps: seq<Piece>, past: seq<byte>): (r: seq<byte>)
    requires Paged(own) && Paged(parent) && Small(ps) && |past| == PAGE_SIZE
    ensures |r| == |Data(ps)|
    decreases |ps|
  {
    if ps == [] then []
    else Read(own, parent, ps[0].sector, |ps[0].data|, past) + ReadPieces(own, parent, ps[1..], past)
  }

  /** `m` bytes of an image. */
  function Window(img: Image, at: nat, m: nat): (r: seq<byte>)
    requires at + m <= |img|
    ensures |r| == m
  {
    img[at..at + m]
  }

  lemma ReadView(own: Tree, parent: Tree, p: Piece, past: seq<byte>, n: nat)
    requires Paged(own) && Paged(parent) && |p.data| <= PAGE_SIZE && |past| == PAGE_SIZE
    requires SafeRead(own.Keys, parent.Keys, p.sector, |p.data|)
    requires SECTOR_SIZE * p.sector + |p.data| <= n
    ensures Read(own, parent, p.sector, |p.data|, past)
         == Window(View(own, parent, n), SECTOR_SIZE * p.sector, |p.data|)
  {
    ReadIsFlatIff(own, parent, p.sector, |p.data|, past);
  }

  /** The pieces lie one behind the other from byte address `at` on, inside the first `n` bytes. */
  ghost predicate Stretch(at: nat, ps: seq<Piece>, n: nat) {
    Small(ps) && Adjacent(at, ps) && at + |Data(ps)| <= n
  }

  lemma StretchRest(at: nat, ps: seq<Piece>, n: nat)
    requires ps != [] && Stretch(at, ps, n)
    ensures |ps[0].data| <= PAGE_SIZE && Stretch(at + |ps[0].data|, ps[1..], n)
    ensures SECTOR_SIZE * ps[0].sector == at && at + |ps[0].data| <= n
    ensures Data(ps) == ps[0].data + Data(ps[1..])
  {
  }

  // ---------------------------------------------------------------- discarding

  /** Zeroes pages, counted from the page that holds the first sector, as long as a whole page length is left; only
      pages of the device's own. */
  function Discard(own: Tree, sector: nat, n: nat): (r: Tree)
    requires Paged(own)
    ensures Paged(r) && r.Keys == own.Keys
    decreases n
  {
    if n < PAGE_SIZE then own
    else
      var i := PageOf(sector);
      Discard(if i in own then own[i := Zeros(PAGE_SIZE)] else own, sector + PAGE_SECTORS, n - PAGE_SIZE)
  }

  /** What a discard does, on every device and for every range: as many pages as the range has whole page lengths, from
      the page of the first sector on, read as zeros if the device holds them itself; every other page reads as
      before. */
  lemma {:induction false} DiscardSeen(own: Tree, parent: Tree, sector: nat, n: nat, j: nat)
    requires Paged(own) && Paged(parent)
    ensures Seen(Discard(own, sector, n), parent, j)
         == (if j in own && PageOf(sector) <= j < PageOf(sector) + n / PAGE_SIZE then Zeros(PAGE_SIZE)
             else Seen(own, parent, j))
    decreases n
  {
    if n >= PAGE_SIZE {
      var i := PageOf(sector);
      var next := if i in own then own[i := Zeros(PAGE_SIZE)] else own;
      DiscardSeen(next, parent, sector + PAGE_SECTORS, n - PAGE_SIZE, j);
      assert PageOf(sector + PAGE_SECTORS) == i + 1 && (n - PAGE_SIZE) / PAGE_SIZE == n / PAGE_SIZE - 1;
    }
  }

  /** Page `j` is one of those that the loop visits. */
  predicate Visited(sector: nat, n: nat, j: nat) {
    PageOf(sector) <= j < PageOf(sector) + n / PAGE_SIZE
  }

  /** The range asks for byte `a`. */
  predicate Asked(sector: nat, n: nat, a: nat) {
    SECTOR_SIZE * sector <= a < SECTOR_SIZE * sector + n
  }

  /** The discard zeroes exactly the bytes of the flat disk that it is asked to. */
  ghost predicate DiscardIsFlat(own: Tree, parent: Tree, sector: nat, n: nat)
    requires Paged(own) && Paged(parent)
  {
    forall a: nat :: ByteAt(Discard(own, sector, n), parent, a)
                  == if Asked(sector, n, a) then 0 else ByteAt(own, parent, a)
  }

  lemma DiscardByte(own: Tree, parent: Tree, sector: nat, n: nat, a: nat)
    requires Paged(own) && Paged(parent)
    ensures ByteAt(Discard(own, sector, n), parent, a)
         == if a / PAGE_SIZE in own && Visited(sector, n, a / PAGE_SIZE) then 0 else ByteAt(own, parent, a)
  {
    DiscardSeen(own, parent, sector, n, a / PAGE_SIZE);
  }

  /** Wherever the bytes asked for and the bytes zeroed differ, the disk holds zero already. */
  ghost predicate StraysAreZero(own: Tree, parent: Tree, sector: nat, n: nat)
    requires Paged(own) && Paged(parent)
  {
    forall a: nat :: Asked(sector, n, a) != (a / PAGE_SIZE in own && Visited(sector, n, a / PAGE_SIZE)) ==>
                       ByteAt(own, parent, a) == 0
  }

  /** Exactly when a discard is a flat one, for given contents. */
  lemma DiscardIsFlatIff(own: Tree, parent: Tree, sector: nat, n: nat)
    requires Paged(own) && Paged(parent)
    ensures DiscardIsFlat(own, parent, sector, n) <==> StraysAreZero(own, parent, sector, n)
  {
    forall a: nat
      ensures ByteAt(Discard(own, sector, n), parent, a)
           == if a / PAGE_SIZE in own && Visited(sector, n, a / PAGE_SIZE) then 0 else ByteAt(own, parent, a)
    {
      DiscardByte(own, parent, sector, n, a);
    }
  }

  /** The range asks for some byte of page `j`. */
  predicate Meets(sector: nat, n: nat, j: nat) {
    n > 0 && SECTOR_SIZE * sector < PAGE_SIZE * (j + 1) && PAGE_SIZE * j < SECTOR_SIZE * sector + n
  }

  /** The range asks for every byte of page `j`. */
  predicate Covers(sector: nat, n: nat, j: nat) {
    SECTOR_SIZE * sector <= PAGE_SIZE * j && PAGE_SIZE * (j + 1) <= SECTOR_SIZE * sector + n
  }

  /** Of the device's own pages the loop visits only such as the range covers and misses none that it meets; the range
      meets no page that the parent alone holds. */
  predicate SafeDiscard(own: set<nat>, parent: set<nat>, sector: nat, n: nat) {
    && (forall j :: j in own ==> if Visited(sector, n, j) then Covers(sector, n, j) else !Meets(sector, n, j))
    && (forall j :: j in parent && j !in own ==> !Meets(sector, n, j))
  }

  lemma SafeDiscardSuffices(own: Tree, parent: Tree, sector: nat, n: nat)
    requires Paged(own) && Paged(parent) && SafeDiscard(own.Keys, parent.Keys, sector, n)
    ensures DiscardIsFlat(own, parent, sector, n)
  {
    DiscardIsFlatIff(own, parent, sector, n);
    forall a: nat | Asked(sector, n, a) != (a / PAGE_SIZE in own && Visited(sector, n, a / PAGE_SIZE))
      ensures ByteAt(own, parent, a) == 0
    {
      var j := a / PAGE_SIZE;
      assert PAGE_SIZE * j <= a < PAGE_SIZE * (j + 1);
      assert j !in own && j !in parent;
    }
  }

  lemma InPage(a: nat, j: nat)
    requires PAGE_SIZE * j <= a < PAGE_SIZE * (j + 1)
    ensures a / PAGE_SIZE == j
  {
  }

  lemma MetByte(sector: nat, n: nat, j: nat) returns (a: nat)
    requires Meets(sector, n, j)
    ensures a / PAGE_SIZE == j && Asked(sector, n, a)
  {
    a := if SECTOR_SIZE * sector <= PAGE_SIZE * j then PAGE_SIZE * j else SECTOR_SIZE * sector;
    InPage(a, j);
  }

  lemma UncoveredByte(sector: nat, n: nat, j: nat) returns (a: nat)
    requires !Covers(sector, n, j)
    ensures a / PAGE_SIZE == j && !Asked(sector, n, a)
  {
    a := if SECTOR_SIZE * sector <= PAGE_SIZE * j then PAGE_SIZE * j + (PAGE_SIZE - 1) else PAGE_SIZE * j;
    InPage(a, j);
  }

  /** A byte at which an unsafe discard goes wrong. */
  lemma StrayByte(own: set<nat>, parent: set<nat>, sector: nat, n: nat) returns (a: nat)
    requires !SafeDiscard(own, parent, sector, n)
    ensures a / PAGE_SIZE in own + parent
    ensures Asked(sector, n, a) != (a / PAGE_SIZE in own && Visited(sector, n, a / PAGE_SIZE))
  {
    if j: nat :| j in own && Visited(sector, n, j) && !Covers(sector, n, j) {
      a := UncoveredByte(sector, n, j);
    } else if j: nat :| j in own && !Visited(sector, n, j) && Meets(sector, n, j) {
      a := MetByte(sector, n, j);
    } else {
      var j: nat :| j in parent && j !in own && Meets(sector, n, j);
      a := MetByte(sector, n, j);
    }
  }

  /** Which page sets make a discard of `n` bytes at `sector` a flat one, whatever the pages hold. */
  lemma SafeDiscardIff(ownPages: set<nat>, parentPages: set<nat>, sector: nat, n: nat)
    ensures SafeDiscard(ownPages, parentPages, sector, n) <==>
            (forall own, parent ::
              Paged(own) && Paged(parent) && own.Keys == ownPages && parent.Keys == parentPages ==>
              DiscardIsFlat(own, parent, sector, n))
  {
    if SafeDiscard(ownPages, parentPages, sector, n) {
      forall own, parent | Paged(own) && Paged(parent) && own.Keys == ownPages && parent.Keys == parentPages
        ensures DiscardIsFlat(own, parent, sector, n)
      {
        SafeDiscardSuffices(own, parent, sector, n);
      }
    } else {
      var own, parent := UnsafeDiscard(ownPages, parentPages, sector, n);
    }
  }

  lemma UnsafeDiscard(ownPages: set<nat>, parentPages: set<nat>, sector: nat, n: nat) returns (own: Tree, parent: Tree)
    requires !SafeDiscard(ownPages, parentPages, sector, n)
    ensures Paged(own) && Paged(parent) && own.Keys == ownPages && parent.Keys == parentPages
    ensures !DiscardIsFlat(own, parent, sector, n)
  {
    own, parent := Marked(ownPages, 1), Marked(parentPages, 1);
    var a := StrayByte(ownPages, parentPages, sector, n);
    assert ByteAt(own, parent, a) == 1;
    DiscardIsFlatIff(own, parent, sector, n);
  }

  /** A discard of whole pages is safe exactly when it meets no page that the parent alone holds. */
  lemma AlignedDiscard(own: set<nat>, parent: set<nat>, sector: nat, n: nat)
    requires sector % PAGE_SECTORS == 0 && n % PAGE_SIZE == 0
    ensures SafeDiscard(own, parent, sector, n) <==>
            forall j :: j in parent && PageOf(sector) <= j < PageOf(sector) + n / PAGE_SIZE ==> j in own
  {
    forall j: nat
      ensures Visited(sector, n, j) <==> Meets(sector, n, j)
      ensures Visited(sector, n, j) ==> Covers(sector, n, j)
    {
      assert SECTOR_SIZE * sector == PAGE_SIZE * PageOf(sector) && n == PAGE_SIZE * (n / PAGE_SIZE);
    }
  }

  /** Its first way to fail: a whole page that only the parent holds stays readable. */
  lemma DiscardKeepsParentPage()
    ensures ByteAt(Discard(map[], 0, PAGE_SIZE), Marked({0}, 1), 0) == 1 && Asked(0, PAGE_SIZE, 0)
  {
    DiscardByte(map[], Marked({0}, 1), 0, PAGE_SIZE, 0);
  }

  /** The second: from the middle of a page on, a page length clears the bytes in front of the range and misses those
      in the next page, on a base device too. */
  lemma DiscardShifts()
    ensures var own := Marked({0, 1}, 1);
            && ByteAt(own, map[], 0) == 1 && ByteAt(Discard(own, 1, PAGE_SIZE), map[], 0) == 0
            && !Asked(1, PAGE_SIZE, 0)
            && ByteAt(Discard(own, 1, PAGE_SIZE), map[], PAGE_SIZE) == 1 && Asked(1, PAGE_SIZE, PAGE_SIZE)
  {
    var own := Marked({0, 1}, 1);
    DiscardByte(own, map[], 1, PAGE_SIZE, 0);
    DiscardByte(own, map[], 1, PAGE_SIZE, PAGE_SIZE);
  }

  /** The third: less than a page length is not discarded at all. */
  lemma DiscardKeepsTail()
    ensures ByteAt(Discard(Marked({0}, 1), 0, SECTOR_SIZE), map[], 0) == 1 && Asked(0, SECTOR_SIZE, 0)
  {
    DiscardByte(Marked({0}, 1), map[], 0, SECTOR_SIZE, 0);
  }

  // ---------------------------------------------------------------- requests

  /** A block request. For a read only the lengths of the segments matter; a discard has none. */
  datatype Bio = Bio(flags: bv64, rw: bv64, sector: u64, size: u32, segs: seq<seq<byte>>) {
    predicate IsWrite() { Has(rw, REQ_WRITE) }

    predicate IsDiscard() { Has(rw, REQ_DISCARD) }

    ghost predicate Formed() {
      Segmented(segs) && size % SECTOR_SIZE == 0 && (!IsDiscard() ==> size == |Concat(segs)|)
    }

    function EndSector(): nat { sector + size / SECTOR_SIZE }
  }

  /** The request ends on the disk and does not ask to change a disk that is not writable. */
  predicate Admitted(bio: Bio, writable: bool, capacity: nat) {
    bio.EndSector() <= capacity && !((bio.IsWrite() || bio.IsDiscard()) && !writable)
  }

  /** The device's pages after a request. */
  function After(own: Tree, parent: Tree, writable: bool, capacity: nat, bio: Bio): (r: Tree)
    requires Paged(own) && Paged(parent) && bio.Formed()
    ensures Paged(r)
  {
    if !Admitted(bio, writable, capacity) then own
    else if bio.IsDiscard() then Discard(own, bio.sector, bio.size)
    else if bio.IsWrite() then
      PiecesAdjacent(bio.sector, bio.segs);
      WritePieces(own, parent, Pieces(bio.sector, bio.segs))
    else own
  }

  /** Which requests are served, in bits and sectors: those that end on the disk, and of writes and discards those to a
      disk that can be written. Reads are bound by the end of the disk, too. */
  lemma AdmittedBits(bio: Bio, writable: bool, capacity: nat)
    ensures bio.IsWrite() <==> bio.rw & 0x1 != 0
    ensures bio.IsDiscard() <==> bio.rw & 0x80 != 0
    ensures Admitted(bio, writable, capacity) <==>
            bio.sector + bio.size / 512 <= capacity && (writable || (bio.rw & 0x1 == 0 && bio.rw & 0x80 == 0))
  {
  }

  /** A request that is refused changes nothing. */
  lemma RefusedRequest(own: Tree, parent: Tree, writable: bool, capacity: nat, bio: Bio)
    requires Paged(own) && Paged(parent) && bio.Formed()
    requires bio.sector + bio.size / 512 > capacity || (!writable && (bio.rw & 0x1 != 0 || bio.rw & 0x80 != 0))
    ensures After(own, parent, writable, capacity, bio) == own
  {
    AdmittedBits(bio, writable, capacity);
  }

  /** A request to discard, on a disk that can be written: the device's own among the pages visited read as zeros, every
      other byte as before. */
  lemma DiscardRequest(own: Tree, parent: Tree, capacity: nat, bio: Bio, a: nat)
    requires Paged(own) && Paged(parent) && bio.Formed()
    requires bio.rw & 0x80 != 0 && bio.sector + bio.size / 512 <= capacity
    ensures ByteAt(After(own, parent, true, capacity, bio), parent, a)
         == if a / 4096 in own && bio.sector / 8 <= a / 4096 < bio.sector / 8 + bio.size / 4096 then 0
            else ByteAt(own, parent, a)
  {
    AdmittedBits(bio, true, capacity);
    DiscardByte(own, parent, bio.sector, bio.size, a);
  }

  // ---------------------------------------------------------------- page indices

  /** All pages start on a disk of `capacity` sectors or directly behind it. */
  ghost predicate InRange(t: Tree, capacity: nat) {
    forall i :: i in t ==> i <= PageOf(capacity)
  }

  lemma WriteInRange(own: Tree, parent: Tree, sector: nat, src: seq<byte>, capacity: nat)
    requires Paged(own) && Paged(parent) && |src| <= PAGE_SIZE && InRange(own, capacity)
    requires SECTOR_SIZE * sector + |src| <= SECTOR_SIZE * capacity
    ensures InRange(Write(own, parent, sector, src), capacity)
  {
    var s := SpanOf(sector, |src|);
    assert s.page <= PageOf(capacity);
    assert s.rest > 0 ==> s.page + 1 <= PageOf(capacity);
  }

  ghost predicate StaysInRange(own: Tree, parent: Tree, ps: seq<Piece>, capacity: nat)
    requires Paged(own) && Paged(parent) && Small(ps)
  {
    InRange(WritePieces(own, parent, ps), capacity)
  }

  lemma FirstInRange(own: Tree, parent: Tree, ps: seq<Piece>, capacity: nat, next: Tree)
    requires Paged(own) && Paged(parent) && Small(ps) && ps != []
    requires next == Write(own, parent, ps[0].sector, ps[0].data) && StaysInRange(next, parent, ps[1..], capacity)
    ensures StaysInRange(own, parent, ps, capacity)
  {
  }

  lemma {:induction false} PiecesInRange(own: Tree, parent: Tree, at: nat, ps: seq<Piece>, capacity: nat)
    requires Paged(own) && Paged(parent) && Stretch(at, ps, SECTOR_SIZE * capacity) && InRange(own, capacity)
    ensures StaysInRange(own, parent, ps, capacity)
    decreases |ps|
  {
    if ps != [] {
      StretchRest(at, ps, SECTOR_SIZE * capacity);
      var next := Write(own, parent, ps[0].sector, ps[0].data);
      WriteInRange(own, parent, ps[0].sector, ps[0].data, capacity);
      PiecesInRange(next, parent, at + |ps[0].data|, ps[1..], capacity);
      FirstInRange(own, parent, ps, capacity, next);
    }
  }

  /** No request brings in a page beyond the one that would hold the first sector behind the disk; only an empty
      segment at the very end of the disk reaches that one. */
  lemma AfterInRange(own: Tree, parent: Tree, writable: bool, capacity: nat, bio: Bio)
    requires Paged(own) && Paged(parent) && bio.Formed() && InRange(own, capacity)
    ensures InRange(After(own, parent, writable, capacity, bio), capacity)
  {
    if Admitted(bio, writable, capacity) && !bio.IsDiscard() && bio.IsWrite() {
      PiecesAdjacent(bio.sector, bio.segs);
      assert SECTOR_SIZE * (bio.size / SECTOR_SIZE) == bio.size;
      PiecesInRange(own, parent, SECTOR_SIZE * bio.sector, Pieces(bio.sector, bio.segs), capacity);
    }
  }
}
