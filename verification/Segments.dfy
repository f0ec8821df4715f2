/** Several segments one behind the other: what a request, or a whole run of requests, does to the flat disk, and which
    bytes it loses. */
module Segments {
  import opened DiskOps
  import opened PageTree

  // ---------------------------------------------------------------- one byte under many pieces

  /** The piece carries a byte for address `a`. */
  predicate Hits(p: Piece, a: nat) {
    SECTOR_SIZE * p.sector <= a < SECTOR_SIZE * p.sector + |p.data|
  }

  /** The piece crosses into the page of address `a` and ends in front of it. */
  predicate Trails(p: Piece, a: nat)
    requires |p.data| <= PAGE_SIZE
  {
    var s := SpanOf(p.sector, |p.data|);
    s.rest > 0 && a / PAGE_SIZE == s.page + 1 && s.rest <= a % PAGE_SIZE
  }

  /** The byte at `a`, formerly `before`, once the piece is written on a device with the given parent. */
  function ByteOnce(parent: Tree, p: Piece, a: nat, before: byte): byte
    requires Paged(parent) && |p.data| <= PAGE_SIZE
  {
    if Hits(p, a) then p.data[a - SECTOR_SIZE * p.sector]
    else if a / PAGE_SIZE in parent && Trails(p, a) then parent[a / PAGE_SIZE][a % PAGE_SIZE]
    else before
  }

  /** ... and once all pieces are. Without a parent this is what a flat disk holds. */
  function ByteFinally(parent: Tree, ps: seq<Piece>, a: nat, before: byte): byte
    requires Paged(parent) && Small(ps)
    decreases |ps|
  {
    if ps == [] then before else ByteFinally(parent, ps[1..], a, ByteOnce(parent, ps[0], a, before))
  }

  function FlatByte(ps: seq<Piece>, a: nat, before: byte): byte
    requires Small(ps)
  {
    ByteFinally(map[], ps, a, before)
  }

  lemma AfterIsOnce(own: Tree, parent: Tree, s: Span, p: Piece, a: nat)
    requires Paged(own) && Paged(parent) && |p.data| <= PAGE_SIZE && s == SpanOf(p.sector, |p.data|)
    ensures PageTree.ByteAfter(own, parent, s, p.data, a / PAGE_SIZE, a % PAGE_SIZE)
         == ByteOnce(parent, p, a, ByteAt(own, parent, a))
  {
    HitAddress(s, a);
  }

  lemma WriteOnce(own: Tree, parent: Tree, p: Piece, a: nat)
    requires Paged(own) && Paged(parent) && |p.data| <= PAGE_SIZE
    ensures ByteAt(Write(own, parent, p.sector, p.data), parent, a) == ByteOnce(parent, p, a, ByteAt(own, parent, a))
  {
    var s := SpanOf(p.sector, |p.data|);
    WrittenByte(own, parent, s, p.data, a);
    AfterIsOnce(own, parent, s, p, a);
  }

  lemma {:induction false} WriteFinally(own: Tree, parent: Tree, ps: seq<Piece>, a: nat)
    requires Paged(own) && Paged(parent) && Small(ps)
    ensures ByteAt(WritePieces(own, parent, ps), parent, a) == ByteFinally(parent, ps, a, ByteAt(own, parent, a))
    decreases |ps|
  {
    if ps != [] {
      WriteOnce(own, parent, ps[0], a);
      WriteFinally(Write(own, parent, ps[0].sector, ps[0].data), parent, ps[1..], a);
    }
  }

  lemma {:induction false} ByteLast(parent: Tree, front: seq<Piece>, p: Piece, a: nat, before: byte)
    requires Paged(parent) && Small(front + [p])
    ensures Small(front) && |p.data| <= PAGE_SIZE
    ensures ByteFinally(parent, front + [p], a, before) == ByteOnce(parent, p, a, ByteFinally(parent, front, a, before))
    decreases |front|
  {
    var all := front + [p];
    assert all[|front|] == p;
    assert forall i :: 0 <= i < |front| ==> front[i] == all[i];
    if front == [] {
      assert all[1..] == [];
    } else {
      assert all[1..] == front[1..] + [p];
      ByteLast(parent, front[1..], p, a, ByteOnce(parent, front[0], a, before));
    }
  }

  // ---------------------------------------------------------------- lost bytes

  /** The device held the page of address `a` itself at the start, or one of the pieces has written that byte. */
  predicate Held(own: set<nat>, ps: seq<Piece>, a: nat) {
    a / PAGE_SIZE in own || exists i :: 0 <= i < |ps| && Hits(ps[i], a)
  }

  /** Piece `k` puts the parent's byte in the place of one that the device held, and no later piece writes there. */
  predicate LostAt(own: set<nat>, parent: set<nat>, ps: seq<Piece>, a: nat, k: nat)
    requires Small(ps) && k < |ps|
  {
    && a / PAGE_SIZE in parent && Trails(ps[k], a) && Held(own, ps[..k], a)
    && forall m :: k < m < |ps| ==> !Hits(ps[m], a)
  }

  predicate Lost(own: set<nat>, parent: set<nat>, ps: seq<Piece>, a: nat)
    requires Small(ps)
  {
    exists k :: 0 <= k < |ps| && LostAt(own, parent, ps, a, k)
  }

  lemma TrailsBehind(p: Piece, a: nat)
    requires |p.data| <= PAGE_SIZE && Trails(p, a)
    ensures !Hits(p, a) && SECTOR_SIZE * p.sector + |p.data| <= a
    ensures var s := SpanOf(p.sector, |p.data|);
            SECTOR_SIZE * p.sector + |p.data| == PAGE_SIZE * (s.page + 1) + s.rest
    ensures SECTOR_SIZE * p.sector < a / PAGE_SIZE * PAGE_SIZE
  {
  }

  /** One more piece: what was lost stays so unless the piece writes it, and the piece itself may lose the byte. */
  lemma LostMore(own: set<nat>, parent: set<nat>, front: seq<Piece>, p: Piece, a: nat)
    requires Small(front + [p])
    ensures Small(front) && |p.data| <= PAGE_SIZE
    ensures Lost(own, parent, front + [p], a) <==>
            if Hits(p, a) then false
            else Lost(own, parent, front, a) || (a / PAGE_SIZE in parent && Trails(p, a) && Held(own, front, a))
  {
    var all := front + [p];
    assert all[|front|] == p && all[..|front|] == front;
    assert forall i :: 0 <= i < |front| ==> front[i] == all[i];
    if Hits(p, a) && Trails(p, a) { TrailsBehind(p, a); }
    forall k | 0 <= k < |front|
      ensures LostAt(own, parent, all, a, k) <==> !Hits(p, a) && LostAt(own, parent, front, a, k)
    {
      assert all[..k] == front[..k];
    }
    if !Hits(p, a) {
      assert LostAt(own, parent, all, a, |front|) <==>
             a / PAGE_SIZE in parent && Trails(p, a) && Held(own, front, a);
      if k :| 0 <= k < |front| && LostAt(own, parent, front, a, k) {
        assert LostAt(own, parent, all, a, k);
      }
    }
  }

  /** A byte that the device does not hold comes from the parent, before and after. */
  lemma {:induction false} NotHeld(own: set<nat>, ps: seq<Piece>, a: nat, before: byte)
    requires Small(ps) && !Held(own, ps, a)
    ensures FlatByte(ps, a, before) == before
    decreases |ps|
  {
    if ps != [] {
      assert Hits(ps[0], a) ==> Held(own, ps, a);
      assert forall i :: 0 <= i < |ps[1..]| ==> ps[1..][i] == ps[i + 1];
      NotHeld(own, ps[1..], a, before);
    }
  }

  /** The parent's byte at `a` is the one that shows there if the device does not hold the page. */
  ghost predicate ShowsThrough(own: set<nat>, parent: Tree, a: nat, before: byte)
    requires Paged(parent)
  {
    a / PAGE_SIZE in parent && a / PAGE_SIZE !in own ==> before == parent[a / PAGE_SIZE][a % PAGE_SIZE]
  }

  /** A byte that is not lost ends up as on a flat disk. */
  lemma {:induction false} KeptByte(own: set<nat>, parent: Tree, ps: seq<Piece>, a: nat, before: byte)
    requires Paged(parent) && Small(ps) && !Lost(own, parent.Keys, ps, a) && ShowsThrough(own, parent, a, before)
    ensures ByteFinally(parent, ps, a, before) == FlatByte(ps, a, before)
    decreases |ps|
  {
    if ps != [] {
      var front, p := ps[..|ps| - 1], ps[|ps| - 1];
      assert ps == front + [p];
      ByteLast(parent, front, p, a, before);
      ByteLast(map[], front, p, a, before);
      LostMore(own, parent.Keys, front, p, a);
      if !Hits(p, a) {
        KeptByte(own, parent, front, a, before);
        if a / PAGE_SIZE in parent && Trails(p, a) { NotHeld(own, front, a, before); }
      }
    }
  }

  /** A lost byte ends up as the parent's. */
  lemma {:induction false} LostIsParents(own: set<nat>, parent: Tree, ps: seq<Piece>, a: nat, before: byte)
    requires Paged(parent) && Small(ps) && Lost(own, parent.Keys, ps, a)
    ensures a / PAGE_SIZE in parent
    ensures ByteFinally(parent, ps, a, before) == parent[a / PAGE_SIZE][a % PAGE_SIZE]
    decreases |ps|
  {
    var front, p := ps[..|ps| - 1], ps[|ps| - 1];
    assert ps == front + [p];
    ByteLast(parent, front, p, a, before);
    LostMore(own, parent.Keys, front, p, a);
    if Lost(own, parent.Keys, front, a) { LostIsParents(own, parent, front, a, before); }
  }

  /** What a flat disk holds where it was written does not depend on what was there. */
  lemma {:induction false} WrittenForgets(ps: seq<Piece>, a: nat, i: nat, x: byte, y: byte)
    requires Small(ps) && i < |ps| && Hits(ps[i], a)
    ensures FlatByte(ps, a, x) == FlatByte(ps, a, y)
    decreases |ps|
  {
    if i > 0 {
      WrittenForgets(ps[1..], a, i - 1, ByteOnce(map[], ps[0], a, x), ByteOnce(map[], ps[0], a, y));
    }
  }

  lemma LostForgets(own: set<nat>, parent: set<nat>, ps: seq<Piece>, a: nat, x: byte, y: byte)
    requires Small(ps) && Lost(own, parent, ps, a) && a / PAGE_SIZE !in own
    ensures FlatByte(ps, a, x) == FlatByte(ps, a, y)
  {
    var k :| 0 <= k < |ps| && LostAt(own, parent, ps, a, k);
    var i :| 0 <= i < k && Hits(ps[..k][i], a);
    WrittenForgets(ps, a, i, x, y);
  }

  // ---------------------------------------------------------------- the flat disk under many pieces

  /** All pieces lie on a disk of `n` bytes. */
  ghost predicate Within(ps: seq<Piece>, n: nat) {
    Small(ps) && forall i :: 0 <= i < |ps| ==> SECTOR_SIZE * ps[i].sector + |ps[i].data| <= n
  }

  function Overlay(img: Image, ps: seq<Piece>): (r: Image)
    requires Within(ps, |img|)
    ensures |r| == |img|
    decreases |ps|
  {
    if ps == [] then img else Overlay(Splice(img, SECTOR_SIZE * ps[0].sector, ps[0].data), ps[1..])
  }

  lemma {:induction false} OverlayByte(img: Image, ps: seq<Piece>, a: nat)
    requires Within(ps, |img|) && a < |img|
    ensures Overlay(img, ps)[a] == FlatByte(ps, a, img[a])
    decreases |ps|
  {
    if ps != [] {
      OverlayByte(Splice(img, SECTOR_SIZE * ps[0].sector, ps[0].data), ps[1..], a);
    }
  }

  lemma {:induction false} OverlayAppend(img: Image, a: seq<Piece>, b: seq<Piece>)
    requires Within(a, |img|) && Within(b, |img|)
    ensures Within(a + b, |img|) && Overlay(img, a + b) == Overlay(Overlay(img, a), b)
    decreases |a|
  {
    if a == [] {
      assert a + b == b;
    } else {
      assert (a + b)[1..] == a[1..] + b;
      OverlayAppend(Splice(img, SECTOR_SIZE * a[0].sector, a[0].data), a[1..], b);
    }
  }

  lemma {:induction false} WritePiecesAppend(own: Tree, parent: Tree, a: seq<Piece>, b: seq<Piece>)
    requires Paged(own) && Paged(parent) && Small(a) && Small(b)
    ensures Small(a + b)
    ensures WritePieces(own, parent, a + b) == WritePieces(WritePieces(own, parent, a), parent, b)
    decreases |a|
  {
    if a == [] {
      assert a + b == b;
    } else {
      assert (a + b)[1..] == a[1..] + b;
      WritePiecesAppend(Write(own, parent, a[0].sector, a[0].data), parent, a[1..], b);
    }
  }

  /** Adjacent pieces are one flat write of all their data. */
  lemma {:induction false} OverlayAdjacent(img: Image, at: nat, ps: seq<Piece>)
    requires Stretch(at, ps, |img|)
    ensures Within(ps, |img|) && Overlay(img, ps) == Splice(img, at, Data(ps))
    decreases |ps|
  {
    if ps == [] {
      SpliceNothing(img, at);
    } else {
      StretchRest(at, ps, |img|);
      OverlayAdjacent(Splice(img, at, ps[0].data), at + |ps[0].data|, ps[1..]);
      SpliceTwice(img, at, ps[0].data, Data(ps[1..]));
    }
  }

  // ---------------------------------------------------------------- when nothing is lost

  /** No byte of a disk of `n` bytes is lost. */
  ghost predicate NothingLost(own: set<nat>, parent: set<nat>, ps: seq<Piece>, n: nat) {
    Small(ps) && forall a: nat :: a < n ==> !Lost(own, parent, ps, a)
  }

  /** Writing the pieces, in whatever places, does to the disk what it does to a flat one. */
  lemma PiecesView(own: Tree, parent: Tree, ps: seq<Piece>, n: nat)
    requires Paged(own) && Paged(parent) && Within(ps, n) && NothingLost(own.Keys, parent.Keys, ps, n)
    ensures View(WritePieces(own, parent, ps), parent, n) == Overlay(View(own, parent, n), ps)
  {
    var before, after := View(own, parent, n), View(WritePieces(own, parent, ps), parent, n);
    forall a | 0 <= a < n
      ensures after[a] == Overlay(before, ps)[a]
    {
      WriteFinally(own, parent, ps, a);
      OverlayByte(before, ps, a);
      KeptByte(own.Keys, parent, ps, a, ByteAt(own, parent, a));
    }
  }

  /** A tree whose pages hold `b` everywhere. */
  ghost function Filled(pages: set<nat>, b: byte): (t: Tree)
    ensures Paged(t) && t.Keys == pages
    ensures forall i, o :: i in pages && 0 <= o < PAGE_SIZE ==> t[i][o] == b
  {
    map i | i in pages :: seq(PAGE_SIZE, _ => b)
  }

  /** Contents at which a lost byte shows. */
  lemma LostShows(ownPages: set<nat>, parentPages: set<nat>, ps: seq<Piece>, n: nat, a: nat)
    returns (own: Tree, parent: Tree)
    requires Within(ps, n) && a < n && Lost(ownPages, parentPages, ps, a)
    ensures Paged(own) && Paged(parent) && own.Keys == ownPages && parent.Keys == parentPages
    ensures View(WritePieces(own, parent, ps), parent, n)[a] != Overlay(View(own, parent, n), ps)[a]
  {
    var flat := FlatByte(ps, a, 0);
    own, parent := Filled(ownPages, 0), Filled(parentPages, if flat == 0 then 1 else 0);
    var before := ByteAt(own, parent, a);
    WriteFinally(own, parent, ps, a);
    OverlayByte(View(own, parent, n), ps, a);
    LostIsParents(ownPages, parent, ps, a, before);
    if a / PAGE_SIZE !in ownPages {
      LostForgets(ownPages, parentPages, ps, a, 0, before);
    }
  }

  /** Which page sets make writing the pieces do to the disk what it does to a flat one, whatever the pages hold: those
      with which no byte of the disk is lost. */
  lemma PiecesFlatIff(ownPages: set<nat>, parentPages: set<nat>, ps: seq<Piece>, n: nat)
    requires Within(ps, n)
    ensures NothingLost(ownPages, parentPages, ps, n) <==>
            (forall own, parent | Paged(own) && Paged(parent) && own.Keys == ownPages && parent.Keys == parentPages ::
              View(WritePieces(own, parent, ps), parent, n) == Overlay(View(own, parent, n), ps))
  {
    if NothingLost(ownPages, parentPages, ps, n) {
      forall own, parent | Paged(own) && Paged(parent) && own.Keys == ownPages && parent.Keys == parentPages
        ensures View(WritePieces(own, parent, ps), parent, n) == Overlay(View(own, parent, n), ps)
      {
        PiecesView(own, parent, ps, n);
      }
    } else {
      var a: nat :| a < n && Lost(ownPages, parentPages, ps, a);
      var own, parent := LostShows(ownPages, parentPages, ps, n, a);
    }
  }

  // ---------------------------------------------------------------- one request

  /** The segments of a request end at address `end`: that is the end of a page, or none of them crosses into the page
      in which it lies, or that page is not held by both the device and its parent. */
  predicate SafeEnd(own: set<nat>, parent: set<nat>, ps: seq<Piece>, end: nat)
    requires Small(ps)
  {
    || end % PAGE_SIZE == 0 || end / PAGE_SIZE !in own || end / PAGE_SIZE !in parent
    || forall i :: 0 <= i < |ps| && SpanOf(ps[i].sector, |ps[i].data|).rest > 0 ==>
         PageOf(ps[i].sector) + 1 != end / PAGE_SIZE
  }

  /** Where piece `i` of adjacent ones lies, and that the later ones follow it without a gap. */
  lemma {:induction false} AdjacentAt(at: nat, ps: seq<Piece>, i: nat)
    requires Adjacent(at, ps) && i < |ps|
    ensures var next := SECTOR_SIZE * ps[i].sector + |ps[i].data|;
            && at <= SECTOR_SIZE * ps[i].sector && Adjacent(next, ps[i + 1..])
            && next + |Data(ps[i + 1..])| == at + |Data(ps)|
    decreases i
  {
    if i > 0 {
      AdjacentAt(at + |ps[0].data|, ps[1..], i - 1);
      assert ps[1..][i..] == ps[i + 1..];
    }
  }

  lemma AdjacentOrder(at: nat, ps: seq<Piece>, i: nat, k: nat)
    requires Adjacent(at, ps) && i < k < |ps|
    ensures SECTOR_SIZE * ps[i].sector + |ps[i].data| <= SECTOR_SIZE * ps[k].sector
  {
    AdjacentAt(at, ps, i);
    AdjacentAt(SECTOR_SIZE * ps[i].sector + |ps[i].data|, ps[i + 1..], k - i - 1);
  }

  /** Adjacent pieces leave no gap. */
  lemma {:induction false} AdjacentHits(at: nat, ps: seq<Piece>, a: nat) returns (i: nat)
    requires Adjacent(at, ps) && at <= a < at + |Data(ps)|
    ensures i < |ps| && Hits(ps[i], a)
    decreases |ps|
  {
    if a < at + |ps[0].data| {
      i := 0;
    } else {
      i := AdjacentHits(at + |ps[0].data|, ps[1..], a);
      i := i + 1;
    }
  }

  lemma LaterHits(at: nat, ps: seq<Piece>, k: nat, a: nat) returns (m: nat)
    requires Adjacent(at, ps) && k < |ps|
    requires SECTOR_SIZE * ps[k].sector + |ps[k].data| <= a < at + |Data(ps)|
    ensures k < m < |ps| && Hits(ps[m], a)
  {
    AdjacentAt(at, ps, k);
    m := AdjacentHits(SECTOR_SIZE * ps[k].sector + |ps[k].data|, ps[k + 1..], a);
    m := k + 1 + m;
  }

  /** What a request loses lies behind its end, in the page where it ends. */
  lemma LostBehind(own: set<nat>, parent: set<nat>, at: nat, ps: seq<Piece>, a: nat)
    requires Small(ps) && Adjacent(at, ps) && Lost(own, parent, ps, a)
    ensures at + |Data(ps)| <= a && !SafeEnd(own, parent, ps, at + |Data(ps)|)
  {
    var k :| 0 <= k < |ps| && LostAt(own, parent, ps, a, k);
    var end, next := at + |Data(ps)|, SECTOR_SIZE * ps[k].sector + |ps[k].data|;
    TrailsBehind(ps[k], a);
    AdjacentAt(at, ps, k);
    if a < end {
      var m := LaterHits(at, ps, k, a);
    }
    if i :| 0 <= i < k && Hits(ps[..k][i], a) {
      AdjacentOrder(at, ps, i, k);
    }
    SamePage(SpanOf(ps[k].sector, |ps[k].data|).page + 1, SpanOf(ps[k].sector, |ps[k].data|).rest, end, a);
  }

  lemma SamePage(page: nat, rest: nat, end: nat, a: nat)
    requires 0 < rest && PAGE_SIZE * page + rest <= end <= a && a / PAGE_SIZE == page
    ensures end / PAGE_SIZE == page && end % PAGE_SIZE > 0
  {
  }

  lemma EndTrails(p: Piece, end: nat)
    requires |p.data| <= PAGE_SIZE && SpanOf(p.sector, |p.data|).rest > 0 && PageOf(p.sector) + 1 == end / PAGE_SIZE
    requires SECTOR_SIZE * p.sector + |p.data| <= end
    ensures Trails(p, end)
  {
  }

  lemma EndMissed(at: nat, ps: seq<Piece>, m: nat)
    requires Adjacent(at, ps) && m < |ps|
    ensures SECTOR_SIZE * ps[m].sector + |ps[m].data| <= at + |Data(ps)| && !Hits(ps[m], at + |Data(ps)|)
  {
    AdjacentAt(at, ps, m);
  }

  lemma EndLost(own: set<nat>, parent: set<nat>, at: nat, ps: seq<Piece>)
    requires Small(ps) && Adjacent(at, ps) && !SafeEnd(own, parent, ps, at + |Data(ps)|)
    ensures Lost(own, parent, ps, at + |Data(ps)|)
  {
    var end := at + |Data(ps)|;
    var k :| 0 <= k < |ps| && SpanOf(ps[k].sector, |ps[k].data|).rest > 0
             && PageOf(ps[k].sector) + 1 == end / PAGE_SIZE;
    forall m | 0 <= m < |ps|
      ensures SECTOR_SIZE * ps[m].sector + |ps[m].data| <= end && !Hits(ps[m], end)
    {
      EndMissed(at, ps, m);
    }
    EndTrails(ps[k], end);
    assert LostAt(own, parent, ps, end, k);
  }

  /** A request loses no byte of a disk of `n` bytes if and only if it ends safely or with the disk. */
  lemma SafeEndIff(own: set<nat>, parent: set<nat>, at: nat, ps: seq<Piece>, n: nat)
    requires Stretch(at, ps, n)
    ensures NothingLost(own, parent, ps, n) <==> SafeEnd(own, parent, ps, at + |Data(ps)|) || at + |Data(ps)| == n
  {
    var end := at + |Data(ps)|;
    if a: nat :| a < n && Lost(own, parent, ps, a) {
      LostBehind(own, parent, at, ps, a);
    }
    if !SafeEnd(own, parent, ps, end) && end < n {
      EndLost(own, parent, at, ps);
    }
  }

  /** Writing adjacent pieces is a single flat write of all their data. */
  lemma StretchView(own: Tree, parent: Tree, at: nat, ps: seq<Piece>, n: nat)
    requires Paged(own) && Paged(parent) && Stretch(at, ps, n)
    requires SafeEnd(own.Keys, parent.Keys, ps, at + |Data(ps)|) || at + |Data(ps)| == n
    ensures View(WritePieces(own, parent, ps), parent, n) == Splice(View(own, parent, n), at, Data(ps))
  {
    SafeEndIff(own.Keys, parent.Keys, at, ps, n);
    OverlayAdjacent(View(own, parent, n), at, ps);
    PiecesView(own, parent, ps, n);
  }

  /** The write loses nothing on a device that holds the pages `own`. */
  ghost predicate SafeBio(own: set<nat>, parent: set<nat>, capacity: nat, bio: Bio)
    requires bio.Formed()
  {
    PiecesAdjacent(bio.sector, bio.segs);
    bio.IsWrite() && bio.EndSector() < capacity ==>
      SafeEnd(own, parent, Pieces(bio.sector, bio.segs), SECTOR_SIZE * bio.sector + bio.size)
  }

  /** The segments of a request that ends on the disk lie on the disk one behind the other. */
  lemma BioStretch(bio: Bio, capacity: nat)
    requires bio.Formed() && !bio.IsDiscard() && bio.EndSector() <= capacity
    ensures Stretch(SECTOR_SIZE * bio.sector, Pieces(bio.sector, bio.segs), SECTOR_SIZE * capacity)
    ensures Data(Pieces(bio.sector, bio.segs)) == Concat(bio.segs) && |Concat(bio.segs)| == bio.size
    ensures SECTOR_SIZE * bio.sector + bio.size == SECTOR_SIZE * bio.EndSector()
  {
    PiecesAdjacent(bio.sector, bio.segs);
    assert SECTOR_SIZE * (bio.size / SECTOR_SIZE) == bio.size;
  }

  /** An admitted safe write leaves the disk as one flat write of its data does, any other request that is not an
      admitted discard leaves it as it was. */
  lemma RequestView(own: Tree, parent: Tree, writable: bool, capacity: nat, bio: Bio)
    requires Paged(own) && Paged(parent) && bio.Formed() && !bio.IsDiscard()
    requires SafeBio(own.Keys, parent.Keys, capacity, bio)
    ensures var n := SECTOR_SIZE * capacity;
            View(After(own, parent, writable, capacity, bio), parent, n) ==
            if bio.IsWrite() && Admitted(bio, writable, capacity) && SECTOR_SIZE * bio.sector + bio.size <= n
            then Splice(View(own, parent, n), SECTOR_SIZE * bio.sector, Concat(bio.segs))
            else View(own, parent, n)
  {
    if bio.IsWrite() && Admitted(bio, writable, capacity) {
      BioStretch(bio, capacity);
      StretchView(own, parent, SECTOR_SIZE * bio.sector, Pieces(bio.sector, bio.segs), SECTOR_SIZE * capacity);
    }
  }

  // ---------------------------------------------------------------- pages held

  /** The pages of an access. */
  function PagesOf(s: Span): set<nat> {
    {s.page} + if s.rest > 0 then {s.page + 1} else {}
  }

  lemma WriteKeys(own: Tree, parent: Tree, sector: nat, src: seq<byte>)
    requires Paged(own) && Paged(parent) && |src| <= PAGE_SIZE
    ensures Write(own, parent, sector, src).Keys == own.Keys + PagesOf(SpanOf(sector, |src|))
  {
    SetupSeen(own, parent, SpanOf(sector, |src|), 0);
  }

  /** The pages that a device holds after the pieces are written. */
  function KeysAfter(own: set<nat>, ps: seq<Piece>): set<nat>
    decreases |ps|
  {
    if ps == [] || |ps[0].data| > PAGE_SIZE then own
    else KeysAfter(own + PagesOf(SpanOf(ps[0].sector, |ps[0].data|)), ps[1..])
  }

  lemma {:induction false} WritePiecesKeys(own: Tree, parent: Tree, ps: seq<Piece>)
    requires Paged(own) && Paged(parent) && Small(ps)
    ensures WritePieces(own, parent, ps).Keys == KeysAfter(own.Keys, ps)
    decreases |ps|
  {
    if ps != [] {
      WriteKeys(own, parent, ps[0].sector, ps[0].data);
      WritePiecesKeys(Write(own, parent, ps[0].sector, ps[0].data), parent, ps[1..]);
    }
  }

  // ---------------------------------------------------------------- reading

  /** No piece crosses into a page that the parent alone holds. */
  ghost predicate SafeReads(own: set<nat>, parent: set<nat>, ps: seq<Piece>) {
    forall i :: 0 <= i < |ps| ==> |ps[i].data| <= PAGE_SIZE && SafeRead(own, parent, ps[i].sector, |ps[i].data|)
  }

  lemma ConcatHead(a: seq<seq<byte>>, b: seq<seq<byte>>)
    requires |a| == |b| > 0 && |a[0]| == |b[0]|
    ensures Concat(a) == Concat(b) <==> a[0] == b[0] && Concat(a[1..]) == Concat(b[1..])
  {
    var whole, other := a[0] + Concat(a[1..]), b[0] + Concat(b[1..]);
    if whole == other {
      assert a[0] == whole[..|a[0]|] == other[..|b[0]|] == b[0];
      assert Concat(a[1..]) == whole[|a[0]|..] == other[|b[0]|..] == Concat(b[1..]);
    }
  }

  /** Two lists of pieces of the same lengths are equal if they are so end to end. */
  lemma {:induction false} ConcatSame(a: seq<seq<byte>>, b: seq<seq<byte>>)
    requires |a| == |b| && forall i :: 0 <= i < |a| ==> |a[i]| == |b[i]|
    ensures Concat(a) == Concat(b) <==> a == b
    decreases |a|
  {
    if a != [] {
      ConcatHead(a, b);
      ConcatSame(a[1..], b[1..]);
      assert a == [a[0]] + a[1..] && b == [b[0]] + b[1..];
    }
  }

  /** What is read for each piece, and what should be. */
  function Chunks(own: Tree, parent: Tree, ps: seq<Piece>, past: seq<byte>): seq<seq<byte>>
    requires Paged(own) && Paged(parent) && Small(ps) && |past| == PAGE_SIZE
  {
    seq(|ps|, i requires 0 <= i < |ps| => Read(own, parent, ps[i].sector, |ps[i].data|, past))
  }

  function Windows(img: Image, ps: seq<Piece>): seq<seq<byte>>
    requires Within(ps, |img|)
  {
    seq(|ps|, i requires 0 <= i < |ps| => Window(img, SECTOR_SIZE * ps[i].sector, |ps[i].data|))
  }

  lemma {:induction false} ReadChunks(own: Tree, parent: Tree, ps: seq<Piece>, past: seq<byte>)
    requires Paged(own) && Paged(parent) && Small(ps) && |past| == PAGE_SIZE
    ensures ReadPieces(own, parent, ps, past) == Concat(Chunks(own, parent, ps, past))
    decreases |ps|
  {
    if ps != [] {
      ReadChunks(own, parent, ps[1..], past);
      assert Chunks(own, parent, ps, past)[1..] == Chunks(own, parent, ps[1..], past);
    }
  }

  lemma {:induction false} AdjacentWindows(img: Image, at: nat, ps: seq<Piece>)
    requires Stretch(at, ps, |img|)
    ensures Within(ps, |img|) && Window(img, at, |Data(ps)|) == Concat(Windows(img, ps))
    decreases |ps|
  {
    if ps != [] {
      StretchRest(at, ps, |img|);
      AdjacentWindows(img, at + |ps[0].data|, ps[1..]);
      assert forall i :: 0 < i < |ps| ==> ps[i] == ps[1..][i - 1];
      assert Windows(img, ps)[1..] == Windows(img, ps[1..]);
      WindowJoin(img, at, |ps[0].data|, |Data(ps[1..])|);
    }
  }

  lemma WindowJoin(img: Image, at: nat, m: nat, k: nat)
    requires at + m + k <= |img|
    ensures Window(img, at, m + k) == Window(img, at, m) + Window(img, at + m, k)
  {
  }

  /** The piece is read as the flat disk has it. */
  ghost predicate ReadsRight(own: Tree, parent: Tree, p: Piece, past: seq<byte>, n: nat)
    requires Paged(own) && Paged(parent) && |past| == PAGE_SIZE
    requires |p.data| <= PAGE_SIZE && SECTOR_SIZE * p.sector + |p.data| <= n
  {
    Read(own, parent, p.sector, |p.data|, past) == Window(View(own, parent, n), SECTOR_SIZE * p.sector, |p.data|)
  }

  /** With marked pages an unsafe piece returns a wrong byte. */
  lemma MarkedRead(ownPages: set<nat>, parentPages: set<nat>, p: Piece, past: seq<byte>, n: nat)
    requires |past| == PAGE_SIZE && |p.data| <= PAGE_SIZE && SECTOR_SIZE * p.sector + |p.data| <= n
    requires !SafeRead(ownPages, parentPages, p.sector, |p.data|)
    ensures !ReadsRight(Marked(ownPages, 0), Marked(parentPages, 0), p, past, n)
  {
    var own, parent, s := Marked(ownPages, 0), Marked(parentPages, 0), SpanOf(p.sector, |p.data|);
    assert (parent[s.page + 1] + past)[s.at + 0] == 0 != parent[s.page + 1][0];
    ReadIsFlatIff(own, parent, p.sector, |p.data|, past);
    assert Slice(own, parent, SECTOR_SIZE * p.sector, |p.data|)
        == Window(View(own, parent, n), SECTOR_SIZE * p.sector, |p.data|);
  }

  /** The segments of a read return the bytes of the disk that it asks for. */
  ghost predicate ReturnsFlat(own: Tree, parent: Tree, capacity: nat, bio: Bio, past: seq<byte>)
    requires Paged(own) && Paged(parent) && |past| == PAGE_SIZE
    requires bio.Formed() && !bio.IsDiscard() && bio.EndSector() <= capacity
  {
    BioStretch(bio, capacity);
    ReadPieces(own, parent, Pieces(bio.sector, bio.segs), past)
    == Window(View(own, parent, SECTOR_SIZE * capacity), SECTOR_SIZE * bio.sector, bio.size)
  }

  /** ... exactly if each of them does. */
  lemma ReturnsFlatIff(own: Tree, parent: Tree, capacity: nat, bio: Bio, past: seq<byte>)
    requires Paged(own) && Paged(parent) && |past| == PAGE_SIZE
    requires bio.Formed() && !bio.IsDiscard() && bio.EndSector() <= capacity
    ensures var (ps, n) := (Pieces(bio.sector, bio.segs), SECTOR_SIZE * capacity);
            Within(ps, n)
            && (ReturnsFlat(own, parent, capacity, bio, past) <==>
                forall i :: 0 <= i < |ps| ==> ReadsRight(own, parent, ps[i], past, n))
  {
    var ps, img := Pieces(bio.sector, bio.segs), View(own, parent, SECTOR_SIZE * capacity);
    BioStretch(bio, capacity);
    AdjacentWindows(img, SECTOR_SIZE * bio.sector, ps);
    ReadChunks(own, parent, ps, past);
    SameChunks(own, parent, ps, past, SECTOR_SIZE * capacity);
    ConcatSame(Chunks(own, parent, ps, past), Windows(img, ps));
  }

  lemma SameChunks(own: Tree, parent: Tree, ps: seq<Piece>, past: seq<byte>, n: nat)
    requires Paged(own) && Paged(parent) && |past| == PAGE_SIZE && Within(ps, n)
    ensures var (a, b) := (Chunks(own, parent, ps, past), Windows(View(own, parent, n), ps));
            && |a| == |b| && (forall i :: 0 <= i < |a| ==> |a[i]| == |b[i]|)
            && (a == b <==> forall i :: 0 <= i < |ps| ==> ReadsRight(own, parent, ps[i], past, n))
  {
    var a, b := Chunks(own, parent, ps, past), Windows(View(own, parent, n), ps);
    forall i | 0 <= i < |ps|
      ensures a[i] == b[i] <==> ReadsRight(own, parent, ps[i], past, n)
    {
    }
  }

  /** Which page sets make a read on the disk right, whatever the pages hold: those with which none of its segments
      crosses into a page that the parent alone holds. */
  lemma RequestReadIff(ownPages: set<nat>, parentPages: set<nat>, capacity: nat, bio: Bio, past: seq<byte>)
    requires |past| == PAGE_SIZE && bio.Formed() && !bio.IsDiscard() && bio.EndSector() <= capacity
    ensures SafeReads(ownPages, parentPages, Pieces(bio.sector, bio.segs)) <==>
            (forall own, parent | Paged(own) && Paged(parent) && own.Keys == ownPages && parent.Keys == parentPages ::
              ReturnsFlat(own, parent, capacity, bio, past))
  {
    var ps, n := Pieces(bio.sector, bio.segs), SECTOR_SIZE * capacity;
    var own, parent := Marked(ownPages, 0), Marked(parentPages, 0);
    ReturnsFlatIff(own, parent, capacity, bio, past);
    if SafeReads(ownPages, parentPages, ps) {
      forall o, p | Paged(o) && Paged(p) && o.Keys == ownPages && p.Keys == parentPages
        ensures ReturnsFlat(o, p, capacity, bio, past)
      {
        SafeReturns(o, p, capacity, bio, past);
      }
    } else {
      var i :| 0 <= i < |ps| && !SafeRead(ownPages, parentPages, ps[i].sector, |ps[i].data|);
      MarkedRead(ownPages, parentPages, ps[i], past, n);
    }
  }

  lemma SafeReturns(own: Tree, parent: Tree, capacity: nat, bio: Bio, past: seq<byte>)
    requires Paged(own) && Paged(parent) && |past| == PAGE_SIZE
    requires bio.Formed() && !bio.IsDiscard() && bio.EndSector() <= capacity
    requires SafeReads(own.Keys, parent.Keys, Pieces(bio.sector, bio.segs))
    ensures ReturnsFlat(own, parent, capacity, bio, past)
  {
    var ps, n := Pieces(bio.sector, bio.segs), SECTOR_SIZE * capacity;
    ReturnsFlatIff(own, parent, capacity, bio, past);
    forall i | 0 <= i < |ps|
      ensures ReadsRight(own, parent, ps[i], past, n)
    {
      ReadView(own, parent, ps[i], past, n);
    }
  }
}
