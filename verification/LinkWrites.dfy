/**
 Which links the allocator writes. A page in use keeps its reference count and its reserved flag where a free page keeps
 its links (`kernel/memory/PhysicalPage.h`), so a write to the link of a page in use is a write to those.
 */
module LinkWrites {
  import opened Powers
  import opened BuddyModel
  import opened FreeLists
  import opened BuddySteps
  import opened RegionSteps

  // ---------- One zone ----------

  /** An entry of a list is a free page. */
  lemma EntryIsFree(lists: seq<seq<nat>>, order: nat, k: nat)
    requires order < |lists| && k < |lists[order]|
    ensures lists[order][k] in FreePages(lists)
  {
    var b := Block(lists[order][k], order);
    assert b in Listed(lists) && b.Has(b.start);
  }

  lemma PopWrites(z: Zone, lists: seq<seq<nat>>, order: nat, top: nat, x: nat)
    requires InOrder(z, lists, top) && order <= top && lists[order] != [] && x < Pow2(top) && x !in FreePages(lists)
    ensures Pop(z, order).Done? && Pop(z, order).value.1.links[x + 1] == z.links[x + 1]
  {
    PopKeeps(z, lists, top, order);
    assert Chain(z.links, lists[order], Heads(z)[order]) && Linked(z.links, lists[order], 0);
    if |lists[order]| > 1 {
      EntryIsFree(lists, order, 1);
    }
  }

  /** Taking a block writes no link of a page in use of the zone. */
  lemma {:induction false} AllocWrites(z: Zone, lists: seq<seq<nat>>, order: nat, top: nat, x: nat)
    requires InOrder(z, lists, top) && Alloc(z, order, top).Done? && x < Pow2(top) && x !in FreePages(lists)
    ensures Alloc(z, order, top).value.1.links[x + 1] == z.links[x + 1]
    decreases if order <= top then top + 1 - order else 0
  {
    hide Pop, InOrder, FreePages;
    InOrderShape(z, lists, top);
    HeadIs(z, lists, top, order);
    if lists[order] == [] {
      var lists' := AllocKeeps(z, lists, order + 1, top);
      AllocWrites(z, lists, order + 1, top, x);
      var h := Alloc(z, order + 1, top).value.0;
      SecondHalf(h, order);
      assert h + Pow2(order) in FreePages(lists);
    } else {
      PopWrites(z, lists, order, top, x);
    }
  }

  lemma InOrderShape(z: Zone, lists: seq<seq<nat>>, top: nat)
    requires InOrder(z, lists, top)
    ensures top < |z.orders| && |z.links| == Pow2(top) + 1 && |lists| == top + 1
  {
  }

  lemma SecondHalf(h: nat, order: nat)
    ensures h + Pow2(order) in Pages(Block(h, order + 1))
  {
    assert Block(h, order + 1).Has(h + Pow2(order));
  }

  lemma PushWrites(z: Zone, lists: seq<seq<nat>>, b: nat, order: nat, top: nat, x: nat)
    requires InOrder(z, lists, top) && order <= top && Push(z, b, order).Done?
    requires x < Pow2(top) && x !in FreePages(lists) && x != b
    ensures Push(z, b, order).value.links[x + 1] == z.links[x + 1]
  {
    assert Chain(z.links, lists[order], Heads(z)[order]);
    if lists[order] != [] {
      EntryIsFree(lists, order, 0);
    }
  }

  lemma UnlinkWrites(z: Zone, lists: seq<seq<nat>>, order: nat, top: nat, k: nat, b: nat, x: nat)
    requires InOrder(z, lists, top) && order <= top && k < |lists[order]| && HasBit(z, b, order)
    requires Unlink(ClearBit(z, b, order), lists[order][k], order).Done? && x < Pow2(top) && x !in FreePages(lists)
    ensures Unlink(ClearBit(z, b, order), lists[order][k], order).value.links[x + 1] == z.links[x + 1]
  {
    assert Chain(z.links, lists[order], Heads(z)[order]);
    UnlinkBounds(z.links, lists[order], Heads(z)[order], k);
    UnlinkedElsewhere(z.links, lists[order], Heads(z)[order], k);
    if k > 0 {
      EntryIsFree(lists, order, k - 1);
    }
    if k + 1 < |lists[order]| {
      EntryIsFree(lists, order, k + 1);
    }
  }

  /** Giving a block back writes no link of another page in use of the zone. */
  lemma {:induction false} FreeWrites(z: Zone, lists: seq<seq<nat>>, b: nat, order: nat, top: nat, x: nat)
    requires InOrder(z, lists, top) && BlockOk(Block(b, order), top) && Pages(Block(b, order)) !! FreePages(lists)
    requires x < Pow2(top) && x !in FreePages(lists) && x !in Pages(Block(b, order))
    ensures Free(z, b, order, top).Done? && Free(z, b, order, top).value.links[x + 1] == z.links[x + 1]
    decreases top - order
  {
    hide ZoneOk, FreeSet, Chains, Unlink, Push, ClearBit;
    var c := Block(b, order);
    assert c.Has(b) && b in Pages(c);
    MixedMeansBuddyFree(Listed(lists), Bits(z), top, c);
    assert Bits(z)[order] == z.orders[order].blockMap;
    hide FreePages, Pages;
    if z.orders[order].blockMap[BitIndex(b, order)] {
      BuddyHalves(c, top);
      BuddyTwice(c);
      var k := ListedAt(lists, Buddy(c));
      TakeKeeps(z, lists, top, order, k, b);
      UnlinkWrites(z, lists, order, top, k, b, x);
      hide InOrder;
      var z' := Unlink(ClearBit(z, b, order), BuddyStart(b, order), order).value;
      FreeWrites(z', lists[order := Without(lists[order], k)], PairStart(b, order), order + 1, top, x);
    } else {
      PushKeeps(z, lists, top, b, order);
      PushWrites(z, lists, b, order, top, x);
    }
  }

  /** Nothing about a zone depends on the link of a page in use. */
  lemma UsedLinkFree(z: Zone, lists: seq<seq<nat>>, top: nat, x: nat, link: Link)
    requires InOrder(z, lists, top) && x < Pow2(top) && x !in FreePages(lists)
    ensures InOrder(z.(links := z.links[x + 1 := link]), lists, top)
  {
    hide FreePages;
    var z' := z.(links := z.links[x + 1 := link]);
    assert Heads(z') == Heads(z) && Bits(z') == Bits(z);
    forall q: nat | q < |lists| ensures Chain(z'.links, lists[q], Heads(z')[q]) {
      assert Chain(z.links, lists[q], Heads(z)[q]);
      forall i: nat | i < |lists[q]| && lists[q][i] + 1 < |z.links|
        ensures z'.links[lists[q][i] + 1] == z.links[lists[q][i] + 1]
      {
        EntryIsFree(lists, q, i);
      }
      ChainElsewhere(z.links, z'.links, lists[q], Heads(z)[q]);
    }
  }

  // ---------- A region ----------

  /** The region with another link for page p of the machine. */
  function WithLink(r: Region, p: nat, link: Link): Region
    requires p + 1 < |r.links|
  {
    r.(links := r.links[p + 1 := link])
  }

  lemma WithLinkView(r: Region, p: nat, link: Link, q: Part)
    requires p + 1 < |r.links| && Fits(r.links, q)
    ensures Fits(WithLink(r, p, link).links, q)
    ensures var v, v' := ViewOf(r.links, q), ViewOf(WithLink(r, p, link).links, q);
            v' == if q.first <= p + 1 <= q.End() then v.(links := v.links[p + 1 - q.first := link]) else v
  {
  }

  lemma UsedInZone(r: Region, ls: seq<seq<seq<nat>>>, p: nat, i: nat)
    requires RegionOk(r, ls) && !IsFree(r, ls, p) && i < |r.zones| && r.zones[i].first <= p < r.zones[i].End()
    ensures p - r.zones[i].first !in FreePages(ls[i])
  {
    hide FreePages, InOrder;
    ZoneOfIs(r, i, p);
  }

  /** Nothing about a region depends on the link of a page that is not free. */
  lemma UsedLinkIrrelevant(r: Region, ls: seq<seq<seq<nat>>>, p: nat, link: Link)
    requires RegionOk(r, ls) && p + 1 < |r.links| && !IsFree(r, ls, p)
    ensures RegionOk(WithLink(r, p, link), ls)
  {
    hide InOrder, FreePages, Tiles, ViewOf;
    var r' := WithLink(r, p, link);
    forall i: nat | i < |r.zones|
      ensures Fits(r'.links, r.zones[i]) && InOrder(ViewOf(r'.links, r.zones[i]), ls[i], r.zones[i].top)
    {
      UsedLinkAt(r, ls, p, link, i);
    }
  }

  lemma UsedLinkAt(r: Region, ls: seq<seq<seq<nat>>>, p: nat, link: Link, i: nat)
    requires RegionOk(r, ls) && p + 1 < |r.links| && !IsFree(r, ls, p) && i < |r.zones|
    ensures var q, links' := r.zones[i], WithLink(r, p, link).links;
            Fits(links', q) && InOrder(ViewOf(links', q), ls[i], q.top)
  {
    var q := r.zones[i];
    assert Fits(r.links, q) && InOrder(ViewOf(r.links, q), ls[i], q.top);
    assert |ViewOf(r.links, q).links| == Pow2(q.top) + 1;
    WithLinkView(r, p, link, q);
    if q.first <= p < q.End() {
      UsedInZone(r, ls, p, i);
    }
    hide InOrder, FreePages, Tiles, ViewOf, RegionOk;
    if q.first <= p < q.End() {
      UsedLinkFree(ViewOf(r.links, q), ls[i], q.top, p - q.first, link);
    } else if p + 1 == q.first {
      FirstLinkFree(ViewOf(r.links, q), ls[i], q.top, link);
    }
  }

  /** The request makes the zone that serves it empty a list, and p is the page before that zone. */
  ghost predicate WritesBefore(r: Region, ls: seq<seq<seq<nat>>>, n: nat, p: nat)
    requires |ls| == |r.zones| && n > 0
  {
    var s := Serving(r.zones, 0, n);
    s < |r.zones| && Empties(ls[s], OrderFor(n)) && p + 1 == r.zones[s].first
  }

  /** The links of zone s after it served the request. */
  ghost predicate TakenFrom(r: Region, s: nat, n: nat, local: seq<Link>)
    requires s < |r.zones| && AllFit(r) && n > 0
  {
    var q := r.zones[s];
    && |local| == Pow2(q.top) + 1 && Alloc(ViewOf(r.links, q), OrderFor(n), q.top).Done?
    && local == Alloc(ViewOf(r.links, q), OrderFor(n), q.top).value.1.links
  }

  lemma ScanGoes(r: Region, ls: seq<seq<seq<nat>>>, n: nat) returns (s: nat, local: seq<Link>)
    requires RegionOk(r, ls) && 0 < n <= r.freePages && Scan(r, 0, n).Allocated?
    ensures AllFit(r) && s == Serving(r.zones, 0, n) < |r.zones| == |ls| && TakenFrom(r, s, n, local)
    ensures local[0] == Clipped(r.links[r.zones[s].first], Empties(ls[s], OrderFor(n)))
    ensures Scan(r, 0, n).value.1.links == Stored(r.links, r.zones[s], local)
  {
    hide Alloc, OrderFor, FreePages, Stored, Empties, Tiles, InOrder, Clipped;
    ScanServes(r, 0, n);
    s := Serving(r.zones, 0, n);
    var q := r.zones[s];
    var z := ViewOf(r.links, q);
    assert InOrder(z, ls[s], q.top);
    var lists' := AllocKeeps(z, ls[s], OrderFor(n), q.top);
    local := Alloc(z, OrderFor(n), q.top).value.1.links;
    InOrderShape(Alloc(z, OrderFor(n), q.top).value.1, lists', q.top);
  }

  lemma ScanInZone(r: Region, ls: seq<seq<seq<nat>>>, s: nat, n: nat, local: seq<Link>, p: nat)
    requires RegionOk(r, ls) && s < |r.zones| && n > 0 && AllFit(r) && TakenFrom(r, s, n, local)
    requires !IsFree(r, ls, p) && r.zones[s].first <= p < r.zones[s].End()
    ensures local[p - r.zones[s].first + 1] == r.links[p + 1]
  {
    hide Alloc, FreePages, Tiles, IsFree, InOrder, Pow2, OrderFor;
    var q := r.zones[s];
    assert InOrder(ViewOf(r.links, q), ls[s], q.top);
    UsedInZone(r, ls, p, s);
    hide RegionOk;
    AllocWrites(ViewOf(r.links, q), ls[s], OrderFor(n), q.top, p - q.first);
  }

  /** What a served request leaves of the link of a page that is not free. */
  lemma ScanWrites(r: Region, ls: seq<seq<seq<nat>>>, n: nat, p: nat)
    requires RegionOk(r, ls) && 0 < n <= r.freePages && Scan(r, 0, n).Allocated?
    requires p + 1 < |r.links| && !IsFree(r, ls, p)
    ensures var r' := Scan(r, 0, n).value.1;
            |r'.links| == |r.links| && r'.links[p + 1] == Clipped(r.links[p + 1], WritesBefore(r, ls, n, p))
  {
    hide RegionOk, IsFree, Scan, Serving, Alloc, Stored, Empties, OrderFor, Clipped;
    var s, local := ScanGoes(r, ls, n);
    StoredAt(r.links, r.zones[s], local, p + 1);
    ClippedNot(r.links[p + 1]);
    if r.zones[s].first <= p < r.zones[s].End() {
      ScanInZone(r, ls, s, n, local, p);
    }
  }

  lemma ClippedNot(link: Link)
    ensures Clipped(link, false) == link
  {
  }

  /** The request writes the link of page p: some value there is not found again afterwards. */
  ghost predicate Overwrites(r: Region, n: nat, p: nat)
    requires p + 1 < |r.links| && n > 0
  {
    exists link: Link :: Loses(r, n, p, link)
  }

  ghost predicate Loses(r: Region, n: nat, p: nat, link: Link)
    requires p + 1 < |r.links| && n > 0
  {
    var r1 := WithLink(r, p, link);
    && AllFit(r1) && AllocPages(r1, n).Allocated?
    && var r' := AllocPages(r1, n).value.1; |r'.links| == |r.links| && r'.links[p + 1] != link
  }

  /**
   `alloc_pages` on a region in order writes the link of a page that is not free exactly when it is served, its zone
   empties a list, and the page is the one before that zone. Then the back link is cleared, and the other half is kept.
   */
  lemma WritesUsedPage(r: Region, ls: seq<seq<seq<nat>>>, n: nat, p: nat)
    requires RegionOk(r, ls) && n > 0 && p + 1 < |r.links| && !IsFree(r, ls, p)
    ensures Overwrites(r, n, p) <==> AllocPages(r, n).Allocated? && WritesBefore(r, ls, n, p)
    ensures AllocPages(r, n).Allocated? ==>
              var r' := AllocPages(r, n).value.1;
              |r'.links| == |r.links| && r'.links[p + 1] == Clipped(r.links[p + 1], WritesBefore(r, ls, n, p))
  {
    hide Scan, RegionOk, OrderFor, IsFree, WritesBefore;
    FitsIfOk(r, ls);
    if AllocPages(r, n).Allocated? {
      ScanWrites(r, ls, n, p);
    }
    forall link: Link
      ensures Loses(r, n, p, link) <==>
                AllocPages(r, n).Allocated? && Clipped(link, WritesBefore(r, ls, n, p)) != link
    {
      WritesAt(r, ls, n, p, link);
    }
    assert Loses(r, n, p, Link(0, 0)) <==> AllocPages(r, n).Allocated? && WritesBefore(r, ls, n, p);
  }

  lemma WritesAt(r: Region, ls: seq<seq<seq<nat>>>, n: nat, p: nat, link: Link)
    requires RegionOk(r, ls) && n > 0 && p + 1 < |r.links| && !IsFree(r, ls, p)
    ensures AllFit(r)
    ensures Loses(r, n, p, link) <==> AllocPages(r, n).Allocated? && Clipped(link, WritesBefore(r, ls, n, p)) != link
  {
    hide Scan, RegionOk, OrderFor, FreePages, HasFreeBlock, Took, Clobbers, Ok, Exact, Empties, Clipped;
    var r1 := WithLink(r, p, link);
    FitsIfOk(r, ls);
    UsedLinkIrrelevant(r, ls, p, link);
    FitsIfOk(r1, ls);
    var l := AllocPagesKeeps(r, ls, n);
    var l1 := AllocPagesKeeps(r1, ls, n);
    if AllocPages(r1, n).Allocated? {
      ScanWrites(r1, ls, n, p);
    }
  }

  /** Page p of the region is in use and its link is written: it is the last page of a zone, and a later zone served. */
  lemma WrittenIsEdge(r: Region, ls: seq<seq<seq<nat>>>, n: nat, p: nat)
    requires RegionOk(r, ls) && n > 0 && WritesBefore(r, ls, n, p) && Owns(r, p)
    ensures var s := Serving(r.zones, 0, n); 0 < s < |r.zones| && p + 1 == r.zones[s].first == r.zones[s - 1].End()
  {
    hide InOrder, Empties;
    var s := Serving(r.zones, 0, n);
    assert s > 0 ==> r.zones[s].first == r.zones[s - 1].End();
  }

  /** The links of a zone after page `page` of the region was given back to it. */
  ghost predicate ReturnedTo(r: Region, i: nat, page: nat, local: seq<Link>)
    requires i < |r.zones| && AllFit(r)
  {
    var q := r.zones[i];
    && q.first <= page < q.End() && |local| == Pow2(q.top) + 1 && local[0] == r.links[q.first]
    && Free(ViewOf(r.links, q), page - q.first, 0, q.top).Done?
    && local == Free(ViewOf(r.links, q), page - q.first, 0, q.top).value.links
  }

  /** What `free_page` does to the links, for a page in use. */
  lemma ReturnGoes(r: Region, ls: seq<seq<seq<nat>>>, page: nat) returns (i: nat, local: seq<Link>)
    requires RegionOk(r, ls) && Owns(r, page) && !IsFree(r, ls, page)
    ensures AllFit(r) && i == ZoneOf(r.zones, page) < |r.zones| == |ls| && FreePage(r, page).Done?
    ensures ReturnedTo(r, i, page, local) && FreePage(r, page).value.links == Stored(r.links, r.zones[i], local)
  {
    hide Free, OrderFor, FreePages, Stored, Tiles, Pages, InOrder;
    TilesCover(r.zones, r.start, r.count, page);
    i := ZoneOf(r.zones, page);
    var q := r.zones[i];
    var z := ViewOf(r.links, q);
    assert InOrder(z, ls[i], q.top);
    OrderForPow2(0);
    OnePage(page - q.first, q.top);
    var lists' := FreeKeeps(z, ls[i], page - q.first, 0, q.top);
    InOrderShape(z, ls[i], q.top);
    local := Free(z, page - q.first, 0, q.top).value.links;
  }

  lemma ReturnInZone(r: Region, ls: seq<seq<seq<nat>>>, i: nat, page: nat, local: seq<Link>, p: nat)
    requires RegionOk(r, ls) && i == ZoneOf(r.zones, page) < |r.zones| && AllFit(r) && ReturnedTo(r, i, page, local)
    requires !IsFree(r, ls, page) && !IsFree(r, ls, p) && p != page && r.zones[i].first <= p < r.zones[i].End()
    ensures local[p - r.zones[i].first + 1] == r.links[p + 1]
  {
    hide Free, FreePages, Pages, Tiles, IsFree, InOrder, Pow2, BlockOk, ZoneOf;
    var q := r.zones[i];
    var x := page - q.first;
    assert InOrder(ViewOf(r.links, q), ls[i], q.top);
    OnePage(x, q.top);
    UsedInZone(r, ls, p, i);
    UsedInZone(r, ls, page, i);
    hide RegionOk;
    assert {x} !! FreePages(ls[i]) && p - q.first !in {x};
    FreeWrites(ViewOf(r.links, q), ls[i], x, 0, q.top, p - q.first);
  }

  /** `free_page` writes no link of another page in use. */
  lemma ReturnWrites(r: Region, ls: seq<seq<seq<nat>>>, page: nat, p: nat)
    requires RegionOk(r, ls) && Owns(r, page) && !IsFree(r, ls, page)
    requires p + 1 < |r.links| && !IsFree(r, ls, p) && p != page
    ensures FreePage(r, page).Done?
    ensures var r' := FreePage(r, page).value; |r'.links| == |r.links| && r'.links[p + 1] == r.links[p + 1]
  {
    hide RegionOk, IsFree, FreePage, Free, Stored;
    var i, local := ReturnGoes(r, ls, page);
    StoredAt(r.links, r.zones[i], local, p + 1);
    if r.zones[i].first <= p < r.zones[i].End() {
      ReturnInZone(r, ls, i, page, local, p);
    }
  }

  // ---------- What decides whether a list runs empty ----------

  function Parent(b: Block): Block {
    Block(ShiftLeft(PairIndex(b), b.order + 1), b.order + 1)
  }

  /** Block b is free as a whole, and the block one order up is not. */
  ghost predicate Maximal(free: set<nat>, b: Block, top: nat) {
    BlockOk(b, top) && Pages(b) <= free && (b.order < top ==> !(Pages(Parent(b)) <= free))
  }

  /** An aligned block inside another, page by page. */
  lemma InsideBlock(b: Block, c: Block, x: nat)
    requires Aligned(b.start, b.order) && Aligned(c.start, c.order) && b.order <= c.order && b.Has(x) && c.Has(x)
    ensures Pages(b) <= Pages(c) && (b.order == c.order ==> b == c)
  {
    Nested(b.start, b.order, c.start, c.order, x);
    forall y | y in Pages(b) ensures y in Pages(c) {
      InPages(b, y);
      InPages(c, y);
    }
  }

  lemma ParentHas(b: Block, top: nat)
    requires BlockOk(b, top) && b.order < top
    ensures BlockOk(Parent(b), top) && Parent(b).Has(b.start) && Pages(b) <= Pages(Parent(b))
  {
    BuddyHalves(b, top);
    InPages(b, b.start);
    InPages(Parent(b), b.start);
  }

  /** The blocks on the lists are decided by the pages that are free: they are the maximal ones. */
  lemma ListedIsMaximal(free: set<Block>, bits: seq<seq<bool>>, top: nat, b: Block)
    requires ZoneOk(free, bits, top)
    ensures b in free <==> Maximal(FreeSet(free), b, top)
  {
    if b in free {
      assert BlockOk(b, top);
      InFreeSet(free, b);
      if b.order < top && Pages(Parent(b)) <= FreeSet(free) {
        ParentHas(b, top);
        var d := FreeBlockWhole(free, bits, top, Parent(b));
        assert BlockOk(d, top) && Apart(b, d);
        assert Parent(b).Has(Parent(b).start);
        InsideBlock(Parent(b), d, Parent(b).start);
        InPages(b, b.start);
        InPages(d, b.start);
      }
    } else if Maximal(FreeSet(free), b, top) {
      var c := FreeBlockWhole(free, bits, top, b);
      assert BlockOk(c, top) && b.Has(b.start);
      InFreeSet(free, c);
      InsideBlock(b, c, b.start);
      if b.order < c.order {
        ParentHas(b, top);
        InsideBlock(Parent(b), c, b.start);
      }
    }
  }

  lemma InFreeSet(free: set<Block>, b: Block)
    requires b in free
    ensures Pages(b) <= FreeSet(free)
  {
    forall x | x in Pages(b) ensures x in FreeSet(free) {
      InPages(b, x);
    }
  }

  /** Block b is the only one of the least order among the maximal free blocks from `order` on. */
  ghost predicate Sole(free: set<nat>, order: nat, top: nat, b: Block) {
    && Maximal(free, b, top) && b.order >= order
    && forall c :: Maximal(free, c, top) && c.order >= order && c != b ==> c.order > b.order
  }

  ghost predicate TakesSole(free: set<nat>, order: nat, top: nat) {
    exists b :: Sole(free, order, top, b)
  }

  /** A request leaves a list empty exactly when the block it comes from is the only one of its order. */
  lemma EmptiesIs(z: Zone, lists: seq<seq<nat>>, order: nat, top: nat)
    requires InOrder(z, lists, top)
    ensures Empties(lists, order) <==> TakesSole(FreePages(lists), order, top)
  {
    forall b ensures b in Listed(lists) <==> Maximal(FreePages(lists), b, top) {
      ListedIsMaximal(Listed(lists), Bits(z), top, b);
    }
    assert forall o: nat :: o < |lists| ==> Distinct(lists[o]) by {
      assert forall o: nat :: o < |lists| ==> Chain(z.links, lists[o], Heads(z)[o]);
    }
    hide InOrder, FreePages, Maximal, Sole;
    var o := FirstOrder(lists, order);
    if Empties(lists, order) {
      SoleOf(lists, order, FreePages(lists), top);
    } else if b :| Sole(FreePages(lists), order, top, b) {
      NotSole(lists, order, FreePages(lists), top, b);
    }
  }

  lemma SoleOf(lists: seq<seq<nat>>, order: nat, free: set<nat>, top: nat)
    requires Empties(lists, order) && forall b :: b in Listed(lists) <==> Maximal(free, b, top)
    ensures TakesSole(free, order, top)
  {
    hide Maximal;
    var o := FirstOrder(lists, order);
    var b := Block(lists[o][0], o);
    assert b in Listed(lists);
    forall c | Maximal(free, c, top) && c.order >= order && c != b ensures c.order > b.order {
      var k := ListedAt(lists, c);
    }
    assert Sole(free, order, top, b);
  }

  lemma NotSole(lists: seq<seq<nat>>, order: nat, free: set<nat>, top: nat, b: Block)
    requires Sole(free, order, top, b) && forall b :: b in Listed(lists) <==> Maximal(free, b, top)
    requires forall o: nat :: o < |lists| ==> Distinct(lists[o])
    ensures Empties(lists, order)
  {
    hide Maximal;
    var o := FirstOrder(lists, order);
    var k := ListedAt(lists, b);
    FirstTwo(lists, o);
  }

  lemma FirstTwo(lists: seq<seq<nat>>, o: nat)
    requires o < |lists| && lists[o] != []
    ensures Block(lists[o][0], o) in Listed(lists)
    ensures |lists[o]| > 1 ==> Block(lists[o][1], o) in Listed(lists)
  {
  }
}
