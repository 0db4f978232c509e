/**
 What `kernel/memory/PhysicalRegion.cpp` does to a range of physical pages that is cut into buddy zones. All zones keep
 their links in one table of pages, so a zone that empties a list writes the link of the last page of the zone before.
 */
module RegionSteps {
  import opened Powers
  import opened BuddyModel
  import opened FreeLists
  import opened BuddySteps

  const MAX_ORDER: nat := 10

  /** A zone of 2^top pages from page `first` on, without its links. */
  datatype Part = Part(first: nat, top: nat, orders: seq<BuddyOrder>, freePages: nat)
  {
    function End(): nat { first + Pow2(top) }
  }

  /** Link p + 1 is that of page p of the machine. */
  datatype Region = Region(start: nat, count: nat, zones: seq<Part>, links: seq<Link>, freePages: nat)

  datatype Answer<T> = Allocated(value: T) | NoMemory | Invalid | AssertFailed | WildAccess

  predicate Fits(links: seq<Link>, p: Part) {
    p.top < |p.orders| && p.End() + 1 <= |links|
  }

  /** The zone with its links: those of its own pages and of the page before them. */
  function ViewOf(links: seq<Link>, p: Part): Zone
    requires Fits(links, p)
  {
    Zone(p.orders, links[p.first..p.End() + 1])
  }

  function Stored(links: seq<Link>, p: Part, local: seq<Link>): seq<Link>
    requires Fits(links, p) && |local| == Pow2(p.top) + 1
  {
    links[..p.first] + local + links[p.End() + 1..]
  }

  /** `BuddyZone::alloc_block`. */
  function AllocBlock(links: seq<Link>, p: Part, n: nat): (out: Answer<(nat, seq<Link>, Part)>)
    requires Fits(links, p) && n > 0
    ensures !out.Invalid? && (out.NoMemory? <==> p.freePages < n)
  {
    if p.freePages < n then NoMemory
    else
      match Alloc(ViewOf(links, p), OrderFor(n), p.top)
      case Stopped => AssertFailed
      case Wild => WildAccess
      case Done((b, z)) =>
        Allocated((p.first + b, Stored(links, p, z.links), p.(orders := z.orders, freePages := p.freePages - n)))
  }

  /** `BuddyZone::free_block`. */
  function FreeBlock(links: seq<Link>, p: Part, page: nat, n: nat): Outcome<(seq<Link>, Part)>
    requires Fits(links, p) && n > 0
  {
    if page < p.first || page + n > p.End() || Pow2(OrderFor(n)) != n then Stopped
    else
      match Free(ViewOf(links, p), page - p.first, OrderFor(n), p.top)
      case Stopped => Stopped
      case Wild => Wild
      case Done(z) => Done((Stored(links, p, z.links), p.(orders := z.orders, freePages := p.freePages + n)))
  }

  predicate AllFit(r: Region) {
    forall i: nat :: i < |r.zones| ==> Fits(r.links, r.zones[i])
  }

  /** The loop over the zones, from zone i on. */
  function Scan(r: Region, i: nat, n: nat): (out: Answer<(nat, Region)>)
    requires AllFit(r) && 0 < n <= r.freePages
    ensures !out.Invalid?
    decreases |r.zones| - i
  {
    if i >= |r.zones| then NoMemory
    else
      match AllocBlock(r.links, r.zones[i], n)
      case NoMemory => Scan(r, i + 1, n)
      case AssertFailed => AssertFailed
      case WildAccess => WildAccess
      case Allocated((page, links, part)) =>
        Allocated((page, r.(links := links, zones := r.zones[i := part], freePages := r.freePages - n)))
  }

  /** `alloc_page`. */
  function AllocPage(r: Region): Answer<(nat, Region)>
    requires AllFit(r)
  {
    if r.freePages == 0 then NoMemory else Scan(r, 0, 1)
  }

  /** `alloc_pages`. */
  function AllocPages(r: Region, n: nat): Answer<(nat, Region)>
    requires AllFit(r) && n > 0
  {
    if r.freePages < n then NoMemory else if OrderFor(n) > MAX_ORDER then Invalid else Scan(r, 0, n)
  }

  /** The first zone that contains the page. */
  function ZoneOf(zones: seq<Part>, page: nat): (i: nat)
    ensures i <= |zones| && (i < |zones| ==> zones[i].first <= page < zones[i].End())
    ensures forall j: nat :: j < i ==> !(zones[j].first <= page < zones[j].End())
  {
    if zones == [] then 0
    else if zones[0].first <= page < zones[0].End() then 0
    else
      var k := ZoneOf(zones[1..], page);
      assert forall j: nat :: 0 < j < k + 1 ==> zones[j] == zones[1..][j - 1];
      k + 1
  }

  /** `free_page`. */
  function FreePage(r: Region, page: nat): Outcome<Region>
    requires AllFit(r)
  {
    var i := ZoneOf(r.zones, page);
    if i == |r.zones| then Stopped
    else
      match FreeBlock(r.links, r.zones[i], page, 1)
      case Stopped => Stopped
      case Wild => Wild
      case Done((links, part)) => Done(r.(links := links, zones := r.zones[i := part], freePages := r.freePages + 1))
  }

  // ---------- Regions in order ----------

  /** The zones cover `count` pages from `start` on, one after the other. */
  ghost predicate Tiles(zones: seq<Part>, start: nat, count: nat) {
    && (zones == [] ==> count == 0)
    && (zones != [] ==> zones[0].first == start && zones[|zones| - 1].End() == start + count)
    && (forall i: nat, j: nat :: i + 1 == j < |zones| ==> zones[j].first == zones[i].End())
  }

  /** Later zones start at or after the end of earlier ones. */
  lemma {:induction false} TilesOrder(zones: seq<Part>, start: nat, count: nat, i: nat, j: nat)
    requires Tiles(zones, start, count) && i < j < |zones|
    ensures zones[i].End() <= zones[j].first && (i + 1 < j ==> zones[i].End() < zones[j].first)
    decreases j
  {
    assert zones[j].first == zones[j - 1].End();
    if i < j - 1 {
      TilesOrder(zones, start, count, i, j - 1);
    }
  }

  /** Every page of the region lies in some zone. */
  lemma {:induction false} TilesCover(zones: seq<Part>, start: nat, count: nat, page: nat)
    requires Tiles(zones, start, count) && start <= page < start + count
    ensures ZoneOf(zones, page) < |zones|
  {
    var i := |zones| - 1;
    while page < zones[i].first
      invariant 0 <= i < |zones| && page < zones[i].End()
      decreases i
    {
      assert zones[i].first == zones[i - 1].End();
      i := i - 1;
    }
  }

  /** The lists of every zone, zone by zone, are those that its links spell. */
  ghost predicate RegionOk(r: Region, ls: seq<seq<seq<nat>>>) {
    && AllFit(r) && Tiles(r.zones, r.start, r.count) && |ls| == |r.zones|
    && forall i: nat :: i < |r.zones| ==> InOrder(ViewOf(r.links, r.zones[i]), ls[i], r.zones[i].top)
  }

  ghost predicate Ok(r: Region) { exists ls :: RegionOk(r, ls) }

  /** Zone i was changed to z'; the link of the page before it was cleared or not. */
  ghost predicate Changed(r: Region, r': Region, i: nat, z': Zone, clipped: bool)
    requires AllFit(r)
  {
    && i < |r.zones| && r'.start == r.start && r'.count == r.count
    && |z'.links| == Pow2(r.zones[i].top) + 1 && |z'.orders| == |r.zones[i].orders|
    && z'.links[0] == Clipped(ViewOf(r.links, r.zones[i]).links[0], clipped)
    && r'.links == Stored(r.links, r.zones[i], z'.links)
    && |r'.zones| == |r.zones| && (forall j: nat :: j < |r.zones| && j != i ==> r'.zones[j] == r.zones[j])
    && r'.zones[i].first == r.zones[i].first && r'.zones[i].top == r.zones[i].top && r'.zones[i].orders == z'.orders
  }

  lemma StoredAt(links: seq<Link>, p: Part, local: seq<Link>, k: nat)
    requires Fits(links, p) && |local| == Pow2(p.top) + 1 && k < |links|
    ensures |Stored(links, p, local)| == |links|
    ensures Stored(links, p, local)[k] == if p.first <= k <= p.End() then local[k - p.first] else links[k]
  {
  }

  /** The links of zone q after those of zone p, which starts where q ends, were stored. */
  lemma ViewBefore(links: seq<Link>, p: Part, local: seq<Link>, q: Part, clipped: bool)
    requires Fits(links, p) && |local| == Pow2(p.top) + 1 && Fits(links, q) && q.End() == p.first
    requires local[0] == Clipped(links[p.first], clipped)
    ensures Fits(Stored(links, p, local), q)
    ensures ViewOf(Stored(links, p, local), q) == if clipped then ClipLast(ViewOf(links, q)) else ViewOf(links, q)
  {
    StoredAt(links, p, local, 0);
    var v, v' := ViewOf(links, q).links, ViewOf(Stored(links, p, local), q).links;
    forall k: nat | k < |v|
      ensures v'[k] == if k == |v| - 1 then Clipped(v[k], clipped) else v[k]
    {
      StoredAt(links, p, local, q.first + k);
    }
  }

  /** The links of zone q, which does not touch zone p, or starts where p ends. */
  lemma ViewApart(links: seq<Link>, p: Part, local: seq<Link>, q: Part)
    requires Fits(links, p) && |local| == Pow2(p.top) + 1 && Fits(links, q) && (q.End() < p.first || p.End() <= q.first)
    ensures Fits(Stored(links, p, local), q)
    ensures var v, v' := ViewOf(links, q), ViewOf(Stored(links, p, local), q);
            && v' == v.(links := v.links[0 := v'.links[0]]) && (p.End() != q.first ==> v' == v)
  {
    StoredAt(links, p, local, 0);
    var v, v' := ViewOf(links, q).links, ViewOf(Stored(links, p, local), q).links;
    forall k: nat | k < |v| && (k > 0 || p.End() != q.first)
      ensures v'[k] == v[k]
    {
      StoredAt(links, p, local, q.first + k);
    }
  }

  lemma ViewItself(links: seq<Link>, p: Part, local: seq<Link>, orders: seq<BuddyOrder>)
    requires Fits(links, p) && |local| == Pow2(p.top) + 1 && |orders| == |p.orders|
    ensures Fits(Stored(links, p, local), p.(orders := orders))
    ensures ViewOf(Stored(links, p, local), p.(orders := orders)) == Zone(orders, local)
  {
    StoredAt(links, p, local, 0);
  }

  /** What the zones see of a change to zone i. */
  lemma ChangedView(r: Region, r': Region, i: nat, z': Zone, clipped: bool, j: nat)
    requires AllFit(r) && Tiles(r.zones, r.start, r.count) && Changed(r, r', i, z', clipped) && j < |r.zones|
    ensures Fits(r'.links, r'.zones[j])
    ensures var v, v' := ViewOf(r.links, r.zones[j]), ViewOf(r'.links, r'.zones[j]);
            && (j == i ==> v' == z')
            && (j + 1 == i ==> v' == if clipped then ClipLast(v) else v)
            && (j == i + 1 ==> v' == v.(links := v.links[0 := v'.links[0]]))
            && (j + 1 < i || j > i + 1 ==> v' == v)
  {
    var p, q := r.zones[i], r.zones[j];
    assert Fits(r.links, p) && Fits(r.links, q) && ViewOf(r.links, p).links[0] == r.links[p.first];
    if j < i {
      TilesOrder(r.zones, r.start, r.count, j, i);
    } else if i < j {
      TilesOrder(r.zones, r.start, r.count, i, j);
    }
    assert j + 1 == i ==> q.End() == p.first;
    hide Tiles, Stored, ViewOf, ClipLast, Pow2;
    if j == i {
      ViewItself(r.links, p, z'.links, z'.orders);
    } else if j + 1 == i {
      ViewBefore(r.links, p, z'.links, q, clipped);
    } else {
      ViewApart(r.links, p, z'.links, q);
    }
  }

  lemma ChangedTiles(r: Region, r': Region, i: nat, z': Zone, clipped: bool)
    requires AllFit(r) && Tiles(r.zones, r.start, r.count) && Changed(r, r', i, z', clipped)
    ensures AllFit(r') && Tiles(r'.zones, r'.start, r'.count)
  {
    forall j: nat | j < |r'.zones| ensures Fits(r'.links, r'.zones[j]) {
      ChangedView(r, r', i, z', clipped, j);
    }
  }

  /** The write to the page before the zone hits an order-0 list of the zone before it, behind its head. */
  ghost predicate Hits(r: Region, ls: seq<seq<seq<nat>>>, i: nat, clipped: bool)
    requires |ls| == |r.zones| && i < |ls|
  {
    clipped && i > 0 && LastIsBehind(ls[i - 1], r.zones[i - 1].top)
  }

  /** A change that keeps its own zone in order keeps the region in order exactly when its write does not hit. */
  lemma ChangeKeeps(r: Region, ls: seq<seq<seq<nat>>>, r': Region, i: nat, z': Zone, clipped: bool,
                    lists': seq<seq<nat>>)
    requires RegionOk(r, ls) && Changed(r, r', i, z', clipped) && InOrder(z', lists', r.zones[i].top)
    ensures RegionOk(r', ls[i := lists']) <==> !Hits(r, ls, i, clipped)
  {
    hide InOrder, ViewOf, Changed, Tiles, LastIsBehind;
    ChangedTiles(r, r', i, z', clipped);
    ChangedShape(r, r', i, z', clipped);
    forall j: nat | j < |r.zones|
      ensures InOrder(ViewOf(r'.links, r'.zones[j]), ls[i := lists'][j], r'.zones[j].top) <==>
                !(j + 1 == i && Hits(r, ls, i, clipped))
    {
      ChangedInOrder(r, ls, r', i, z', clipped, lists', j);
    }
  }

  lemma ChangedShape(r: Region, r': Region, i: nat, z': Zone, clipped: bool)
    requires AllFit(r) && Changed(r, r', i, z', clipped)
    ensures i < |r.zones| == |r'.zones| && forall j: nat :: j < |r.zones| ==> r'.zones[j].top == r.zones[j].top
  {
  }

  lemma ChangedInOrder(r: Region, ls: seq<seq<seq<nat>>>, r': Region, i: nat, z': Zone, clipped: bool,
                       lists': seq<seq<nat>>, j: nat)
    requires RegionOk(r, ls) && Changed(r, r', i, z', clipped) && InOrder(z', lists', r.zones[i].top) && j < |r.zones|
    ensures Fits(r'.links, r'.zones[j])
    ensures InOrder(ViewOf(r'.links, r'.zones[j]), ls[i := lists'][j], r'.zones[j].top) <==>
              !(j + 1 == i && Hits(r, ls, i, clipped))
  {
    ChangedView(r, r', i, z', clipped, j);
    ChangedShape(r, r', i, z', clipped);
    var v := ViewOf(r.links, r.zones[j]);
    assert InOrder(v, ls[j], r.zones[j].top);
    assert v.links != [];
    hide InOrder, ViewOf, Changed, Tiles, LastIsBehind;
    if j + 1 == i && clipped {
      ClipKeeps(v, ls[j], r.zones[j].top);
    } else if j == i + 1 {
      FirstLinkFree(v, ls[j], r.zones[j].top, ViewOf(r'.links, r'.zones[j]).links[0]);
    }
  }

  /** A write that hits leaves a region whose links spell no lists at all. */
  lemma HitBreaks(r: Region, ls: seq<seq<seq<nat>>>, r': Region, i: nat, z': Zone, clipped: bool)
    requires RegionOk(r, ls) && Changed(r, r', i, z', clipped) && Hits(r, ls, i, clipped)
    ensures !Ok(r')
  {
    hide Tiles, LastIsBehind, Stored;
    var v := ViewOf(r.links, r.zones[i - 1]);
    assert InOrder(v, ls[i - 1], r.zones[i - 1].top);
    ChangedView(r, r', i, z', clipped, i - 1);
    hide InOrder, ViewOf, Pow2;
    if ls' :| RegionOk(r', ls') {
      assert InOrder(ViewOf(r'.links, r'.zones[i - 1]), ls'[i - 1], r'.zones[i - 1].top);
      ClipBreaks(v, ls[i - 1], r.zones[i - 1].top, ls'[i - 1]);
    }
  }

  // ---------- Requests ----------

  /** The first zone, from zone i on, whose counter admits the request. */
  ghost function Serving(zones: seq<Part>, i: nat, n: nat): (s: nat)
    requires i <= |zones|
    ensures i <= s <= |zones| && (s < |zones| ==> zones[s].freePages >= n)
    ensures forall j: nat :: i <= j < s ==> zones[j].freePages < n
    decreases |zones| - i
  {
    if i == |zones| || zones[i].freePages >= n then i else Serving(zones, i + 1, n)
  }

  /** The request makes a zone empty a list while the page before that zone is on an order-0 list, behind its head. */
  ghost predicate Clobbers(r: Region, ls: seq<seq<seq<nat>>>, n: nat)
    requires |ls| == |r.zones| && n > 0
  {
    var s := Serving(r.zones, 0, n);
    s < |r.zones| && Hits(r, ls, s, Empties(ls[s], OrderFor(n)))
  }

  lemma {:induction false} ScanServes(r: Region, i: nat, n: nat)
    requires AllFit(r) && 0 < n <= r.freePages && i <= |r.zones|
    ensures var s := Serving(r.zones, i, n);
            if s == |r.zones| then Scan(r, i, n) == NoMemory
            else
              && Fits(r.links, r.zones[s]) && Scan(r, i, n) == Scan(r, s, n)
              && !AllocBlock(r.links, r.zones[s], n).NoMemory?
    decreases |r.zones| - i
  {
    hide Alloc, ViewOf, OrderFor;
    if i < |r.zones| {
      assert Fits(r.links, r.zones[i]);
      if r.zones[i].freePages < n {
        ScanServes(r, i + 1, n);
      }
    }
  }

  /** How the region counts and lists its pages after zone s gave up block b for a request of n pages. */
  ghost predicate Took(r: Region, ls: seq<seq<seq<nat>>>, r': Region, ls': seq<seq<seq<nat>>>, s: nat, b: Block,
                       n: nat) {
    && s < |r.zones| == |ls| == |r'.zones| == |ls'| && ls' == ls[s := ls'[s]]
    && BlockOk(b, r.zones[s].top) && Pages(b) <= FreePages(ls[s]) && FreePages(ls'[s]) == FreePages(ls[s]) - Pages(b)
    && r'.zones[s].freePages == r.zones[s].freePages - n && r'.freePages == r.freePages - n
    && r'.start == r.start && r'.count == r.count && SamePlaces(r.zones, r'.zones)
    && (forall j: nat :: j < |r.zones| && j != s ==> r'.zones[j].freePages == r.zones[j].freePages)
  }

  /**
   A request of n pages on a region in order. The zone asked is the first whose counter admits it. The kernel stops just
   when that zone has no aligned block of the size free as a whole; otherwise such a block is taken, and the region
   stays in order exactly when the write to the page before the zone does not hit a list.
   */
  lemma ScanKeeps(r: Region, ls: seq<seq<seq<nat>>>, n: nat) returns (ls': seq<seq<seq<nat>>>)
    requires RegionOk(r, ls) && 0 < n <= r.freePages
    ensures var s, out := Serving(r.zones, 0, n), Scan(r, 0, n);
            && !out.WildAccess? && !out.Invalid? && (out.NoMemory? <==> s == |r.zones|)
            && (out.AssertFailed? <==> s < |r.zones| && !HasFreeBlock(FreePages(ls[s]), OrderFor(n), r.zones[s].top))
            && (out.Allocated? ==>
                  var (page, r') := out.value;
                  && s < |r.zones| && page >= r.zones[s].first
                  && Took(r, ls, r', ls', s, Block(page - r.zones[s].first, OrderFor(n)), n)
                  && (if Clobbers(r, ls, n) then !Ok(r') else RegionOk(r', ls')))
  {
    hide Alloc, OrderFor, InOrder, HasFreeBlock, Pages, BlockOk, FreePages, Stored, Empties, Hits, Ok;
    ls' := ls;
    ScanServes(r, 0, n);
    var s := Serving(r.zones, 0, n);
    if s < |r.zones| {
      var p := r.zones[s];
      var z := ViewOf(r.links, p);
      assert InOrder(z, ls[s], p.top);
      var lists' := AllocKeeps(z, ls[s], OrderFor(n), p.top);
      AllocComplete(z, ls[s], OrderFor(n), p.top);
      if Alloc(z, OrderFor(n), p.top).Done? {
        var (b, z') := Alloc(z, OrderFor(n), p.top).value;
        var r' := Scan(r, s, n).value.1;
        var clipped := Empties(ls[s], OrderFor(n));
        ls' := ls[s := lists'];
        assert Changed(r, r', s, z', clipped);
        hide Changed, RegionOk;
        ChangeKeeps(r, ls, r', s, z', clipped, lists');
        if Hits(r, ls, s, clipped) {
          HitBreaks(r, ls, r', s, z', clipped);
        }
      }
    }
  }

  /**
   `alloc_pages` on a region in order: when it is refused, when the kernel stops, which pages it takes, and exactly when
   it leaves the region out of order.
   */
  lemma AllocPagesKeeps(r: Region, ls: seq<seq<seq<nat>>>, n: nat) returns (ls': seq<seq<seq<nat>>>)
    requires RegionOk(r, ls) && n > 0
    ensures var s, out := Serving(r.zones, 0, n), AllocPages(r, n);
            && !out.WildAccess? && (out.Invalid? <==> r.freePages >= n && OrderFor(n) > MAX_ORDER)
            && (out.NoMemory? <==> r.freePages < n || (OrderFor(n) <= MAX_ORDER && s == |r.zones|))
            && (out.AssertFailed? <==>
                  && r.freePages >= n && OrderFor(n) <= MAX_ORDER && s < |r.zones|
                  && !HasFreeBlock(FreePages(ls[s]), OrderFor(n), r.zones[s].top))
            && (out.Allocated? ==>
                  var (page, r') := out.value;
                  && s < |r.zones| && page >= r.zones[s].first
                  && Took(r, ls, r', ls', s, Block(page - r.zones[s].first, OrderFor(n)), n)
                  && (if Clobbers(r, ls, n) then !Ok(r') else RegionOk(r', ls'))
                  && (Exact(r, ls) ==> (Exact(r', ls') <==> n == Pow2(OrderFor(n)))))
  {
    hide Scan, OrderFor, RegionOk, HasFreeBlock, FreePages, Took, Clobbers, Ok, Exact, Pow2;
    ls' := ls;
    if n <= r.freePages {
      FitsIfOk(r, ls);
      ls' := ScanKeeps(r, ls, n);
      var s, out := Serving(r.zones, 0, n), AllocPages(r, n);
      if out.Allocated? && Exact(r, ls) {
        var (page, r') := out.value;
        TookExact(r, ls, r', ls', s, Block(page - r.zones[s].first, OrderFor(n)), n);
      }
    }
  }

  lemma FitsIfOk(r: Region, ls: seq<seq<seq<nat>>>)
    requires RegionOk(r, ls)
    ensures AllFit(r) && |ls| == |r.zones|
  {
  }

  /** How the region counts and lists its pages after zone i got one page back. */
  ghost predicate Gave(r: Region, ls: seq<seq<seq<nat>>>, r': Region, ls': seq<seq<seq<nat>>>, i: nat, page: nat) {
    && i < |r.zones| == |ls| == |r'.zones| == |ls'| && ls' == ls[i := ls'[i]]
    && r.zones[i].first <= page < r.zones[i].End()
    && FreePages(ls'[i]) == FreePages(ls[i]) + {page - r.zones[i].first} && page - r.zones[i].first !in FreePages(ls[i])
    && r'.zones[i].freePages == r.zones[i].freePages + 1 && r'.freePages == r.freePages + 1
    && r'.start == r.start && r'.count == r.count && SamePlaces(r.zones, r'.zones)
    && (forall j: nat :: j < |r.zones| && j != i ==> r'.zones[j].freePages == r.zones[j].freePages)
  }

  /** The zones lie where they lay. */
  ghost predicate SamePlaces(zones: seq<Part>, zones': seq<Part>) {
    |zones'| == |zones|
    && forall j: nat :: j < |zones| ==> zones'[j].first == zones[j].first && zones'[j].top == zones[j].top
  }

  /**
   `free_page` of a page in use, on a region in order: exactly that page becomes free, and the region stays in order.
   */
  lemma FreeKeepsRegion(r: Region, ls: seq<seq<seq<nat>>>, page: nat) returns (ls': seq<seq<seq<nat>>>)
    requires RegionOk(r, ls) && r.start <= page < r.start + r.count
    requires !IsFree(r, ls, page)
    ensures FreePage(r, page).Done? && RegionOk(FreePage(r, page).value, ls')
    ensures Gave(r, ls, FreePage(r, page).value, ls', ZoneOf(r.zones, page), page)
  {
    hide Free, OrderFor, InOrder, Pages, FreePages, Stored, Tiles;
    TilesCover(r.zones, r.start, r.count, page);
    var i := ZoneOf(r.zones, page);
    var p := r.zones[i];
    var z := ViewOf(r.links, p);
    assert InOrder(z, ls[i], p.top);
    OrderForPow2(0);
    OnePage(page - p.first, p.top);
    var lists' := FreeKeeps(z, ls[i], page - p.first, 0, p.top);
    var z' := Free(z, page - p.first, 0, p.top).value;
    var r' := FreePage(r, page).value;
    ls' := ls[i := lists'];
    assert Changed(r, r', i, z', false);
    hide Changed, RegionOk;
    ChangeKeeps(r, ls, r', i, z', false, lists');
  }

  lemma OnePage(x: nat, top: nat)
    requires x < Pow2(top)
    ensures Pow2(0) == 1 && BlockOk(Block(x, 0), top) && Pages(Block(x, 0)) == {x}
  {
    assert forall y: nat :: Block(x, 0).Has(y) <==> y == x;
  }

  // ---------- Counters, and the pages of the machine ----------

  function Sum(s: seq<nat>): nat {
    if s == [] then 0 else Sum(s[..|s| - 1]) + s[|s| - 1]
  }

  lemma {:induction false} SumUpdate(s: seq<nat>, i: nat, v: nat)
    requires i < |s|
    ensures Sum(s[i := v]) + s[i] == Sum(s) + v
  {
    var n := |s| - 1;
    if i == n {
      assert s[i := v][..n] == s[..n];
    } else {
      assert s[i := v][..n] == s[..n][i := v];
      SumUpdate(s[..n], i, v);
    }
  }

  lemma {:induction false} SumPositive(s: seq<nat>)
    ensures Sum(s) > 0 <==> exists i: nat :: i < |s| && s[i] > 0
  {
    if s != [] {
      var n := |s| - 1;
      SumPositive(s[..n]);
      if i: nat :| i < |s| && s[i] > 0 {
        assert i < n ==> s[..n][i] > 0;
      }
      if i: nat :| i < n && s[..n][i] > 0 {
        assert s[i] > 0;
      }
    }
  }

  ghost function Counts(zones: seq<Part>): seq<nat> {
    seq(|zones|, i requires 0 <= i < |zones| => zones[i].freePages)
  }

  /** Every counter is the number of free pages it stands for. */
  ghost predicate Exact(r: Region, ls: seq<seq<seq<nat>>>) {
    && |ls| == |r.zones| && r.freePages == Sum(Counts(r.zones))
    && forall i: nat :: i < |ls| ==> r.zones[i].freePages == |FreePages(ls[i])|
  }

  /** With exact counters, taking a block keeps them exact just when the request was as large as the block. */
  lemma TookExact(r: Region, ls: seq<seq<seq<nat>>>, r': Region, ls': seq<seq<seq<nat>>>, s: nat, b: Block, n: nat)
    requires Exact(r, ls) && Took(r, ls, r', ls', s, b, n) && r.zones[s].freePages >= n
    ensures Exact(r', ls') <==> n == Pow2(b.order)
  {
    hide Pages, FreePages, BlockOk;
    CountRemoved(FreePages(ls[s]), b);
    SumUpdate(Counts(r.zones), s, r'.zones[s].freePages);
    assert Counts(r'.zones) == Counts(r.zones)[s := r'.zones[s].freePages];
  }

  /** Page p of the machine is free. */
  ghost predicate IsFree(r: Region, ls: seq<seq<seq<nat>>>, p: nat)
    requires |ls| == |r.zones|
  {
    var i := ZoneOf(r.zones, p);
    i < |r.zones| && p - r.zones[i].first in FreePages(ls[i])
  }

  predicate Owns(r: Region, p: nat) { r.start <= p < r.start + r.count }

  lemma ZoneOfIs(r: Region, i: nat, p: nat)
    requires Tiles(r.zones, r.start, r.count) && i < |r.zones| && r.zones[i].first <= p < r.zones[i].End()
    ensures ZoneOf(r.zones, p) == i && Owns(r, p)
  {
    var j := ZoneOf(r.zones, p);
    if j < i {
      TilesOrder(r.zones, r.start, r.count, j, i);
    }
    if 0 < i {
      TilesOrder(r.zones, r.start, r.count, 0, i);
    }
    if i < |r.zones| - 1 {
      TilesOrder(r.zones, r.start, r.count, i, |r.zones| - 1);
    }
  }

  lemma SameZoneOf(zones: seq<Part>, zones': seq<Part>, p: nat)
    requires SamePlaces(zones, zones')
    ensures ZoneOf(zones', p) == ZoneOf(zones, p)
  {
    var i, i' := ZoneOf(zones, p), ZoneOf(zones', p);
    assert i < i' ==> zones'[i].End() == zones[i].End();
    assert i' < i ==> zones'[i'].End() == zones[i'].End();
  }

  /** Exactly the pages of the block stopped being free, in the whole machine. */
  lemma TookFree(r: Region, ls: seq<seq<seq<nat>>>, r': Region, ls': seq<seq<seq<nat>>>, s: nat, b: Block, n: nat,
                 p: nat)
    requires Tiles(r.zones, r.start, r.count) && Took(r, ls, r', ls', s, b, n)
    ensures var first := r.zones[s].first + b.start;
            && (first <= p < first + Pow2(b.order) ==> IsFree(r, ls, p) && Owns(r, p))
            && (IsFree(r', ls', p) <==> IsFree(r, ls, p) && !(first <= p < first + Pow2(b.order)))
  {
    TookSets(r, ls, r', ls', s, b, n);
    var q := r.zones[s];
    if q.first <= p < q.End() {
      ZoneOfIs(r, s, p);
      TookInside(r, ls, r', ls', s, b, p);
    } else {
      TookOutside(r, ls, r', ls', s, p);
    }
  }

  lemma TookInside(r: Region, ls: seq<seq<seq<nat>>>, r': Region, ls': seq<seq<seq<nat>>>, s: nat, b: Block, p: nat)
    requires |ls| == |r.zones| == |ls'| && SamePlaces(r.zones, r'.zones) && ZoneOf(r.zones, p) == s < |r.zones|
    requires Pages(b) <= FreePages(ls[s]) && FreePages(ls'[s]) == FreePages(ls[s]) - Pages(b)
    ensures var inside := r.zones[s].first + b.start <= p < r.zones[s].first + b.start + Pow2(b.order);
            (inside ==> IsFree(r, ls, p)) && (IsFree(r', ls', p) <==> IsFree(r, ls, p) && !inside)
  {
    hide FreePages, Pages;
    SameZoneOf(r.zones, r'.zones, p);
    InPages(b, p - r.zones[s].first);
  }

  lemma TookOutside(r: Region, ls: seq<seq<seq<nat>>>, r': Region, ls': seq<seq<seq<nat>>>, s: nat, p: nat)
    requires s < |ls| == |r.zones| == |ls'| && SamePlaces(r.zones, r'.zones)
    requires !(r.zones[s].first <= p < r.zones[s].End()) && forall j: nat :: j < |ls| && j != s ==> ls'[j] == ls[j]
    ensures IsFree(r', ls', p) <==> IsFree(r, ls, p)
  {
    hide FreePages, Pow2;
    SameZoneOf(r.zones, r'.zones, p);
  }

  lemma InPages(b: Block, x: nat)
    ensures x in Pages(b) <==> b.start <= x < b.start + Pow2(b.order)
  {
    assert x in Pages(b) <==> b.Has(x);
  }

  lemma TookSets(r: Region, ls: seq<seq<seq<nat>>>, r': Region, ls': seq<seq<seq<nat>>>, s: nat, b: Block, n: nat)
    requires Took(r, ls, r', ls', s, b, n)
    ensures s < |r.zones| == |ls| == |r'.zones| == |ls'| && SamePlaces(r.zones, r'.zones)
    ensures Pages(b) <= FreePages(ls[s]) && FreePages(ls'[s]) == FreePages(ls[s]) - Pages(b)
    ensures forall j: nat :: j < |ls| && j != s ==> ls'[j] == ls[j]
    ensures r.zones[s].first + b.start + Pow2(b.order) <= r.zones[s].End()
  {
  }

  /** With exact counters, no page is free when the counter of the region is 0. */
  lemma NothingFree(r: Region, ls: seq<seq<seq<nat>>>, p: nat)
    requires Exact(r, ls) && r.freePages == 0
    ensures !IsFree(r, ls, p)
  {
    hide FreePages;
    SumPositive(Counts(r.zones));
    var i := ZoneOf(r.zones, p);
    assert i < |r.zones| ==> Counts(r.zones)[i] == |FreePages(ls[i])|;
  }

  // ---------- Requests of one page ----------

  /** With exact counters a one-page request asks a zone only when the zones before it have no free page left. */
  lemma OnePageIsSafe(r: Region, ls: seq<seq<seq<nat>>>)
    requires RegionOk(r, ls) && Exact(r, ls)
    ensures !Clobbers(r, ls, 1)
  {
    var s := Serving(r.zones, 0, 1);
    if 0 < s < |r.zones| {
      assert r.zones[s - 1].freePages == |FreePages(ls[s - 1])|;
      assert InOrder(ViewOf(r.links, r.zones[s - 1]), ls[s - 1], r.zones[s - 1].top);
      EmptyLists(ls[s - 1]);
    }
  }

  lemma PositiveHasPage(zones: seq<Part>)
    ensures Sum(Counts(zones)) > 0 <==> Serving(zones, 0, 1) < |zones|
  {
    SumPositive(Counts(zones));
    var s := Serving(zones, 0, 1);
    if s < |zones| {
      assert Counts(zones)[s] > 0;
    }
    if i: nat :| i < |Counts(zones)| && Counts(zones)[i] > 0 {
      assert zones[i].freePages >= 1;
    }
  }

  lemma OneFreePage(z: Zone, lists: seq<seq<nat>>, top: nat)
    requires InOrder(z, lists, top) && FreePages(lists) != {}
    ensures HasFreeBlock(FreePages(lists), 0, top)
  {
    var x :| x in FreePages(lists);
    FreeInZone(Listed(lists), Bits(z), top);
    OnePage(x, top);
    assert Pages(Block(x, 0)) <= FreePages(lists);
  }

  /** `alloc_page` on a region in order with exact counters: some free page while the counter is positive. */
  lemma TakeOne(r: Region, ls: seq<seq<seq<nat>>>) returns (ls': seq<seq<seq<nat>>>)
    requires RegionOk(r, ls) && Exact(r, ls)
    ensures r.freePages == 0 ==> AllocPage(r) == NoMemory && forall p: nat :: !IsFree(r, ls, p)
    ensures r.freePages > 0 ==> AllocPage(r).Allocated?
    ensures AllocPage(r).Allocated? ==>
              var (page, r') := AllocPage(r).value;
              && RegionOk(r', ls') && Exact(r', ls') && r'.start == r.start && r'.count == r.count
              && SamePlaces(r.zones, r'.zones) && r'.freePages == r.freePages - 1 && IsFree(r, ls, page)
              && Owns(r, page)
              && forall p: nat :: IsFree(r', ls', p) <==> IsFree(r, ls, p) && p != page
  {
    hide Scan, InOrder, FreePages, HasFreeBlock, Clobbers, Sum, IsFree, OrderFor;
    ls' := ls;
    if r.freePages == 0 {
      forall p: nat ensures !IsFree(r, ls, p) {
        NothingFree(r, ls, p);
      }
    } else {
      PositiveHasPage(r.zones);
      OrderForPow2(0);
      assert Pow2(0) == 1;
      var s := Serving(r.zones, 0, 1);
      assert InOrder(ViewOf(r.links, r.zones[s]), ls[s], r.zones[s].top) && |FreePages(ls[s])| > 0;
      OneFreePage(ViewOf(r.links, r.zones[s]), ls[s], r.zones[s].top);
      ls' := ScanKeeps(r, ls, 1);
      OnePageIsSafe(r, ls);
      var (page, r') := AllocPage(r).value;
      var b := Block(page - r.zones[s].first, 0);
      TookExact(r, ls, r', ls', s, b, 1);
      forall p: nat
        ensures IsFree(r', ls', p) <==> IsFree(r, ls, p) && p != page
        ensures p == page ==> IsFree(r, ls, p) && Owns(r, p)
      {
        TookFree(r, ls, r', ls', s, b, 1, p);
      }
    }
  }

  /** `free_page` of a page in use, on a region in order with exact counters. */
  lemma GiveOne(r: Region, ls: seq<seq<seq<nat>>>, page: nat) returns (ls': seq<seq<seq<nat>>>)
    requires RegionOk(r, ls) && Owns(r, page) && !IsFree(r, ls, page)
    ensures FreePage(r, page).Done?
    ensures var r' := FreePage(r, page).value;
            && RegionOk(r', ls') && (Exact(r, ls) ==> Exact(r', ls')) && r'.start == r.start && r'.count == r.count
            && SamePlaces(r.zones, r'.zones) && r'.freePages == r.freePages + 1
            && forall p: nat :: IsFree(r', ls', p) <==> IsFree(r, ls, p) || p == page
  {
    ls' := FreeKeepsRegion(r, ls, page);
    hide FreePage, FreePages, InOrder, Tiles, Gave, IsFree, Exact;
    var r' := FreePage(r, page).value;
    GaveFacts(r, ls, r', ls', ZoneOf(r.zones, page), page);
    forall p: nat ensures IsFree(r', ls', p) <==> IsFree(r, ls, p) || p == page {
      GaveFree(r, ls, r', ls', ZoneOf(r.zones, page), page, p);
    }
  }

  lemma GaveFacts(r: Region, ls: seq<seq<seq<nat>>>, r': Region, ls': seq<seq<seq<nat>>>, i: nat, page: nat)
    requires Gave(r, ls, r', ls', i, page)
    ensures r'.start == r.start && r'.count == r.count && SamePlaces(r.zones, r'.zones)
            && r'.freePages == r.freePages + 1
    ensures |ls'| == |r'.zones| && (Exact(r, ls) ==> Exact(r', ls'))
  {
    hide FreePages, Sum, Part.End;
    SumUpdate(Counts(r.zones), i, r'.zones[i].freePages);
    assert Counts(r'.zones) == Counts(r.zones)[i := r'.zones[i].freePages];
  }

  lemma GaveFree(r: Region, ls: seq<seq<seq<nat>>>, r': Region, ls': seq<seq<seq<nat>>>, i: nat, page: nat, p: nat)
    requires Gave(r, ls, r', ls', i, page) && i == ZoneOf(r.zones, page)
    ensures |ls'| == |r'.zones| && (IsFree(r', ls', p) <==> IsFree(r, ls, p) || p == page)
  {
    hide FreePages, Pow2;
    SameZoneOf(r.zones, r'.zones, p);
    var j := ZoneOf(r.zones, p);
    if j != i {
      assert j < |ls| ==> ls'[j] == ls[j];
      assert p != page;
    } else {
      assert p - r.zones[i].first == page - r.zones[i].first <==> p == page;
    }
  }

  // ---------- New regions, and regions with all pages back ----------

  /** Every zone is one block of its top order. */
  ghost predicate AllWhole(r: Region, ls: seq<seq<seq<nat>>>) {
    |ls| == |r.zones| && forall i: nat :: i < |ls| ==> ls[i] == NewLists(r.zones[i].top)
  }

  lemma WholeWhenAllFree(r: Region, ls: seq<seq<seq<nat>>>)
    requires RegionOk(r, ls) && forall p: nat :: Owns(r, p) ==> IsFree(r, ls, p)
    ensures AllWhole(r, ls)
  {
    hide Tiles;
    forall i: nat | i < |ls| ensures ls[i] == NewLists(r.zones[i].top) {
      WholeZone(r, ls, i);
    }
  }

  lemma WholeZone(r: Region, ls: seq<seq<seq<nat>>>, i: nat)
    requires RegionOk(r, ls) && i < |ls| && forall p: nat :: Owns(r, p) ==> IsFree(r, ls, p)
    ensures ls[i] == NewLists(r.zones[i].top)
  {
    hide Pages, FreePages, IsFree, Tiles;
    var q := r.zones[i];
    var z := ViewOf(r.links, q);
    assert InOrder(z, ls[i], q.top);
    hide InOrder, ViewOf;
    forall x: nat ensures x in FreePages(ls[i]) <==> x in Pages(Block(0, q.top)) {
      WholeAt(r, ls, i, x);
    }
    Coalesced(z, ls[i], q.top);
  }

  lemma WholeAt(r: Region, ls: seq<seq<seq<nat>>>, i: nat, x: nat)
    requires RegionOk(r, ls) && i < |ls| && forall p: nat :: Owns(r, p) ==> IsFree(r, ls, p)
    ensures x in FreePages(ls[i]) <==> x in Pages(Block(0, r.zones[i].top))
  {
    hide Tiles, FreePages;
    var q := r.zones[i];
    assert x in Pages(Block(0, q.top)) <==> Block(0, q.top).Has(x);
    if x < Pow2(q.top) {
      ZoneOfIs(r, i, q.first + x);
      assert IsFree(r, ls, q.first + x);
    }
    if x in FreePages(ls[i]) {
      InOrderBounds(r, ls, i, x);
    }
  }

  lemma InOrderBounds(r: Region, ls: seq<seq<seq<nat>>>, i: nat, x: nat)
    requires RegionOk(r, ls) && i < |r.zones| && x in FreePages(ls[i])
    ensures x < Pow2(r.zones[i].top)
  {
    var z := ViewOf(r.links, r.zones[i]);
    assert InOrder(z, ls[i], r.zones[i].top);
    FreeInZone(Listed(ls[i]), Bits(z), r.zones[i].top);
  }

  /** A zone as its constructor leaves it. */
  ghost predicate NewPart(p: Part) {
    p.top <= MAX_ORDER && p.orders == NewOrders(p.top, MAX_ORDER + 1) && p.freePages == Pow2(p.top)
  }

  /** A region as its constructor leaves it. */
  ghost predicate Built(r: Region) {
    && AllFit(r) && Tiles(r.zones, r.start, r.count) && r.freePages == r.count
    && forall i: nat :: i < |r.zones| ==> NewPart(r.zones[i])
  }

  /** The same with the links of the zones' first pages set. */
  ghost predicate Ready(r: Region) {
    Built(r) && forall i: nat :: i < |r.zones| ==> r.links[r.zones[i].first + 1] == Link(-1, -1)
  }

  lemma {:induction false} TilesSum(zones: seq<Part>, start: nat, count: nat)
    requires Tiles(zones, start, count) && forall i: nat :: i < |zones| ==> zones[i].freePages == Pow2(zones[i].top)
    ensures Sum(Counts(zones)) == count
    decreases |zones|
  {
    if zones != [] {
      var n := |zones| - 1;
      var rest := zones[n].first - start;
      assert Counts(zones)[..n] == Counts(zones[..n]);
      assert n > 0 ==> zones[n].first == zones[n - 1].End();
      if n > 0 {
        TilesOrder(zones, start, count, 0, n);
      }
      TilesSum(zones[..n], start, rest);
    }
  }

  /** A region that is set up is in order, with exact counters and every page free. */
  lemma ReadyKeeps(r: Region) returns (ls: seq<seq<seq<nat>>>)
    requires Ready(r)
    ensures RegionOk(r, ls) && Exact(r, ls) && AllWhole(r, ls)
    ensures forall p: nat :: IsFree(r, ls, p) <==> Owns(r, p)
  {
    hide InOrder, FreePages, NewLists, NewOrders, Tiles, Sum, IsFree;
    ls := seq(|r.zones|, i requires 0 <= i < |r.zones| => NewLists(r.zones[i].top));
    forall i: nat | i < |r.zones|
      ensures InOrder(ViewOf(r.links, r.zones[i]), ls[i], r.zones[i].top)
      ensures FreePages(ls[i]) == Pages(Block(0, r.zones[i].top)) && r.zones[i].freePages == |FreePages(ls[i])|
    {
      var q := r.zones[i];
      assert Fits(r.links, q) && NewPart(q);
      assert ViewOf(r.links, q).links[1] == r.links[q.first + 1];
      NewKeeps(ViewOf(r.links, q), q.top);
      CountPages(Block(0, q.top));
    }
    TilesSum(r.zones, r.start, r.count);
    forall p: nat ensures IsFree(r, ls, p) <==> Owns(r, p) {
      NewIsFree(r, ls, p);
    }
  }

  lemma NewIsFree(r: Region, ls: seq<seq<seq<nat>>>, p: nat)
    requires RegionOk(r, ls) && forall i: nat :: i < |r.zones| ==> FreePages(ls[i]) == Pages(Block(0, r.zones[i].top))
    ensures IsFree(r, ls, p) <==> Owns(r, p)
  {
    hide FreePages, Tiles, InOrder;
    var i := ZoneOf(r.zones, p);
    if Owns(r, p) {
      TilesCover(r.zones, r.start, r.count, p);
      assert Block(0, r.zones[i].top).Has(p - r.zones[i].first);
    } else if i < |r.zones| {
      ZoneOfIs(r, i, p);
    }
  }
}
