/**
 Which regions lose pages for good. A page is lost when the allocator set its reserved flag while it was in use: its
 last reference then does not free it (`kernel/memory/PhysicalPage.cpp`). This never happens in a region of one zone,
 and it happens in every region of several zones, on nothing but requests for one page.
 */
module PageLeaks {
  import opened Powers
  import opened BuddyModel
  import opened RegionSteps
  import opened LinkWrites
  import opened PhysicalPages
  import opened CowSteps
  import opened PageRun
  import CowState
  import Regions = PhysicalRegion

  /** The pages of a region, all of them free, in use, or lost. */
  ghost predicate Whole(m: Memory, start: nat, count: nat) {
    && (forall p: nat :: start <= p < start + count <==> p in m.free || p in m.refs || p in m.reserved)
    && m.free !! m.refs.Keys && m.free !! m.reserved && m.reserved <= m.edges
    && (forall p :: p in m.refs ==> m.refs[p] > 0)
  }

  lemma StepWhole(places: seq<Place>, m: Memory, op: PageOp, out: PageOut, m': Memory, start: nat, count: nat)
    requires PageStep(places, m, op, out, m') && Whole(m, start, count)
    ensures Whole(m', start, count) && m'.edges == m.edges && m.Leaked() <= m'.Leaked()
  {
    hide Touched, FirstWith;
  }

  /** Over any run pages are free, in use or lost, and what is lost stays lost. */
  lemma {:induction false} RunWhole(places: seq<Place>, ms: seq<Memory>, ops: seq<PageOp>, outs: seq<PageOut>,
                                    start: nat, count: nat, i: nat, k: nat)
    requires Runs(places, ms, ops, outs) && Untouched(ms[0], places, start, count) && i <= k < |ms|
    ensures Whole(ms[i], start, count) && Whole(ms[k], start, count)
    ensures ms[k].edges == ms[0].edges && ms[i].Leaked() <= ms[k].Leaked()
    decreases k
  {
    hide PageStep, Whole;
    if k == 0 {
      FreshIsWhole(ms[0], places, start, count);
    } else if i < k {
      RunWhole(places, ms, ops, outs, start, count, i, k - 1);
      StepWhole(places, ms[k - 1], ops[k - 1], outs[k - 1], ms[k], start, count);
    } else {
      RunWhole(places, ms, ops, outs, start, count, k - 1, k - 1);
      StepWhole(places, ms[k - 1], ops[k - 1], outs[k - 1], ms[k], start, count);
    }
  }

  lemma FreshIsWhole(m: Memory, places: seq<Place>, start: nat, count: nat)
    requires Untouched(m, places, start, count)
    ensures Whole(m, start, count)
  {
  }

  /** In a region of at most one zone a page is free exactly when nobody holds it, over any run. */
  lemma OneZoneNeverLeaks(places: seq<Place>, ms: seq<Memory>, ops: seq<PageOp>, outs: seq<PageOut>, start: nat,
                          count: nat, k: nat, p: nat)
    requires Runs(places, ms, ops, outs) && Untouched(ms[0], places, start, count) && k < |ms|
    requires |places| <= 1 && start <= p < start + count
    ensures ms[k].Leaked() == {} && (p in ms[k].free <==> p !in ms[k].refs)
  {
    RunWhole(places, ms, ops, outs, start, count, k, k);
    assert ms[k].edges == {};
  }

  // ---------- Several zones ----------

  /** Zones one after the other from `start` on. */
  ghost predicate Laid(places: seq<Place>, start: nat, count: nat) {
    && |places| > 1 && places[0].first == start && places[1].first == start + Pow2(places[0].top)
    && places[1].first + Pow2(places[1].top) <= start + count
    && (forall i: nat :: 0 < i < |places| ==> places[i].first > start)
  }

  ghost function PagesOf(q: Place): set<nat> {
    set p: nat | p < q.first + Pow2(q.top) && q.Has(p)
  }

  lemma PagesOfSize(q: Place)
    ensures |PagesOf(q)| == Pow2(q.top)
  {
    CountPages(Block(q.first, q.top));
    assert PagesOf(q) == Pages(Block(q.first, q.top));
  }

  /** k pages of the first zone are in use, and no others. */
  ghost predicate TookFirst(m: Memory, places: seq<Place>, start: nat, count: nat, k: nat)
    requires places != []
  {
    && m.refs.Keys <= PagesOf(places[0]) && |m.refs.Keys| == k && (forall p :: p in m.refs ==> m.refs[p] == 1)
    && m.reserved == {}
    && (forall p: nat :: p in m.free <==> start <= p < start + count && p !in m.refs)
    && (forall p: nat :: p in m.edges <==> EdgeOf(places, p))
  }

  lemma Smaller(a: set<nat>, b: set<nat>)
    requires a <= b
    ensures |a| <= |b| && (|a| == |b| ==> a == b)
  {
    assert b == a + (b - a);
  }

  lemma TakeFromFirst(places: seq<Place>, m: Memory, out: PageOut, m': Memory, start: nat, count: nat, k: nat)
    requires Laid(places, start, count) && start > 0 && k < Pow2(places[0].top)
    requires TookFirst(m, places, start, count, k) && PageStep(places, m, Take, out, m')
    ensures TookFirst(m', places, start, count, k + 1)
  {
    hide TakesSole, Pow2;
    PagesOfSize(places[0]);
    if PagesOf(places[0]) <= m.refs.Keys {
      Smaller(PagesOf(places[0]), m.refs.Keys);
    }
    var p :| p in PagesOf(places[0]) && p !in m.refs.Keys;
    assert p in m.free && places[0].Has(p);
    assert HasFree(places[0], m.free);
    assert FirstWith(places, m.free, 0) == 0 && Touched(places, m.free) == 0;
    assert m' == Handed(m, out.page);
    assert m'.refs.Keys == m.refs.Keys + {out.page};
  }

  /** All pages of a zone are free: they are one block. */
  lemma WholeIsSole(top: nat)
    ensures TakesSole(Pages(Block(0, top)), 0, top)
  {
    var all, b := Pages(Block(0, top)), Block(0, top);
    ZeroAligned(top);
    assert Maximal(all, b, top);
    forall c ensures Maximal(all, c, top) ==> c == b {
      OnlyWhole(c, top);
    }
    assert Sole(all, 0, top, b);
  }

  lemma OnlyWhole(c: Block, top: nat)
    ensures Maximal(Pages(Block(0, top)), c, top) ==> c == Block(0, top)
  {
    if BlockOk(c, top) && c.order < top {
      ParentHas(c, top);
      WithinZone(Parent(c), top);
    }
  }

  lemma WithinZone(c: Block, top: nat)
    requires BlockOk(c, top)
    ensures Pages(c) <= Pages(Block(0, top))
  {
    forall x | x in Pages(c) ensures x in Pages(Block(0, top)) {
      InPages(c, x);
      InPages(Block(0, top), x);
    }
  }

  /** With the first zone taken, the next request sets the flag of its last page. */
  lemma TakeFromSecond(places: seq<Place>, m: Memory, out: PageOut, m': Memory, start: nat, count: nat)
    requires Laid(places, start, count) && start > 0
    requires TookFirst(m, places, start, count, Pow2(places[0].top)) && PageStep(places, m, Take, out, m')
    ensures var edge := places[1].first - 1;
            edge in m'.refs && m'.refs[edge] == 1 && edge in m'.reserved
  {
    var q, edge := places[1], places[1].first - 1;
    PagesOfSize(places[0]);
    Smaller(m.refs.Keys, PagesOf(places[0]));
    assert forall p :: p in m.free ==> !places[0].Has(p);
    assert q.first in m.free && q.Has(q.first) by {
      assert q.first !in PagesOf(places[0]);
    }
    assert FirstWith(places, m.free, 0) == FirstWith(places, m.free, 1) == 1;
    assert Local(q, m.free) == Pages(Block(0, q.top)) by {
      SecondIsFree(places, m, start, count);
    }
    WholeIsSole(q.top);
    assert Touched(places, m.free) == edge;
    assert EdgeOf(places, edge) && edge in PagesOf(places[0]);
  }

  lemma SecondIsFree(places: seq<Place>, m: Memory, start: nat, count: nat)
    requires Laid(places, start, count) && TookFirst(m, places, start, count, Pow2(places[0].top))
    ensures Local(places[1], m.free) == Pages(Block(0, places[1].top))
  {
    var q := places[1];
    forall x: nat ensures x in Local(q, m.free) <==> x in Pages(Block(0, q.top)) {
      InPages(Block(0, q.top), x);
      var p := q.first + x;
      assert p !in PagesOf(places[0]);
      assert q.Has(p) <==> x < Pow2(q.top);
      if x < Pow2(q.top) {
        assert p in m.free && q.Has(p);
      }
    }
  }

  function Takes(n: nat): seq<PageOp> { seq(n, _ => Take) }

  lemma {:induction false} TakesFirst(places: seq<Place>, ms: seq<Memory>, ops: seq<PageOp>, outs: seq<PageOut>,
                                      start: nat, count: nat, k: nat)
    requires Runs(places, ms, ops, outs) && Untouched(ms[0], places, start, count) && Laid(places, start, count)
    requires start > 0 && k <= Pow2(places[0].top) && k < |ms| && forall i: nat :: i < k ==> ops[i] == Take
    ensures TookFirst(ms[k], places, start, count, k)
    decreases k
  {
    hide PageStep, Laid, Pow2;
    if k > 0 {
      TakesFirst(places, ms, ops, outs, start, count, k - 1);
      hide TookFirst, Untouched;
      assert PageStep(places, ms[k - 1], ops[k - 1], outs[k - 1], ms[k]);
      TakeFromFirst(places, ms[k - 1], outs[k - 1], ms[k], start, count, k - 1);
    }
  }

  /**
   In every region of several zones: take the pages of the first zone and one more, and drop the last page of the first
   zone. Nobody holds that page any more, and it will never be free again.
   */
  lemma SeveralZonesLeak(places: seq<Place>, ms: seq<Memory>, outs: seq<PageOut>, start: nat, count: nat)
    requires Laid(places, start, count) && start > 0
    requires Runs(places, ms, Takes(Pow2(places[0].top) + 1) + [Unref(places[1].first - 1)], outs)
    requires Untouched(ms[0], places, start, count)
    ensures var n := Pow2(places[0].top);
            |ms| == n + 3 && outs[n + 1] == Leaked && places[1].first - 1 in ms[n + 2].Leaked()
  {
    var n, edge := Pow2(places[0].top), places[1].first - 1;
    var ops := Takes(n + 1) + [Unref(edge)];
    assert forall i: nat :: i <= n ==> ops[i] == Take;
    assert ops[n + 1] == Unref(edge);
    TakesFirst(places, ms, ops, outs, start, count, n);
    assert PageStep(places, ms[n], ops[n], outs[n], ms[n + 1]);
    assert PageStep(places, ms[n + 1], ops[n + 1], outs[n + 1], ms[n + 2]);
    hide TookFirst, Untouched, Laid, Touched, FirstWith;
    TakeFromSecond(places, ms[n], outs[n], ms[n + 1], start, count);
  }

  lemma LaidIs(r: Region)
    requires Tiles(r.zones, r.start, r.count) && |r.zones| > 1
    ensures Laid(Places(r.zones), r.start, r.count)
  {
    var zones := r.zones;
    assert zones[1].first == zones[0].End();
    if |zones| > 2 {
      TilesOrder(zones, r.start, r.count, 1, |zones| - 1);
    }
    forall i: nat | 0 < i < |zones| ensures zones[i].first > r.start {
      TilesOrder(zones, r.start, r.count, 0, i);
    }
  }

  /** Only `ref` can stop the kernel. */
  lemma NoHalt(places: seq<Place>, ms: seq<Memory>, ops: seq<PageOp>, outs: seq<PageOut>)
    requires |outs| <= |ops| && Runs(places, ms, ops[..|outs|], outs) && forall i: nat :: i < |ops| ==> !ops[i].Ref?
    ensures forall i: nat :: i < |outs| ==> !outs[i].Halted?
  {
    forall i: nat | i < |outs| ensures !outs[i].Halted? {
      assert PageStep(places, ms[i], ops[..|outs|][i], outs[i], ms[i + 1]);
    }
  }

  /** The same of the code: a region with several zones that was set up, and a page lost in it for good. */
  method LosePage(region: Regions.PhysicalRegion, ghost frames: map<nat, CowState.Page>)
    returns (page: nat, ghost ls: seq<seq<seq<nat>>>)
    requires region.Shape() && !region.reserved && Ready(region.State()) && |region.zones| > 1
    requires 0 < region.startPage && region.startPage + region.numPages < region.links.Length
    modifies region`freePages, Regions.Objects(region.zones), region.links
    ensures LostIn(region.State(), ls, frames, page)
  {
    hide *;
    FirstTwoZones(region);
    ghost var places := Places(region.State().zones);
    page := region.zones[1].firstPage - 1;
    var ops := LosingRun(region.zones[0].numPages, page);
    var outs;
    ghost var ms;
    outs, ms, ls := Run(region, ops, frames);
    LostAtEnd(places, ms, ops, outs, region.startPage, region.numPages);
    LostNow(region.State(), ls, frames, page, ms[|outs|]);
  }

  /** Page p of the region is neither free nor held by anybody. */
  ghost predicate LostIn(r: Region, ls: seq<seq<seq<nat>>>, frames: map<nat, CowState.Page>, p: nat) {
    && PagesOk(r, ls) && Owns(r, p)
    && var m := MemoryOf(r, ls, frames); p !in m.refs && p !in m.free && p in m.reserved
  }

  lemma LostNow(r: Region, ls: seq<seq<seq<nat>>>, frames: map<nat, CowState.Page>, p: nat, m: Memory)
    requires PagesOk(r, ls) && m == MemoryOf(r, ls, frames) && p !in m.refs && p !in m.free && p in m.reserved
    ensures LostIn(r, ls, frames, p)
  {
    hide IsFree, RegionOk, Exact, Count, Flag;
  }

  function LosingRun(n: nat, page: nat): seq<PageOp> { Takes(n + 1) + [Unref(page)] }

  lemma FirstTwoZones(region: Regions.PhysicalRegion)
    requires region.Shape() && Ready(region.State()) && |region.zones| > 1
    ensures region.zones[1].firstPage > 0
    ensures var places := Places(region.State().zones);
            && Laid(places, region.startPage, region.numPages) && |places| > 1
            && Pow2(places[0].top) == region.zones[0].numPages && places[1].first == region.zones[1].firstPage
            && region.startPage < region.zones[1].firstPage <= region.startPage + region.numPages
  {
    hide Tiles, NewPart, Pow2;
    LaidIs(region.State());
  }

  lemma LostAtEnd(places: seq<Place>, ms: seq<Memory>, ops: seq<PageOp>, outs: seq<PageOut>, start: nat, count: nat)
    requires Laid(places, start, count) && |places| > 1 && start > 0 && places[1].first > 0
    requires ops == LosingRun(Pow2(places[0].top), places[1].first - 1) && |outs| <= |ops|
    requires |outs| < |ops| ==> outs != [] && outs[|outs| - 1].Halted?
    requires Runs(places, ms, ops[..|outs|], outs) && Untouched(ms[0], places, start, count)
    ensures |outs| < |ms|
    ensures var m, page := ms[|outs|], places[1].first - 1; page !in m.refs && page !in m.free && page in m.reserved
  {
    hide Laid, Untouched, PageStep, Pow2;
    NoHalt(places, ms, ops, outs);
    assert ops[..|ops|] == ops;
    SeveralZonesLeak(places, ms, outs, start, count);
    RunWhole(places, ms, ops, outs, start, count, 0, |ops|);
  }
}
