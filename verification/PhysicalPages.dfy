/**
 Physical pages with their reference counts (`kernel/memory/PhysicalPage.h`) over a region. The count and the reserved
 flag of a page in use lie where a free page has its links, so everything is in the table of links.
 */
module PhysicalPages {
  import opened Powers
  import opened BuddyModel
  import opened FreeLists
  import opened BuddySteps
  import opened RegionSteps
  import opened LinkWrites
  import CowState
  import CowSteps

  /** `ref_count`: the 16 bits of the forward link. */
  function Count(link: Link): nat { link.next % 0x10000 }

  /** `reserved`: set unless the low byte of the back link is 0. */
  predicate Flag(link: Link) { link.prev % 0x100 != 0 }

  /** The count becomes 1 and the flag is cleared. */
  function HandedOut(link: Link): Link { Link(1, link.prev - link.prev % 0x100) }

  lemma HandedOutIs(link: Link)
    ensures Count(HandedOut(link)) == 1 && !Flag(HandedOut(link))
  {
  }

  /** A cleared back link sets the flag and keeps the count. */
  lemma ClippedIs(link: Link, clipped: bool)
    ensures Count(Clipped(link, clipped)) == Count(link) && (Flag(Clipped(link, clipped)) <==> clipped || Flag(link))
  {
  }

  /** `alloc_physical_page`, for one region. */
  function AllocPhysicalPage(r: Region): Answer<(nat, Region)>
    requires AllFit(r)
  {
    match AllocPage(r)
    case Allocated((page, r')) =>
      if page + 1 >= |r'.links| then WildAccess
      else Allocated((page, WithLink(r', page, HandedOut(r'.links[page + 1]))))
    case other => other
  }

  /** `ref`; the kernel stops when the count would pass 16 bits. */
  function RefPage(r: Region, p: nat): Outcome<Region>
    requires p + 1 < |r.links|
  {
    var link := r.links[p + 1];
    if Count(link) == 0xFFFF then Stopped else Done(WithLink(r, p, link.(next := Count(link) + 1)))
  }

  /** `unref` with `release`: the last reference frees the page unless its flag is set. */
  function UnrefPage(r: Region, p: nat): Outcome<Region>
    requires AllFit(r) && p + 1 < |r.links|
  {
    var link := r.links[p + 1];
    if Count(link) == 0 then Stopped
    else
      var r1 := WithLink(r, p, link.(next := Count(link) - 1));
      if Count(link) > 1 || Flag(link) then Done(r1)
      else
        assert forall i: nat :: i < |r1.zones| ==> Fits(r.links, r1.zones[i]);
        FreePage(r1, p)
  }

  // ---------- What the table says about the pages ----------

  /** Page p is handed out: the region owns it and does not list it. */
  ghost predicate IsUsed(r: Region, ls: seq<seq<seq<nat>>>, p: nat)
    requires |ls| == |r.zones|
  {
    Owns(r, p) && !IsFree(r, ls, p) && p + 1 < |r.links|
  }

  /** Page p lies right before a zone other than the first. */
  ghost predicate IsEdge(zones: seq<Part>, p: nat) {
    exists i: nat :: 0 < i < |zones| && zones[i].first == p + 1
  }

  /** The region is in order with exact counters; a page in use has a count or a flag, and only an edge has a flag. */
  ghost predicate PagesOk(r: Region, ls: seq<seq<seq<nat>>>) {
    && RegionOk(r, ls) && Exact(r, ls) && r.start > 0 && r.start + r.count < |r.links|
    && forall p: nat :: IsUsed(r, ls, p) ==> PageOk(r, p)
  }

  ghost predicate PageOk(r: Region, p: nat)
    requires p + 1 < |r.links|
  {
    (Count(r.links[p + 1]) > 0 || Flag(r.links[p + 1])) && (Flag(r.links[p + 1]) ==> IsEdge(r.zones, p))
  }

  /** The physical memory that the table describes. */
  ghost function MemoryOf(r: Region, ls: seq<seq<seq<nat>>>, frames: map<nat, CowState.Page>): CowState.Memory
    requires |ls| == |r.zones|
  {
    var end := r.start + r.count;
    CowState.Memory(
      map p: nat | p < end && IsUsed(r, ls, p) && Count(r.links[p + 1]) > 0 :: Count(r.links[p + 1]),
      frames,
      set p: nat | p < end && Owns(r, p) && IsFree(r, ls, p),
      set p: nat | p < end && IsUsed(r, ls, p) && Flag(r.links[p + 1]),
      set p: nat | p < end && IsEdge(r.zones, p))
  }

  /** Page p stands in m as it does in m'. */
  ghost predicate SameAt(m: CowState.Memory, m': CowState.Memory, p: nat) {
    && (p in m.refs <==> p in m'.refs) && (p in m.refs ==> m.refs[p] == m'.refs[p]) && (p in m.free <==> p in m'.free)
    && (p in m.reserved <==> p in m'.reserved) && (p in m.edges <==> p in m'.edges)
  }

  lemma SameEverywhere(m: CowState.Memory, m': CowState.Memory)
    requires m.frames == m'.frames && forall p: nat :: SameAt(m, m', p)
    ensures m == m'
  {
    forall p: nat
      ensures (p in m.refs <==> p in m'.refs) && (p in m.refs ==> m.refs[p] == m'.refs[p])
      ensures (p in m.free <==> p in m'.free) && (p in m.reserved <==> p in m'.reserved)
      ensures p in m.edges <==> p in m'.edges
    {
      assert SameAt(m, m', p);
    }
    assert m.refs == m'.refs && m.free == m'.free && m.reserved == m'.reserved && m.edges == m'.edges;
  }

  /** The page before the zone that serves a one-page request, if that zone empties a list; else none, 0. */
  ghost function PageBefore(r: Region, ls: seq<seq<seq<nat>>>): nat
    requires |ls| == |r.zones|
  {
    var s := Serving(r.zones, 0, 1);
    if 0 < s < |r.zones| && Empties(ls[s], 0) && r.zones[s].first > 0 then r.zones[s].first - 1 else 0
  }

  lemma EdgesKept(zones: seq<Part>, zones': seq<Part>, p: nat)
    requires SamePlaces(zones, zones')
    ensures IsEdge(zones, p) <==> IsEdge(zones', p)
  {
    if i: nat :| 0 < i < |zones| && zones[i].first == p + 1 {
      assert zones'[i].first == p + 1;
    }
    if i: nat :| 0 < i < |zones| && zones'[i].first == p + 1 {
      assert zones[i].first == p + 1;
    }
  }

  /** What a one-page request leaves of a page in use. */
  lemma TakeLeaves(r: Region, ls: seq<seq<seq<nat>>>, p: nat)
    requires PagesOk(r, ls) && IsUsed(r, ls, p) && AllocPage(r).Allocated?
    ensures var r' := AllocPage(r).value.1;
            && |r'.links| == |r.links| && Count(r'.links[p + 1]) == Count(r.links[p + 1])
            && (Flag(r'.links[p + 1]) <==> Flag(r.links[p + 1]) || p == PageBefore(r, ls))
            && (p == PageBefore(r, ls) ==> IsEdge(r.zones, p))
  {
    hide Scan, IsFree, InOrder, Exact, Count, Flag, Empties;
    OrderForPow2(0);
    assert Pow2(0) == 1;
    ScanWrites(r, ls, 1, p);
    ClippedIs(r.links[p + 1], WritesBefore(r, ls, 1, p));
    var s := Serving(r.zones, 0, 1);
    if WritesBefore(r, ls, 1, p) {
      WrittenIsEdge(r, ls, 1, p);
      assert r.zones[s].first == p + 1;
    }
    assert p == PageBefore(r, ls) ==> r.zones[s].first == p + 1;
  }

  /** How page p stands after `page` was handed out. */
  ghost predicate TookAt(r: Region, ls: seq<seq<seq<nat>>>, r': Region, ls': seq<seq<seq<nat>>>, page: nat, p: nat)
    requires |ls| == |r.zones| && |ls'| == |r'.zones|
  {
    && (IsUsed(r', ls', p) <==> IsUsed(r, ls, p) || p == page)
    && (Owns(r', p) && IsFree(r', ls', p) <==> Owns(r, p) && IsFree(r, ls, p) && p != page)
    && (p == page ==> !IsUsed(r, ls, p) && Count(r'.links[p + 1]) == 1 && !Flag(r'.links[p + 1]))
    && (IsUsed(r, ls, p) ==>
          && Count(r'.links[p + 1]) == Count(r.links[p + 1])
          && (Flag(r'.links[p + 1]) <==> Flag(r.links[p + 1]) || p == PageBefore(r, ls))
          && (p == PageBefore(r, ls) ==> IsEdge(r.zones, p)))
    && (IsEdge(r'.zones, p) <==> IsEdge(r.zones, p))
  }

  lemma TakeAt(r: Region, ls: seq<seq<seq<nat>>>, page: nat, r1: Region, ls': seq<seq<seq<nat>>>, p: nat)
    requires PagesOk(r, ls) && AllFit(r) && AllocPage(r) == Allocated((page, r1))
    requires |ls'| == |r1.zones| && |r1.links| == |r.links| && r1.start == r.start && r1.count == r.count
    requires SamePlaces(r.zones, r1.zones) && IsFree(r, ls, page) && Owns(r, page)
    requires IsFree(r1, ls', p) <==> IsFree(r, ls, p) && p != page
    ensures TookAt(r, ls, WithLink(r1, page, HandedOut(r1.links[page + 1])), ls', page, p)
  {
    hide AllocPage, AllFit, IsFree, RegionOk, Exact, Count, Flag, IsEdge, PageBefore, HandedOut, PageOk, SamePlaces;
    var r' := WithLink(r1, page, HandedOut(r1.links[page + 1]));
    FitsIfOk(r, ls);
    FreeByLists(r1, r', ls', p);
    EdgesKept(r.zones, r1.zones, p);
    HandedOutIs(r1.links[page + 1]);
    if IsUsed(r, ls, p) {
      TakeLeaves(r, ls, p);
    }
  }

  lemma FreeByLists(r: Region, r': Region, ls: seq<seq<seq<nat>>>, p: nat)
    requires |ls| == |r.zones| && r'.zones == r.zones
    ensures IsFree(r', ls, p) <==> IsFree(r, ls, p)
  {
  }

  /** Seen page by page, that is what the steps on physical memory say. */
  lemma MemoryTook(r: Region, ls: seq<seq<seq<nat>>>, r': Region, ls': seq<seq<seq<nat>>>, page: nat,
                   frames: map<nat, CowState.Page>)
    requires |ls| == |r.zones| && |ls'| == |r'.zones| && r'.start == r.start && r'.count == r.count
    requires forall p: nat :: IsUsed(r, ls, p) ==> PageOk(r, p)
    requires forall p: nat :: TookAt(r, ls, r', ls', page, p)
    ensures forall p: nat :: IsUsed(r', ls', p) ==> PageOk(r', p)
    ensures MemoryOf(r', ls', frames) ==
              CowSteps.Handed(CowSteps.Mark(MemoryOf(r, ls, frames), PageBefore(r, ls)), page)
  {
    hide IsFree, IsEdge, PageBefore, Count, Flag;
    var m, m' := MemoryOf(r, ls, frames), MemoryOf(r', ls', frames);
    forall p: nat
      ensures SameAt(m', CowSteps.Handed(CowSteps.Mark(m, PageBefore(r, ls)), page), p)
      ensures IsUsed(r', ls', p) ==> PageOk(r', p)
    {
      assert TookAt(r, ls, r', ls', page, p);
    }
    SameEverywhere(m', CowSteps.Handed(CowSteps.Mark(m, PageBefore(r, ls)), page));
  }

  /**
   `alloc_physical_page`: refused exactly when no page is free; else some free page, with the flag of the page before
   its zone set if that one is in use and the zone emptied a list.
   */
  lemma TakePhysical(r: Region, ls: seq<seq<seq<nat>>>, frames: map<nat, CowState.Page>)
    returns (ls': seq<seq<seq<nat>>>)
    requires PagesOk(r, ls)
    ensures AllFit(r)
    ensures var m, out := MemoryOf(r, ls, frames), AllocPhysicalPage(r);
            && (out.NoMemory? || out.Allocated?) && (out.NoMemory? <==> m.free == {})
            && (out.Allocated? ==>
                  var (page, r') := out.value;
                  && PagesOk(r', ls') && page in m.free && SamePlaces(r.zones, r'.zones)
                  && r'.start == r.start && r'.count == r.count
                  && MemoryOf(r', ls', frames) == CowSteps.Handed(CowSteps.Mark(m, PageBefore(r, ls)), page))
  {
    hide AllocPage, IsFree, RegionOk, Exact, Count, Flag, SamePlaces, IsEdge, PageBefore, HandedOut;
    FitsIfOk(r, ls);
    ls' := TakeOne(r, ls);
    var m := MemoryOf(r, ls, frames);
    if AllocPage(r).Allocated? {
      var (page, r1) := AllocPage(r).value;
      FitsIfOk(r1, ls');
      LinksKept(r, ls);
      var r' := AllocPhysicalPage(r).value.1;
      UsedLinkIrrelevant(r1, ls', page, HandedOut(r1.links[page + 1]));
      ExactKept(r1, r', ls');
      forall p: nat ensures TookAt(r, ls, r', ls', page, p) {
        TakeAt(r, ls, page, r1, ls', p);
      }
      MemoryTook(r, ls, r', ls', page, frames);
      assert page in m.free;
    } else {
      assert forall p: nat :: p in m.free ==> IsFree(r, ls, p);
    }
  }

  lemma LinksKept(r: Region, ls: seq<seq<seq<nat>>>)
    requires RegionOk(r, ls) && r.freePages > 0 && Exact(r, ls) && AllocPage(r).Allocated?
    ensures |AllocPage(r).value.1.links| == |r.links|
  {
    hide Alloc, OrderFor, InOrder, FreePages, Tiles, Sum;
    ScanServes(r, 0, 1);
  }

  lemma ExactKept(r: Region, r': Region, ls: seq<seq<seq<nat>>>)
    requires Exact(r, ls) && r'.zones == r.zones && r'.freePages == r.freePages
    ensures Exact(r', ls)
  {
  }

  /** Page p, in use, got a new count and kept its flag; or, with `freed`, it went back to the lists. */
  ghost predicate CountedAt(r: Region, ls: seq<seq<seq<nat>>>, r': Region, ls': seq<seq<seq<nat>>>, p: nat, c: nat,
                            freed: bool, x: nat)
    requires |ls| == |r.zones| && |ls'| == |r'.zones|
  {
    && (IsUsed(r', ls', x) <==> IsUsed(r, ls, x) && !(freed && x == p))
    && (Owns(r', x) && IsFree(r', ls', x) <==> (Owns(r, x) && IsFree(r, ls, x)) || (freed && x == p))
    && (IsUsed(r', ls', x) ==>
          && Count(r'.links[x + 1]) == (if x == p then c else Count(r.links[x + 1]))
          && (Flag(r'.links[x + 1]) <==> Flag(r.links[x + 1])))
    && (IsEdge(r'.zones, x) <==> IsEdge(r.zones, x))
  }

  /** The region after page p got a new count. */
  lemma CountSet(r: Region, ls: seq<seq<seq<nat>>>, p: nat, c: nat, x: nat)
    requires RegionOk(r, ls) && IsUsed(r, ls, p) && c < 0x10000
    ensures var r' := WithLink(r, p, r.links[p + 1].(next := c));
            RegionOk(r', ls) && (Exact(r, ls) ==> Exact(r', ls)) && CountedAt(r, ls, r', ls, p, c, false, x)
  {
    hide RegionOk, Exact, IsFree, Flag, IsEdge;
    FitsIfOk(r, ls);
    var r' := WithLink(r, p, r.links[p + 1].(next := c));
    UsedLinkIrrelevant(r, ls, p, r.links[p + 1].(next := c));
    if Exact(r, ls) {
      ExactKept(r, r', ls);
    }
    FreeByLists(r, r', ls, x);
    FlagKept(r.links[p + 1], c);
  }

  lemma FlagKept(link: Link, c: nat)
    requires c < 0x10000
    ensures Flag(link.(next := c)) <==> Flag(link)
    ensures Count(link.(next := c)) == c
  {
  }

  /** `ref` of a page in use: one more reference, or a stop at 0xFFFF. */
  lemma RefPhysical(r: Region, ls: seq<seq<seq<nat>>>, p: nat, frames: map<nat, CowState.Page>)
    requires PagesOk(r, ls) && p in MemoryOf(r, ls, frames).refs
    ensures p + 1 < |r.links|
    ensures var m, out := MemoryOf(r, ls, frames), RefPage(r, p);
            && (out.Stopped? <==> m.refs[p] == 0xFFFF) && !out.Wild?
            && (out.Done? ==>
                  var r' := out.value;
                  && r'.zones == r.zones && r'.start == r.start && r'.count == r.count && PagesOk(r', ls)
                  && MemoryOf(r', ls, frames) == m.(refs := m.refs[p := m.refs[p] + 1]))
  {
    hide RegionOk, Exact, IsFree, Flag, IsEdge;
    FitsIfOk(r, ls);
    var m := MemoryOf(r, ls, frames);
    if RefPage(r, p).Done? {
      var r' := RefPage(r, p).value;
      var m1 := m.(refs := m.refs[p := m.refs[p] + 1]);
      forall x: nat ensures SameAt(MemoryOf(r', ls, frames), m1, x) && (IsUsed(r', ls, x) ==> PageOk(r', x)) {
        CountSet(r, ls, p, m.refs[p] + 1, x);
        hide Count;
      }
      CountSet(r, ls, p, m.refs[p] + 1, p);
      SameEverywhere(MemoryOf(r', ls, frames), m1);
    }
  }

  /** The page went back to the lists with its last reference. */
  lemma FreedAt(r: Region, ls: seq<seq<seq<nat>>>, p: nat, r': Region, ls': seq<seq<seq<nat>>>, x: nat)
    requires RegionOk(r, ls) && IsUsed(r, ls, p) && FreePage(r, p) == Done(r') && |ls'| == |r'.zones|
    requires SamePlaces(r.zones, r'.zones) && r'.start == r.start && r'.count == r.count
    requires IsFree(r', ls', x) <==> IsFree(r, ls, x) || x == p
    ensures |r'.links| == |r.links| ==> CountedAt(r, ls, r', ls', p, 0, true, x)
  {
    hide RegionOk, FreePage, AllFit, IsFree, Flag, Count, IsEdge, SamePlaces;
    FitsIfOk(r, ls);
    EdgesKept(r.zones, r'.zones, x);
    if IsUsed(r, ls, x) && x != p {
      ReturnWrites(r, ls, p, x);
    }
  }

  /** Dropping a reference, seen page by page, is the step on physical memory. */
  lemma MemoryDropped(r: Region, ls: seq<seq<seq<nat>>>, r': Region, ls': seq<seq<seq<nat>>>, p: nat, c: nat,
                      freed: bool, frames: map<nat, CowState.Page>)
    requires |ls| == |r.zones| && |ls'| == |r'.zones| && r'.start == r.start && r'.count == r.count
    requires p in MemoryOf(r, ls, frames).refs && forall x: nat :: IsUsed(r, ls, x) ==> PageOk(r, x)
    requires var m := MemoryOf(r, ls, frames); c == m.refs[p] - 1 && freed == (c == 0 && p !in m.reserved)
    requires forall x: nat :: CountedAt(r, ls, r', ls', p, c, freed, x)
    ensures forall x: nat :: IsUsed(r', ls', x) ==> PageOk(r', x)
    ensures MemoryOf(r', ls', frames) == CowSteps.Unref(MemoryOf(r, ls, frames), p)
  {
    hide IsFree, IsEdge, Count, Flag;
    var m, m' := MemoryOf(r, ls, frames), MemoryOf(r', ls', frames);
    forall x: nat
      ensures SameAt(m', CowSteps.Unref(m, p), x)
      ensures IsUsed(r', ls', x) ==> PageOk(r', x)
    {
      assert CountedAt(r, ls, r', ls', p, c, freed, x);
    }
    SameEverywhere(m', CowSteps.Unref(m, p));
  }

  /** `unref` of a page in use: one reference fewer; with the last one it is freed, or leaks if its flag is set. */
  lemma UnrefPhysical(r: Region, ls: seq<seq<seq<nat>>>, p: nat, frames: map<nat, CowState.Page>)
    returns (ls': seq<seq<seq<nat>>>)
    requires PagesOk(r, ls) && p in MemoryOf(r, ls, frames).refs
    ensures AllFit(r) && p + 1 < |r.links| && UnrefPage(r, p).Done?
    ensures var r' := UnrefPage(r, p).value;
            && PagesOk(r', ls') && SamePlaces(r.zones, r'.zones) && r'.start == r.start && r'.count == r.count
            && MemoryOf(r', ls', frames) == CowSteps.Unref(MemoryOf(r, ls, frames), p)
  {
    hide RegionOk, Exact, IsFree, Flag, IsEdge, FreePage, AllFit, PageOk;
    FitsIfOk(r, ls);
    var m := MemoryOf(r, ls, frames);
    var c: nat := m.refs[p] - 1;
    var r1 := WithLink(r, p, r.links[p + 1].(next := c));
    CountSet(r, ls, p, c, p);
    FitsIfOk(r1, ls);
    ls' := ls;
    hide Count;
    if c == 0 && p !in m.reserved {
      ls' := GiveOne(r1, ls, p);
      var r' := FreePage(r1, p).value;
      FitsIfOk(r', ls');
      FreeLinks(r1, p);
      forall x: nat ensures CountedAt(r, ls, r', ls', p, c, true, x) {
        CountSet(r, ls, p, c, x);
        FreedAt(r1, ls, p, r', ls', x);
      }
      MemoryDropped(r, ls, r', ls', p, c, true, frames);
    } else {
      forall x: nat ensures CountedAt(r, ls, r1, ls, p, c, false, x) {
        CountSet(r, ls, p, c, x);
      }
      MemoryDropped(r, ls, r1, ls, p, c, false, frames);
    }
  }

  lemma FreeLinks(r: Region, p: nat)
    requires AllFit(r) && FreePage(r, p).Done?
    ensures |FreePage(r, p).value.links| == |r.links|
  {
    hide Free, OrderFor;
  }
}
