/**
 Whole runs of `alloc_physical_page`, `ref` and `unref` on a region: what each leaves is decided by the pages that are
 free, the counts and the flags alone. A region of one zone never loses a page; a region of several zones does.
 */
module PageRun {
  import opened Powers
  import opened BuddyModel
  import opened FreeLists
  import opened BuddySteps
  import opened RegionSteps
  import opened LinkWrites
  import opened PhysicalPages
  import opened CowSteps
  import CowState
  import Regions = PhysicalRegion

  type Memory = CowState.Memory

  /** Where a zone lies. */
  datatype Place = Place(first: nat, top: nat)
  {
    predicate Has(p: nat) { first <= p < first + Pow2(top) }
  }

  ghost function Places(zones: seq<Part>): seq<Place> {
    seq(|zones|, i requires 0 <= i < |zones| => Place(zones[i].first, zones[i].top))
  }

  ghost predicate HasFree(q: Place, free: set<nat>) {
    exists p :: p in free && q.Has(p)
  }

  /** The first zone, from zone i on, with a free page. */
  ghost function FirstWith(places: seq<Place>, free: set<nat>, i: nat): (s: nat)
    requires i <= |places|
    ensures i <= s <= |places| && (s < |places| ==> HasFree(places[s], free))
    ensures forall j: nat :: i <= j < s ==> !HasFree(places[j], free)
    decreases |places| - i
  {
    if i == |places| || HasFree(places[i], free) then i else FirstWith(places, free, i + 1)
  }

  /** The free pages of a zone, numbered from its first page. */
  ghost function Local(q: Place, free: set<nat>): set<nat> {
    set p | p in free && q.Has(p) :: p - q.first
  }

  /** The page before the zone that has to serve, if it takes the only block of its order there; else none, 0. */
  ghost function Touched(places: seq<Place>, free: set<nat>): nat {
    var s := FirstWith(places, free, 0);
    if 0 < s < |places| && TakesSole(Local(places[s], free), 0, places[s].top) && places[s].first > 0
    then places[s].first - 1 else 0
  }

  // ---------- Steps ----------

  datatype PageOp = Take | Ref(page: nat) | Unref(page: nat)

  /** `Leaked`: the last reference went and the page was not freed. `Skipped`: nobody holds the page; not done. */
  datatype PageOut = Got(page: nat) | Refused | Counted | Released | Leaked | Halted | Skipped

  ghost predicate PageStep(places: seq<Place>, m: Memory, op: PageOp, out: PageOut, m': Memory) {
    match op
    case Take =>
      if m.free == {} then out.Refused? && m' == m
      else
        var s := FirstWith(places, m.free, 0);
        && out.Got? && out.page in m.free && s < |places| && places[s].Has(out.page)
        && m' == Handed(Mark(m, Touched(places, m.free)), out.page)
    case Ref(p) =>
      if p !in m.refs then out.Skipped? && m' == m
      else if m.refs[p] == 0xFFFF then out.Halted? && m' == m
      else out.Counted? && m' == m.(refs := m.refs[p := m.refs[p] + 1])
    case Unref(p) =>
      if p !in m.refs then out.Skipped? && m' == m
      else
        && m' == CowSteps.Unref(m, p)
        && out == if m.refs[p] != 1 then Counted else if p in m.reserved then Leaked else Released
  }

  ghost predicate Runs(places: seq<Place>, ms: seq<Memory>, ops: seq<PageOp>, outs: seq<PageOut>) {
    && |ms| == |ops| + 1 == |outs| + 1
    && forall k: nat :: k < |ops| ==> PageStep(places, ms[k], ops[k], outs[k], ms[k + 1])
  }

  // ---------- The steps are those of the region ----------

  lemma FreeAt(r: Region, ls: seq<seq<seq<nat>>>, frames: map<nat, CowState.Page>, i: nat, x: nat)
    requires RegionOk(r, ls) && i < |r.zones|
    ensures x in FreePages(ls[i]) <==> x < Pow2(r.zones[i].top) && r.zones[i].first + x in MemoryOf(r, ls, frames).free
  {
    hide FreePages, Tiles, InOrder, MemoryOf, Pow2;
    var q := r.zones[i];
    FreeIs(r, ls, frames, q.first + x);
    if x < Pow2(q.top) {
      ZoneOfIs(r, i, q.first + x);
    }
    if x in FreePages(ls[i]) {
      InOrderBounds(r, ls, i, x);
    }
  }

  lemma FreeIs(r: Region, ls: seq<seq<seq<nat>>>, frames: map<nat, CowState.Page>, p: nat)
    requires |ls| == |r.zones|
    ensures p in MemoryOf(r, ls, frames).free <==> Owns(r, p) && IsFree(r, ls, p)
  {
    hide IsFree;
  }

  /** The free pages of a zone are those its lists cover. */
  lemma LocalIs(r: Region, ls: seq<seq<seq<nat>>>, frames: map<nat, CowState.Page>, i: nat)
    requires RegionOk(r, ls) && i < |r.zones|
    ensures var q, free := Places(r.zones)[i], MemoryOf(r, ls, frames).free;
            Local(q, free) == FreePages(ls[i]) && (HasFree(q, free) <==> FreePages(ls[i]) != {})
  {
    hide FreePages, RegionOk, MemoryOf;
    FitsIfOk(r, ls);
    var q, free := Places(r.zones)[i], MemoryOf(r, ls, frames).free;
    forall x: nat ensures x in Local(q, free) <==> x in FreePages(ls[i]) {
      FreeAt(r, ls, frames, i, x);
      assert q.Has(q.first + x) <==> x < Pow2(q.top);
      assert x in Local(q, free) ==> q.Has(q.first + x) && q.first + x in free;
    }
    if HasFree(q, free) {
      var p :| p in free && q.Has(p);
      assert p - q.first in Local(q, free);
    }
    if x :| x in FreePages(ls[i]) {
      assert x in Local(q, free);
    }
  }

  /** Exact counters ask the zone that the free pages name. */
  lemma ServingIs(r: Region, ls: seq<seq<seq<nat>>>, frames: map<nat, CowState.Page>, i: nat)
    requires RegionOk(r, ls) && Exact(r, ls) && i <= |r.zones|
    ensures Serving(r.zones, i, 1) == FirstWith(Places(r.zones), MemoryOf(r, ls, frames).free, i)
    decreases |r.zones| - i
  {
    hide RegionOk, FreePages, Sum;
    FitsIfOk(r, ls);
    if i < |r.zones| {
      LocalIs(r, ls, frames, i);
      assert r.zones[i].freePages == |FreePages(ls[i])|;
      ServingIs(r, ls, frames, i + 1);
    }
  }

  lemma PageBeforeIs(r: Region, ls: seq<seq<seq<nat>>>, frames: map<nat, CowState.Page>)
    requires RegionOk(r, ls) && Exact(r, ls)
    ensures PageBefore(r, ls) == Touched(Places(r.zones), MemoryOf(r, ls, frames).free)
  {
    ServingIs(r, ls, frames, 0);
    var s := Serving(r.zones, 0, 1);
    if s < |r.zones| {
      var q := r.zones[s];
      assert InOrder(ViewOf(r.links, q), ls[s], q.top);
      LocalIs(r, ls, frames, s);
      EmptiesIs(ViewOf(r.links, q), ls[s], 0, q.top);
    }
  }

  lemma SamePlacesSame(zones: seq<Part>, zones': seq<Part>)
    requires SamePlaces(zones, zones')
    ensures Places(zones') == Places(zones)
  {
  }

  /** The page handed out lies in the zone that serves. */
  lemma ServedFrom(r: Region, ls: seq<seq<seq<nat>>>)
    requires RegionOk(r, ls) && AllocPage(r).Allocated?
    ensures var s := Serving(r.zones, 0, 1);
            s < |r.zones| && Places(r.zones)[s].Has(AllocPage(r).value.0)
  {
    hide Scan, InOrder, FreePages, HasFreeBlock, Clobbers, OrderFor, RegionOk, Ok, Pages;
    var ls' := ScanKeeps(r, ls, 1);
  }

  // ---------- The region, updated in place ----------

  method WriteLink(region: Regions.PhysicalRegion, p: nat, link: Link)
    requires region.Shape() && p + 1 < region.links.Length
    modifies region.links
    ensures region.State() == WithLink(old(region.State()), p, link)
  {
    region.links[p + 1] := link;
    assert Regions.Parts(region.zones) == old(Regions.Parts(region.zones));
    assert region.links[..] == old(region.links[..])[p + 1 := link];
  }

  method ReadLink(region: Regions.PhysicalRegion, p: nat) returns (link: Link)
    requires p + 1 < region.links.Length
    ensures p + 1 < |region.State().links| && link == region.State().links[p + 1]
  {
    link := region.links[p + 1];
  }

  method TakePhysicalPage(region: Regions.PhysicalRegion) returns (r: Answer<nat>)
    requires region.Shape() && !region.reserved && AllFit(region.State())
    requires !AllocPhysicalPage(region.State()).WildAccess?
    modifies region`freePages, Regions.Objects(region.zones), region.links
    ensures var out := AllocPhysicalPage(old(region.State()));
            if out.Allocated? then r == Allocated(out.value.0) && region.State() == out.value.1
            else r == (if out.NoMemory? then NoMemory else AssertFailed) && region.State() == old(region.State())
  {
    hide AllocPage, AllFit, Regions.PhysicalRegion.Shape, Regions.Parts, Regions.Objects;
    r := region.AllocPage();
    if r.Allocated? {
      assert |region.State().links| == region.links.Length;
      var link := ReadLink(region, r.value);
      WriteLink(region, r.value, HandedOut(link));
    }
  }

  method RefPhysicalPage(region: Regions.PhysicalRegion, p: nat) returns (stopped: bool)
    requires region.Shape() && p + 1 < |region.State().links|
    modifies region.links
    ensures var out := RefPage(old(region.State()), p);
            if out.Done? then !stopped && region.State() == out.value
            else stopped && region.State() == old(region.State())
  {
    hide Regions.PhysicalRegion.Shape, Regions.Parts, Regions.Objects;
    var link := ReadLink(region, p);
    stopped := Count(link) == 0xFFFF;
    if !stopped {
      WriteLink(region, p, link.(next := Count(link) + 1));
    }
  }

  /** `unref` of a page with a count; the last reference releases it. */
  method UnrefPhysicalPage(region: Regions.PhysicalRegion, p: nat) returns (out: PageOut)
    requires region.Shape() && !region.reserved && AllFit(region.State()) && p + 1 < |region.State().links|
    requires Tiles(region.State().zones, region.startPage, region.numPages) && UnrefPage(region.State(), p).Done?
    modifies region`freePages, Regions.Objects(region.zones), region.links
    ensures region.State() == UnrefPage(old(region.State()), p).value
    ensures var link := old(region.State()).links[p + 1];
            out == if Count(link) != 1 then Counted else if Flag(link) then Leaked else Released
  {
    hide FreePage, AllFit, Tiles, Count, Flag, Regions.PhysicalRegion.Shape, Regions.Parts, Regions.Objects;
    ghost var r0 := region.State();
    var link := ReadLink(region, p);
    var left := link.(next := Count(link) - 1);
    StillFits(r0, p, left);
    WriteLink(region, p, left);
    out := if Count(link) != 1 then Counted else if Flag(link) then Leaked else Released;
    assert UnrefPage(r0, p) ==
             if out.Released? then FreePage(WithLink(r0, p, left), p) else Done(WithLink(r0, p, left));
    if out.Released? {
      var r := region.FreePage(p);
    }
  }

  lemma StillFits(r: Region, p: nat, link: Link)
    requires AllFit(r) && p + 1 < |r.links|
    ensures AllFit(WithLink(r, p, link))
  {
    assert forall i: nat :: i < |r.zones| ==> Fits(r.links, r.zones[i]);
  }

  // ---------- Whole runs ----------

  lemma TakeStep(r: Region, ls: seq<seq<seq<nat>>>, frames: map<nat, CowState.Page>) returns (ls': seq<seq<seq<nat>>>)
    requires PagesOk(r, ls)
    ensures AllFit(r)
    ensures var m, out := MemoryOf(r, ls, frames), AllocPhysicalPage(r);
            && (out.NoMemory? || out.Allocated?) && (out.NoMemory? ==> PageStep(Places(r.zones), m, Take, Refused, m))
            && (out.Allocated? ==>
                  var (page, r') := out.value;
                  && PagesOk(r', ls') && Places(r'.zones) == Places(r.zones)
                  && PageStep(Places(r.zones), m, Take, Got(page), MemoryOf(r', ls', frames)))
  {
    hide AllocPage, RegionOk, Exact, MemoryOf, PageBefore, Touched, Handed, Mark, Places, FirstWith, SamePlaces;
    hide WithLink, HandedOut;
    ls' := TakePhysical(r, ls, frames);
    if AllocPhysicalPage(r).Allocated? {
      var r' := AllocPhysicalPage(r).value.1;
      SamePlacesSame(r.zones, r'.zones);
      PageBeforeIs(r, ls, frames);
      ServingIs(r, ls, frames, 0);
      ServedFrom(r, ls);
      PlacesSize(r.zones);
    }
  }

  lemma PlacesSize(zones: seq<Part>)
    ensures |Places(zones)| == |zones|
  {
  }

  lemma RefStep(r: Region, ls: seq<seq<seq<nat>>>, p: nat, frames: map<nat, CowState.Page>)
    requires PagesOk(r, ls) && p in MemoryOf(r, ls, frames).refs
    ensures p + 1 < |r.links|
    ensures var m, out := MemoryOf(r, ls, frames), RefPage(r, p);
            && (out.Done? || out.Stopped?) && (out.Stopped? ==> PageStep(Places(r.zones), m, Ref(p), Halted, m))
            && (out.Done? ==>
                  && PagesOk(out.value, ls) && out.value.zones == r.zones
                  && PageStep(Places(r.zones), m, Ref(p), Counted, MemoryOf(out.value, ls, frames)))
  {
    hide PagesOk, RefPage, Places;
    RefPhysical(r, ls, p, frames);
  }

  lemma UnrefStep(r: Region, ls: seq<seq<seq<nat>>>, p: nat, frames: map<nat, CowState.Page>)
    returns (ls': seq<seq<seq<nat>>>)
    requires PagesOk(r, ls) && p in MemoryOf(r, ls, frames).refs
    ensures AllFit(r) && Tiles(r.zones, r.start, r.count) && p + 1 < |r.links| && UnrefPage(r, p).Done?
    ensures var m, r', link := MemoryOf(r, ls, frames), UnrefPage(r, p).value, r.links[p + 1];
            && PagesOk(r', ls') && Places(r'.zones) == Places(r.zones)
            && PageStep(Places(r.zones), m, Unref(p),
                        if Count(link) != 1 then Counted else if Flag(link) then Leaked else Released,
                        MemoryOf(r', ls', frames))
  {
    TilesIfOk(r, ls);
    RefsAre(r, ls, frames, p);
    hide PagesOk, MemoryOf, Tiles, AllFit, UnrefPage, Places, SamePlaces, Count, Flag;
    ls' := UnrefPhysical(r, ls, p, frames);
    SamePlacesSame(r.zones, UnrefPage(r, p).value.zones);
  }

  lemma TilesIfOk(r: Region, ls: seq<seq<seq<nat>>>)
    requires PagesOk(r, ls)
    ensures Tiles(r.zones, r.start, r.count)
  {
    hide Tiles, InOrder;
  }

  lemma RefsAre(r: Region, ls: seq<seq<seq<nat>>>, frames: map<nat, CowState.Page>, p: nat)
    requires PagesOk(r, ls) && p in MemoryOf(r, ls, frames).refs
    ensures var m := MemoryOf(r, ls, frames);
            && p + 1 < |r.links| && m.refs[p] == Count(r.links[p + 1]) && (p in m.reserved <==> Flag(r.links[p + 1]))
  {
    hide Tiles, InOrder, IsFree;
  }

  ghost predicate Holds(region: Regions.PhysicalRegion, ls: seq<seq<seq<nat>>>, frames: map<nat, CowState.Page>,
                        held: set<nat>)
    reads region, Regions.Objects(region.zones), region.links
  {
    && region.Shape() && !region.reserved && PagesOk(region.State(), ls)
    && held == MemoryOf(region.State(), ls, frames).refs.Keys
  }

  lemma HoldsNow(region: Regions.PhysicalRegion, ls: seq<seq<seq<nat>>>, frames: map<nat, CowState.Page>,
                 held: set<nat>)
    requires region.Shape() && !region.reserved && PagesOk(region.State(), ls)
    requires held == MemoryOf(region.State(), ls, frames).refs.Keys
    ensures Holds(region, ls, frames, held)
  {
  }

  lemma ListsSize(r: Region, ls: seq<seq<seq<nat>>>)
    requires PagesOk(r, ls)
    ensures |ls| == |r.zones|
  {
  }

  function HeldNext(held: set<nat>, op: PageOp, out: PageOut): set<nat> {
    if op.Take? && out.Got? then held + {out.page}
    else if op.Unref? && (out.Released? || out.Leaked?) then held - {op.page}
    else held
  }

  lemma HeldFollows(places: seq<Place>, m: Memory, op: PageOp, out: PageOut, m': Memory)
    requires PageStep(places, m, op, out, m')
    ensures m'.refs.Keys == HeldNext(m.refs.Keys, op, out)
  {
    hide Touched, FirstWith;
  }

  /** One operation of a caller, who knows the pages held. */
  method Perform(region: Regions.PhysicalRegion, op: PageOp, held: set<nat>, ghost ls: seq<seq<seq<nat>>>,
                 ghost frames: map<nat, CowState.Page>)
    returns (out: PageOut, ghost ls': seq<seq<seq<nat>>>)
    requires Holds(region, ls, frames, held)
    modifies region`freePages, Regions.Objects(region.zones), region.links
    ensures Holds(region, ls', frames, HeldNext(held, op, out))
    ensures Places(region.State().zones) == old(Places(region.State().zones))
    ensures PageStep(old(Places(region.State().zones)), old(MemoryOf(region.State(), ls, frames)), op, out,
                     MemoryOf(region.State(), ls', frames))
  {
    hide PagesOk, MemoryOf, Places, AllFit, Tiles, AllocPhysicalPage, RefPage, UnrefPage, Touched, Handed, Mark;
    hide FirstWith, Count, Flag, Regions.PhysicalRegion.Shape, Regions.Parts, Regions.Objects;
    ListsSize(region.State(), ls);
    ghost var places, m := Places(region.State().zones), MemoryOf(region.State(), ls, frames);
    ls' := ls;
    match op {
      case Take =>
        ls' := TakeStep(region.State(), ls, frames);
        var r := TakePhysicalPage(region);
        if r.Allocated? {
          out := Got(r.value);
        } else {
          out, ls' := Refused, ls;
        }
      case Ref(p) =>
        if p !in held {
          out := Skipped;
        } else {
          RefStep(region.State(), ls, p, frames);
          var stopped := RefPhysicalPage(region, p);
          out := if stopped then Halted else Counted;
        }
      case Unref(p) =>
        if p !in held {
          out := Skipped;
        } else {
          ls' := UnrefStep(region.State(), ls, p, frames);
          out := UnrefPhysicalPage(region, p);
        }
    }
    ListsSize(region.State(), ls');
    HeldFollows(places, m, op, out, MemoryOf(region.State(), ls', frames));
    HoldsNow(region, ls', frames, HeldNext(held, op, out));
  }

  /** Every page is free, none was handed out yet, and the edges are those of the zones. */
  ghost predicate Untouched(m: Memory, places: seq<Place>, start: nat, count: nat) {
    && m.refs == map[] && m.reserved == {} && (forall p: nat :: p in m.free <==> start <= p < start + count)
    && (forall p: nat :: p in m.edges <==> EdgeOf(places, p))
  }

  ghost predicate EdgeOf(places: seq<Place>, p: nat) {
    exists i: nat :: 0 < i < |places| && places[i].first == p + 1
  }

  lemma ReadyIsUntouched(r: Region, frames: map<nat, CowState.Page>) returns (ls: seq<seq<seq<nat>>>)
    requires Ready(r) && r.start > 0 && r.start + r.count < |r.links|
    ensures PagesOk(r, ls) && Untouched(MemoryOf(r, ls, frames), Places(r.zones), r.start, r.count)
    ensures MemoryOf(r, ls, frames).refs.Keys == {}
  {
    var tiles := Tiles(r.zones, r.start, r.count);
    hide IsFree, RegionOk, Exact, AllWhole, NewPart;
    ls := ReadyKeeps(r);
    FitsIfOk(r, ls);
    var m := MemoryOf(r, ls, frames);
    forall p: nat ensures p in m.edges <==> EdgeOf(Places(r.zones), p) {
      EdgeIs(r, p);
    }
    assert forall p: nat :: !IsUsed(r, ls, p);
    assert m.refs.Keys == {};
  }

  lemma EdgeIs(r: Region, p: nat)
    requires Tiles(r.zones, r.start, r.count)
    ensures IsEdge(r.zones, p) <==> EdgeOf(Places(r.zones), p)
    ensures IsEdge(r.zones, p) ==> p < r.start + r.count
  {
    var places := Places(r.zones);
    if i: nat :| 0 < i < |places| && places[i].first == p + 1 {
      assert r.zones[i].first == p + 1;
    }
    if i: nat :| 0 < i < |r.zones| && r.zones[i].first == p + 1 {
      assert places[i].first == p + 1;
      if i < |r.zones| - 1 {
        TilesOrder(r.zones, r.start, r.count, i, |r.zones| - 1);
      }
    }
  }

  lemma RunNext(places: seq<Place>, ms: seq<Memory>, ops: seq<PageOp>, outs: seq<PageOut>, out: PageOut, m: Memory)
    requires |outs| < |ops| && Runs(places, ms, ops[..|outs|], outs)
    requires PageStep(places, ms[|outs|], ops[|outs|], out, m)
    ensures Runs(places, ms + [m], ops[..|outs| + 1], outs + [out])
  {
    hide PageStep;
  }

  /** Any run of requests and references on a region that was set up goes as the steps say. */
  method Run(region: Regions.PhysicalRegion, ops: seq<PageOp>, ghost frames: map<nat, CowState.Page>)
    returns (outs: seq<PageOut>, ghost ms: seq<Memory>, ghost ls: seq<seq<seq<nat>>>)
    requires region.Shape() && !region.reserved && Ready(region.State())
    requires 0 < region.startPage && region.startPage + region.numPages < region.links.Length
    modifies region`freePages, Regions.Objects(region.zones), region.links
    ensures |outs| <= |ops| && (|outs| < |ops| ==> outs != [] && outs[|outs| - 1].Halted?)
    ensures Runs(old(Places(region.State().zones)), ms, ops[..|outs|], outs)
    ensures Untouched(ms[0], old(Places(region.State().zones)), region.startPage, region.numPages)
    ensures PagesOk(region.State(), ls) && ms[|outs|] == MemoryOf(region.State(), ls, frames)
  {
    hide Ready, PagesOk, MemoryOf, Places, PageStep, Untouched, Regions.PhysicalRegion.Shape, Regions.Objects;
    hide Regions.PhysicalRegion.State, HeldNext;
    StateIs(region);
    ls := ReadyIsUntouched(region.State(), frames);
    ghost var places := Places(region.State().zones);
    ListsSize(region.State(), ls);
    outs, ms := [], [MemoryOf(region.State(), ls, frames)];
    var held: set<nat> := {};
    assert ops[..0] == [];
    HoldsNow(region, ls, frames, held);
    while |outs| < |ops| && (outs != [] ==> !outs[|outs| - 1].Halted?)
      invariant |outs| <= |ops| && Runs(places, ms, ops[..|outs|], outs) && Holds(region, ls, frames, held)
      invariant |ls| == |region.State().zones|
      invariant ms[|outs|] == MemoryOf(region.State(), ls, frames) && Places(region.State().zones) == places
      invariant Untouched(ms[0], places, region.startPage, region.numPages)
      decreases |ops| - |outs|
    {
      var k := |outs|;
      var out;
      out, ls := Perform(region, ops[k], held, ls, frames);
      ListsSize(region.State(), ls);
      RunNext(places, ms, ops, outs, out, MemoryOf(region.State(), ls, frames));
      held := HeldNext(held, ops[k], out);
      outs, ms := outs + [out], ms + [MemoryOf(region.State(), ls, frames)];
    }
  }

  lemma StateIs(region: Regions.PhysicalRegion)
    ensures var r := region.State();
            r.start == region.startPage && r.count == region.numPages && |r.links| == region.links.Length
  {
  }
}
