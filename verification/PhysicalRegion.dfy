/** A range of physical pages cut into buddy zones, as in `kernel/memory/PhysicalRegion.cpp`. */
module PhysicalRegion {
  import opened Powers
  import opened BuddyModel
  import opened FreeLists
  import opened BuddySteps
  import opened RegionSteps
  import Zones = BuddyZone

  type BuddyZone = Zones.BuddyZone

  /** The objects the zones are made of; the table of links is one for all. */
  ghost function Objects(zones: seq<BuddyZone>): set<object> {
    (set i: nat | i < |zones| :: zones[i] as object) + (set i: nat | i < |zones| :: zones[i].orders as object)
  }

  ghost function Parts(zones: seq<BuddyZone>): (ps: seq<Part>)
    reads Objects(zones)
    ensures |ps| == |zones| && forall i: nat :: i < |zones| ==> ps[i] == zones[i].AsPart()
  {
    if zones == [] then []
    else
      var n := |zones| - 1;
      assert Objects(zones[..n]) <= Objects(zones);
      Parts(zones[..n]) + [zones[n].AsPart()]
  }

  ghost predicate Separated(zones: seq<BuddyZone>) {
    forall i: nat, j: nat :: i < j < |zones| ==> zones[i] != zones[j] && zones[i].orders != zones[j].orders
  }

  /** Link k belongs to the first page of a zone. */
  ghost predicate IsFirst(zones: seq<BuddyZone>, k: nat) {
    exists i: nat :: i < |zones| && k == zones[i].firstPage + 1
  }

  class PhysicalRegion {
    const startPage: nat
    const numPages: nat
    const reserved: bool
    const zones: seq<BuddyZone>
    const links: array<Link>
    var freePages: nat

    ghost predicate Shape()
      reads {}
    {
      && Separated(zones) && (reserved ==> zones == [])
      && forall i: nat :: i < |zones| ==> zones[i].Shape() && zones[i].links == links
    }

    ghost function State(): Region
      reads this, Objects(zones), links
    {
      Region(startPage, numPages, Parts(zones), links[..], freePages)
    }

    lemma ShapeFits()
      requires Shape()
      ensures AllFit(State())
    {
    }

    constructor (startPage: nat, numPages: nat, reserved: bool, links: array<Link>)
      requires startPage + numPages + 1 <= links.Length
      ensures Shape() && fresh(Objects(zones)) && this.links == links && this.reserved == reserved
      ensures this.startPage == startPage && this.numPages == numPages && freePages == numPages
      ensures !reserved ==> Built(State())
    {
      hide Tiles, NewPart, Pow2;
      this.startPage, this.numPages, this.reserved, this.freePages := startPage, numPages, reserved, numPages;
      this.links := links;
      if reserved {
        zones := [];
      } else {
        var zs := MakeZones(startPage, numPages, links);
        zones := zs;
      }
    }

    /** `init`: the free block of every zone gets its links. */
    method Init()
      requires Shape() && (reserved || Built(State()))
      modifies links
      ensures Parts(zones) == old(Parts(zones)) && (reserved ==> State() == old(State()))
      ensures !reserved ==> Ready(State())
      ensures forall k: nat :: k < links.Length && !IsFirst(zones, k) ==> links[k] == old(links[k])
    {
      hide NewPart, Tiles, Pow2, Parts;
      for i := 0 to |zones|
        invariant Parts(zones) == old(Parts(zones)) && (reserved ==> State() == old(State()))
        invariant forall j: nat :: j < i ==> links[zones[j].firstPage + 1] == Link(-1, -1)
        invariant forall k: nat :: k < links.Length && !IsFirst(zones, k) ==> links[k] == old(links[k])
      {
        links[zones[i].firstPage + 1] := Link(-1, -1);
      }
      ShapeFits();
    }

    /** Ask zone i for n pages. */
    method AskZone(i: nat, n: nat) returns (r: Answer<nat>)
      requires Shape() && AllFit(State()) && i < |zones| && n > 0
      requires !AllocBlock(State().links, State().zones[i], n).WildAccess?
      modifies Objects(zones), links
      ensures freePages == old(freePages)
      ensures var s := old(State());
              var out := AllocBlock(s.links, s.zones[i], n);
              if out.Allocated? then
                r == Allocated(out.value.0) && State() == s.(links := out.value.1, zones := s.zones[i := out.value.2])
              else r == (if out.NoMemory? then NoMemory else AssertFailed) && State() == s
    {
      hide Fits, AllocBlock, Zones.BuddyZone.AsPart;
      assert zones[i] as object in Objects(zones) && zones[i].orders as object in Objects(zones);
      r := zones[i].AllocBlock(n);
      assert forall j: nat :: j < |zones| && j != i ==> zones[j].AsPart() == old(zones[j].AsPart());
      assert Parts(zones) == old(Parts(zones))[i := zones[i].AsPart()];
    }

    /** Ask zone i for n pages and, if it has them, account for them in the region. */
    method TakeFrom(i: nat, n: nat) returns (r: Answer<nat>)
      requires Shape() && AllFit(State()) && i < |zones| && 0 < n <= freePages
      requires !AllocBlock(State().links, State().zones[i], n).WildAccess?
      modifies this`freePages, Objects(zones), links
      ensures var s := old(State());
              var out := AllocBlock(s.links, s.zones[i], n);
              if out.Allocated? then
                && r == Allocated(out.value.0)
                && State() == s.(links := out.value.1, zones := s.zones[i := out.value.2], freePages := s.freePages - n)
              else r == (if out.NoMemory? then NoMemory else AssertFailed) && State() == s
    {
      hide Fits, AllocBlock, Zones.BuddyZone.AsPart, Shape;
      r := AskZone(i, n);
      if r.Allocated? {
        freePages := freePages - n;
      }
    }

    /** Zones in order, until one serves the request or the kernel stops. */
    method Scan(n: nat) returns (r: Answer<nat>)
      requires Shape() && AllFit(State()) && 0 < n <= freePages && !RegionSteps.Scan(State(), 0, n).WildAccess?
      modifies this`freePages, Objects(zones), links
      ensures var out := RegionSteps.Scan(old(State()), 0, n);
              if out.Allocated? then r == Allocated(out.value.0) && State() == out.value.1
              else r == (if out.NoMemory? then NoMemory else AssertFailed) && State() == old(State())
    {
      hide Fits, AllocBlock, Zones.BuddyZone.AsPart, Shape;
      ghost var s := State();
      for i := 0 to |zones|
        invariant State() == s && RegionSteps.Scan(s, 0, n) == RegionSteps.Scan(s, i, n)
      {
        r := TakeFrom(i, n);
        if !r.NoMemory? {
          return;
        }
      }
      r := NoMemory;
    }

    /** `alloc_page`. */
    method AllocPage() returns (r: Answer<nat>)
      requires Shape() && AllFit(State()) && (reserved || !RegionSteps.AllocPage(State()).WildAccess?)
      modifies this`freePages, Objects(zones), links
      ensures reserved ==> r == NoMemory && State() == old(State())
      ensures !reserved ==>
                var out := RegionSteps.AllocPage(old(State()));
                if out.Allocated? then r == Allocated(out.value.0) && State() == out.value.1
                else r == (if out.NoMemory? then NoMemory else AssertFailed) && State() == old(State())
    {
      hide Fits;
      if reserved || freePages == 0 {
        return NoMemory;
      }
      r := Scan(1);
    }

    /** `alloc_pages`. */
    method AllocPages(n: nat) returns (r: Answer<nat>)
      requires Shape() && AllFit(State()) && n > 0 && (reserved || !RegionSteps.AllocPages(State(), n).WildAccess?)
      modifies this`freePages, Objects(zones), links
      ensures reserved ==> r == NoMemory && State() == old(State())
      ensures !reserved ==>
                var out := RegionSteps.AllocPages(old(State()), n);
                if out.Allocated? then r == Allocated(out.value.0) && State() == out.value.1
                else
                  && r == (if out.NoMemory? then NoMemory else if out.Invalid? then Invalid else AssertFailed)
                  && State() == old(State())
    {
      hide Fits, OrderFor;
      if reserved || freePages < n {
        return NoMemory;
      }
      if OrderFor(n) > MAX_ORDER {
        return Invalid;
      }
      r := Scan(n);
    }

    /** Hand one page back to zone i. */
    method ReturnTo(i: nat, page: nat) returns (r: Outcome<()>)
      requires Shape() && AllFit(State()) && i < |zones| && !FreeBlock(State().links, State().zones[i], page, 1).Wild?
      modifies Objects(zones), links
      ensures freePages == old(freePages)
      ensures var s := old(State());
              var out := FreeBlock(s.links, s.zones[i], page, 1);
              if out.Done? then r == Done(()) && State() == s.(links := out.value.0, zones := s.zones[i := out.value.1])
              else r == Stopped
    {
      hide Fits, FreeBlock, Zones.BuddyZone.AsPart;
      assert zones[i] as object in Objects(zones) && zones[i].orders as object in Objects(zones);
      r := zones[i].FreeBlock(page, 1);
      assert forall j: nat :: j < |zones| && j != i ==> zones[j].AsPart() == old(zones[j].AsPart());
      assert Parts(zones) == old(Parts(zones))[i := zones[i].AsPart()];
    }

    method CountAndReturn(i: nat, page: nat) returns (r: Outcome<()>)
      requires Shape() && AllFit(State()) && i < |zones| && !FreeBlock(State().links, State().zones[i], page, 1).Wild?
      modifies this`freePages, Objects(zones), links
      ensures var s := old(State());
              var out := FreeBlock(s.links, s.zones[i], page, 1);
              if out.Done? then
                && r == Done(())
                && State() == s.(links := out.value.0, zones := s.zones[i := out.value.1], freePages := s.freePages + 1)
              else r == Stopped
    {
      hide Fits, FreeBlock, Zones.BuddyZone.AsPart, Shape;
      freePages := freePages + 1;
      r := ReturnTo(i, page);
    }

    /** `free_page`: the kernel stops at a reserved region and at a page of no zone. */
    method FreePage(page: nat) returns (r: Outcome<()>)
      requires Shape() && AllFit(State())
      requires reserved || (Tiles(State().zones, startPage, numPages) && !RegionSteps.FreePage(State(), page).Wild?)
      modifies this`freePages, Objects(zones), links
      ensures reserved ==> r == Stopped && State() == old(State())
      ensures !reserved ==>
                var out := RegionSteps.FreePage(old(State()), page);
                if out.Done? then r == Done(()) && State() == out.value else r == Stopped
      ensures !(startPage <= page < startPage + numPages) ==> r == Stopped && State() == old(State())
    {
      hide Fits, FreeBlock, Zones.BuddyZone.AsPart, Shape, Tiles, ZoneOf, Parts, Objects;
      if reserved {
        return Stopped;
      }
      if !(startPage <= page < startPage + numPages) {
        OutsideStops(page);
        return Stopped;
      }
      var i := FindZone(page);
      if i < |zones| {
        r := CountAndReturn(i, page);
      } else {
        r := Stopped;
      }
    }

    /** The first zone that contains the page. */
    method FindZone(page: nat) returns (i: nat)
      requires Shape()
      ensures i == ZoneOf(State().zones, page)
    {
      i := 0;
      while i < |zones|
        invariant 0 <= i <= |zones|
        invariant forall j: nat :: j < i ==> !(State().zones[j].first <= page < State().zones[j].End())
      {
        if zones[i].firstPage <= page < zones[i].firstPage + zones[i].numPages {
          return;
        }
        i := i + 1;
      }
    }

    lemma OutsideStops(page: nat)
      requires AllFit(State()) && Tiles(State().zones, startPage, numPages)
               && !(startPage <= page < startPage + numPages)
      ensures RegionSteps.FreePage(State(), page).Stopped?
    {
      var s := State();
      var i := ZoneOf(s.zones, page);
      if i < |s.zones| {
        ZoneOfIs(s, i, page);
      }
    }
  }

  /** The largest power of two that fits, but no more than the largest order allows. */
  function ZoneSize(left: nat): (size: nat)
    requires left > 0
    ensures 0 < size <= left && Pow2(OrderFor(size)) == size && OrderFor(size) <= MAX_ORDER
    ensures OrderFor(size) < MAX_ORDER ==> left < 2 * size
  {
    var order := HighBit(left);
    OrderForPow2(order);
    OrderForPow2(MAX_ORDER);
    assert order > MAX_ORDER ==> Pow2(MAX_ORDER) <= Pow2(order) by {
      if order > MAX_ORDER {
        Pow2Monotone(MAX_ORDER, order);
      }
    }
    if order > MAX_ORDER then Pow2(MAX_ORDER) else Pow2(order)
  }

  lemma TilesAppend(ps: seq<Part>, start: nat, count: nat, p: Part)
    requires Tiles(ps, start, count) && p.first == start + count
    ensures Tiles(ps + [p], start, count + Pow2(p.top))
  {
  }

  /** New zones that cover a range of pages and share nothing but their links. */
  ghost predicate Cut(zs: seq<BuddyZone>, start: nat, count: nat, links: array<Link>)
    reads Objects(zs)
  {
    && Separated(zs) && Tiles(Parts(zs), start, count)
    && forall i: nat :: i < |zs| ==> zs[i].Shape() && zs[i].links == links && NewPart(zs[i].AsPart())
  }

  /** One more zone behind the others. */
  lemma ZoneAdded(zs: seq<BuddyZone>, zone: BuddyZone, start: nat, count: nat, links: array<Link>)
    requires Cut(zs, start, count, links) && forall i: nat :: i < |zs| ==> zs[i] != zone && zs[i].orders != zone.orders
    requires zone.Shape() && zone.links == links && zone.firstPage == start + count && NewPart(zone.AsPart())
    ensures Cut(zs + [zone], start, count + zone.numPages, links)
  {
    TilesAppend(Parts(zs), start, count, zone.AsPart());
    hide NewPart, Pow2, Tiles;
    assert Parts(zs + [zone]) == Parts(zs) + [zone.AsPart()];
  }

  lemma NoZones(start: nat, links: array<Link>)
    ensures Cut([], start, 0, links)
  {
  }

  method AddZone(zs: seq<BuddyZone>, ghost start: nat, next: nat, size: nat, links: array<Link>)
    returns (zone: BuddyZone)
    requires start <= next && Cut(zs, start, next - start, links) && next + size + 1 <= links.Length
    requires size > 0 && Pow2(OrderFor(size)) == size && OrderFor(size) <= MAX_ORDER
    ensures Cut(zs + [zone], start, next + size - start, links) && fresh(zone) && fresh(zone.orders)
  {
    hide OrderFor, Pow2, Tiles, NewPart, NewOrders, Zones.BuddyZone.AsPart;
    zone := new Zones.BuddyZone(next, size, links);
    assert Parts(zs) == old(Parts(zs));
    ZoneAdded(zs, zone, start, next - start, links);
  }

  /** Cut a range into zones: each as large as the pages left allow, up to the largest order. */
  method MakeZones(startPage: nat, numPages: nat, links: array<Link>) returns (zs: seq<BuddyZone>)
    requires startPage + numPages + 1 <= links.Length
    ensures Cut(zs, startPage, numPages, links) && forall i: nat :: i < |zs| ==> fresh(zs[i]) && fresh(zs[i].orders)
  {
    hide OrderFor, Pow2, ZoneSize, Cut;
    zs := [];
    NoZones(startPage, links);
    var left: nat, next: nat := numPages, startPage;
    while left > 0
      invariant left + next == startPage + numPages && next >= startPage
      invariant Cut(zs, startPage, next - startPage, links)
      invariant forall i: nat :: i < |zs| ==> fresh(zs[i]) && fresh(zs[i].orders)
      decreases left
    {
      var size := ZoneSize(left);
      var zone := AddZone(zs, startPage, next, size, links);
      zs := zs + [zone];
      left, next := left - size, next + size;
    }
  }
}
