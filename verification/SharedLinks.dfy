/**
 A run of power-of-two requests after which a region is out of order: a zone empties a list, writes the link of the last
 page of the zone before it, and later a page is on two lists at once.
 */
module SharedLinks {
  import opened Powers
  import opened BuddyModel
  import opened FreeLists
  import opened BuddySteps
  import opened RegionSteps
  import opened LinkWrites
  import opened PhysicalPages

  const UNUSED := BuddyOrder([], -1)
  const NONE := Link(-1, -1)

  /** Zones of eight and of four pages: the buckets that change, the counters and the links. */
  function Twelve(b0: seq<bool>, f0: int, b1: seq<bool>, f1: int, b3: bool, f3: int, c: nat, d2: bool, g2: int, e: nat,
                  links: seq<Link>, free: nat): Region
  {
    Region(0, 12,
           [Part(0, 3, [BuddyOrder(b0, f0), BuddyOrder(b1, f1), BuddyOrder([false], -1), BuddyOrder([b3], f3),
                        UNUSED, UNUSED, UNUSED, UNUSED, UNUSED, UNUSED, UNUSED], c),
            Part(8, 2, [BuddyOrder([false, false], -1), BuddyOrder([false], -1), BuddyOrder([d2], g2),
                        UNUSED, UNUSED, UNUSED, UNUSED, UNUSED, UNUSED, UNUSED, UNUSED], e)],
           links, free)
  }

  lemma SmallPowers()
    ensures Pow2(0) == 1 && Pow2(1) == 2 && Pow2(2) == 4 && Pow2(3) == 8
    ensures OrderFor(1) == 0 && OrderFor(4) == 2 && OrderFor(8) == 3
  {
    assert Pow2(1) == 2 && Pow2(2) == 4 && Pow2(3) == 8;
    OrderForPow2(0);
    OrderForPow2(2);
    OrderForPow2(3);
  }

  lemma SmallShifts()
    ensures BitIndex(0, 3) == 0 && BitIndex(0, 2) == 0 && BitIndex(7, 0) == 3 && BitIndex(5, 0) == 2
            && BitIndex(6, 0) == 3
    ensures BitIndex(6, 1) == 1 && PairStart(6, 0) == 6 && BuddyStart(6, 0) == 7
  {
    assert ShiftRight(0, 1) == 0 && ShiftRight(0, 2) == 0 && ShiftRight(0, 3) == 0;
    assert ShiftRight(6, 1) == ShiftRight(3, 0) == 3;
    assert ShiftLeft(3, 1) == 2 * ShiftLeft(3, 0) == 6;
  }

  const F4: seq<bool> := [false, false, false, false]
  const F2: seq<bool> := [false, false]

  /** All eight pages of the first zone are taken. */
  lemma TakeEight(ls: seq<Link>)
    requires |ls| == 13 && ls[1] == NONE
    ensures var r := Twelve(F4, -1, F2, -1, true, 0, 8, true, 0, 4, ls, 12);
            && AllFit(r)
            && AllocPages(r, 8) ==
                 Allocated((0, Twelve(F4, -1, F2, -1, false, -1, 0, true, 0, 4, ls[0 := ls[0].(prev := -1)], 4)))
  {
    SmallPowers();
    SmallShifts();
    hide OrderFor, Pow2, BitIndex;
    var r := Twelve(F4, -1, F2, -1, true, 0, 8, true, 0, 4, ls, 12);
    var z := ViewOf(ls, r.zones[0]);
    assert z.links[0] == ls[0] && z.links[1] == NONE;
    assert [true][0 := false] == [false];
    var z' := Pop(z, 3).value.1;
    assert z'.links == z.links[0 := ls[0].(prev := -1)];
    assert Alloc(z, 3, 3) == Done((0, z'));
    assert Stored(ls, r.zones[0], z'.links) == ls[0 := ls[0].(prev := -1)];
    var r' := Twelve(F4, -1, F2, -1, false, -1, 0, true, 0, 4, ls, 4);
    assert z'.orders == r'.zones[0].orders && r.zones[0 := r'.zones[0]] == r'.zones;
  }

  /** Page 7 comes back to an empty list. */
  lemma GiveSeven(ls: seq<Link>)
    requires |ls| == 13
    ensures var r := Twelve(F4, -1, F2, -1, false, -1, 0, true, 0, 4, ls, 4);
            && AllFit(r)
            && FreePage(r, 7) ==
               Done(Twelve([false, false, false, true], 7, F2, -1, false, -1, 1, true, 0, 4, ls[8 := NONE], 5))
  {
    SmallPowers();
    SmallShifts();
    hide OrderFor, Pow2, BitIndex;
    var r := Twelve(F4, -1, F2, -1, false, -1, 0, true, 0, 4, ls, 4);
    var z := ViewOf(ls, r.zones[0]);
    assert F4[3 := true] == [false, false, false, true];
    var z' := Push(z, 7, 0).value;
    assert Free(z, 7, 0, 3) == Done(z');
    assert Stored(ls, r.zones[0], z'.links) == ls[8 := NONE];
    var r' := Twelve([false, false, false, true], 7, F2, -1, false, -1, 1, true, 0, 4, ls, 5);
    assert z'.orders == r'.zones[0].orders && r.zones[0 := r'.zones[0]] == r'.zones;
  }

  /** Page 5 comes back in front of page 7. */
  lemma GiveFive(ls: seq<Link>)
    requires |ls| == 13 && ls[8] == NONE
    ensures var r := Twelve([false, false, false, true], 7, F2, -1, false, -1, 1, true, 0, 4, ls, 5);
            && AllFit(r)
            && FreePage(r, 5) ==
               Done(Twelve([false, false, true, true], 5, F2, -1, false, -1, 2, true, 0, 4,
                           ls[8 := Link(-1, 5)][6 := Link(7, -1)], 6))
  {
    SmallPowers();
    SmallShifts();
    hide OrderFor, Pow2, BitIndex;
    var r := Twelve([false, false, false, true], 7, F2, -1, false, -1, 1, true, 0, 4, ls, 5);
    var z := ViewOf(ls, r.zones[0]);
    assert z.links[8] == NONE;
    assert [false, false, false, true][2 := true] == [false, false, true, true];
    var z' := Push(z, 5, 0).value;
    assert Free(z, 5, 0, 3) == Done(z');
    assert Stored(ls, r.zones[0], z'.links) == ls[8 := Link(-1, 5)][6 := Link(7, -1)];
    var r' := Twelve([false, false, true, true], 5, F2, -1, false, -1, 2, true, 0, 4, ls, 6);
    assert z'.orders == r'.zones[0].orders && r.zones[0 := r'.zones[0]] == r'.zones;
  }

  /** The second zone gives up its only block, and the link of page 7 loses its way back to page 5. */
  lemma TakeFour(ls: seq<Link>)
    requires |ls| == 13 && ls[8] == Link(-1, 5) && ls[9] == NONE
    ensures var r := Twelve([false, false, true, true], 5, F2, -1, false, -1, 2, true, 0, 4, ls, 6);
            && AllFit(r)
            && AllocPages(r, 4) ==
               Allocated((8,
                          Twelve([false, false, true, true], 5, F2, -1, false, -1, 2, false, -1, 0, ls[8 := NONE], 2)))
  {
    SmallPowers();
    SmallShifts();
    hide OrderFor, Pow2, BitIndex;
    var r := Twelve([false, false, true, true], 5, F2, -1, false, -1, 2, true, 0, 4, ls, 6);
    var z := ViewOf(ls, r.zones[1]);
    assert z.links[0] == ls[8] && z.links[1] == NONE;
    assert [true][0 := false] == [false];
    var z' := Pop(z, 2).value.1;
    assert z'.links == z.links[0 := NONE];
    assert Alloc(z, 2, 2) == Done((0, z'));
    forall k: nat | k < 13 ensures Stored(ls, r.zones[1], z'.links)[k] == ls[8 := NONE][k] {
      StoredAt(ls, r.zones[1], z'.links, k);
    }
    assert Stored(ls, r.zones[1], z'.links) == ls[8 := NONE];
    var r' := Twelve([false, false, true, true], 5, F2, -1, false, -1, 2, false, -1, 0, ls, 2);
    assert z'.orders == r'.zones[1].orders && r.zones[1 := r'.zones[1]] == r'.zones;
    assert AllocBlock(ls, r.zones[0], 4) == NoMemory;
    assert Scan(r, 0, 4) == Scan(r, 1, 4);
  }

  /** Page 6 is merged with page 7, which stays on its list behind page 5. */
  lemma GiveSix(ls: seq<Link>)
    requires |ls| == 13 && ls[8] == NONE
    ensures var r := Twelve([false, false, true, true], 5, F2, -1, false, -1, 2, false, -1, 0, ls, 2);
            && AllFit(r)
            && FreePage(r, 6) ==
               Done(Twelve([false, false, true, false], 5, [false, true], 6, false, -1, 3, false, -1, 0, ls[7 := NONE],
                           3))
  {
    SmallPowers();
    SmallShifts();
    hide OrderFor, Pow2, BitIndex, PairStart, BuddyStart;
    var r := Twelve([false, false, true, true], 5, F2, -1, false, -1, 2, false, -1, 0, ls, 2);
    var z := ViewOf(ls, r.zones[0]);
    assert z.links[8] == NONE;
    assert [false, false, true, true][3 := false] == [false, false, true, false] && F2[1 := true] == [false, true];
    var z1 := ClearBit(z, 6, 0);
    assert Unlink(z1, 7, 0) == Done(z1);
    var z' := Push(z1, 6, 1).value;
    assert Free(z1, 6, 1, 3) == Done(z');
    assert Free(z, 6, 0, 3) == Done(z');
    assert Stored(ls, r.zones[0], z'.links) == ls[7 := NONE];
    var r' := Twelve([false, false, true, false], 5, [false, true], 6, false, -1, 3, false, -1, 0, ls, 3);
    assert z'.orders == r'.zones[0].orders && r.zones[0 := r'.zones[0]] == r'.zones;
  }

  /** Page 5 is taken, and the list goes on at page 7. */
  lemma TakeFive(ls: seq<Link>)
    requires |ls| == 13 && ls[6] == Link(7, -1) && ls[8] == NONE
    ensures var r := Twelve([false, false, true, false], 5, [false, true], 6, false, -1, 3, false, -1, 0, ls, 3);
            && AllFit(r)
            && AllocPage(r) == Allocated((5, Twelve(F4, 7, [false, true], 6, false, -1, 2, false, -1, 0, ls, 2)))
  {
    SmallPowers();
    SmallShifts();
    hide OrderFor, Pow2, BitIndex;
    var r := Twelve([false, false, true, false], 5, [false, true], 6, false, -1, 3, false, -1, 0, ls, 3);
    var z := ViewOf(ls, r.zones[0]);
    assert z.links[6] == Link(7, -1) && z.links[8] == NONE;
    assert [false, false, true, false][2 := false] == F4;
    var z' := Pop(z, 0).value.1;
    assert z'.links == z.links;
    assert Alloc(z, 0, 3) == Done((5, z'));
    assert Stored(ls, r.zones[0], z.links) == ls;
    var r' := Twelve(F4, 7, [false, true], 6, false, -1, 2, false, -1, 0, ls, 2);
    assert z'.orders == r'.zones[0].orders && r.zones[0 := r'.zones[0]] == r'.zones;
  }

  /**
   The pair of page 7 is marked as merged, so the next request stops the kernel while two pages are counted as free.
   */
  lemma StopsAtSeven(ls: seq<Link>)
    requires |ls| == 13
    ensures var r := Twelve(F4, 7, [false, true], 6, false, -1, 2, false, -1, 0, ls, 2);
            AllFit(r) && r.freePages == 2 && AllocPage(r) == AssertFailed
  {
    SmallPowers();
    SmallShifts();
    hide OrderFor, Pow2, BitIndex;
    var r := Twelve(F4, 7, [false, true], 6, false, -1, 2, false, -1, 0, ls, 2);
    assert Pop(ViewOf(ls, r.zones[0]), 0) == Stopped;
  }

  /** The region of twelve pages with all of them free. */
  function NewTwelve(ls: seq<Link>): Region {
    Twelve(F4, -1, F2, -1, true, 0, 8, true, 0, 4, ls, 12)
  }

  /** The buckets of a new zone whose orders have the bitmaps given. */
  lemma NewBuckets(maps: seq<seq<bool>>, orders: seq<BuddyOrder>, top: nat)
    requires |maps| == top <= MAX_ORDER && |orders| == MAX_ORDER + 1
    requires forall o: nat :: o < top ==> orders[o] == BuddyOrder(maps[o], -1) && |maps[o]| == NumPairs(o, top)
    requires forall o: nat, i: nat :: o < top && i < |maps[o]| ==> !maps[o][i]
    requires orders[top] == BuddyOrder([true], 0) && forall o: nat :: top < o <= MAX_ORDER ==> orders[o] == UNUSED
    ensures orders == NewOrders(top, MAX_ORDER + 1)
  {
    hide NumPairs;
    forall o: nat | o <= MAX_ORDER ensures orders[o] == NewOrders(top, MAX_ORDER + 1)[o] {
      if o < top {
        assert maps[o] == seq(NumPairs(o, top), _ => false);
      }
    }
  }

  lemma SmallPairs()
    ensures NumPairs(0, 3) == 4 && NumPairs(1, 3) == 2 && NumPairs(2, 3) == 1
    ensures NumPairs(0, 2) == 2 && NumPairs(1, 2) == 1
  {
    SmallPowers();
  }

  /** It is one that the constructor and `init` make. */
  lemma TwelveIsReady(ls: seq<Link>)
    requires |ls| == 13 && ls[1] == NONE && ls[9] == NONE
    ensures Ready(NewTwelve(ls))
  {
    SmallPowers();
    SmallPairs();
    hide Pow2, OrderFor, NewOrders, NumPairs;
    var r := NewTwelve(ls);
    NewBuckets([F4, F2, [false]], r.zones[0].orders, 3);
    NewBuckets([F2, [false]], r.zones[1].orders, 2);
  }

  /** What is left of a region after a request, or a page given back. */
  function AfterTake(a: Answer<(nat, Region)>): Outcome<Region> {
    if a.Allocated? then Done(a.value.1) else Stopped
  }

  function Then(o: Outcome<Region>, page: nat): Outcome<Region> {
    if o.Done? && AllFit(o.value) then FreePage(o.value, page) else Stopped
  }

  function ThenTake(o: Outcome<Region>, n: nat): Outcome<Region>
    requires n > 0
  {
    if o.Done? && AllFit(o.value) then AfterTake(AllocPages(o.value, n)) else Stopped
  }

  /**
   Eight pages taken, 7 and 5 given back, four taken, 6 given back, one taken: all requests are powers of two and only
   pages in use come back. The next one-page request stops the kernel at the assert on the buddy bit, although the
   counter of the region says that two pages are free.
   */
  lemma Trace(ls: seq<Link>)
    requires |ls| == 13 && ls[1] == NONE && ls[9] == NONE
    ensures Ready(NewTwelve(ls)) && AllFit(NewTwelve(ls))
    ensures var r3 := Then(Then(ThenTake(Done(NewTwelve(ls)), 8), 7), 5);
            var r6 := ThenTake(Then(ThenTake(r3, 4), 6), 1);
            && r3.Done? && r6.Done? && AllFit(r6.value) && r6.value.freePages == 2
            && AllocPage(r6.value) == AssertFailed
  {
    TwelveIsReady(ls);
    hide AllocPages, FreePage, AllocPage, AllFit, Twelve, Ready;
    TakeEight(ls);
    var l1 := ls[0 := ls[0].(prev := -1)];
    GiveSeven(l1);
    var l2 := l1[8 := NONE];
    GiveFive(l2);
    var l3 := l2[8 := Link(-1, 5)][6 := Link(7, -1)];
    TakeFour(l3);
    var l4 := l3[8 := NONE];
    GiveSix(l4);
    var l5 := l4[7 := NONE];
    TakeFive(l5);
    StopsAtSeven(l5);
    OneIsOne(Twelve([false, false, true, false], 5, [false, true], 6, false, -1, 3, false, -1, 0, l5, 3));
  }

  /** A request for one page through `alloc_pages` is one through `alloc_page`. */
  lemma OneIsOne(r: Region)
    requires AllFit(r)
    ensures AllocPages(r, 1) == AllocPage(r)
  {
    SmallPowers();
  }

  // ---------- A page that is never freed ----------

  /** With the first zone in use, a request for one page is split off the only block of the second zone. */
  lemma TakeNine(ls: seq<Link>)
    requires |ls| == 13 && ls[9] == NONE
    ensures var r := Twelve(F4, -1, F2, -1, false, -1, 0, true, 0, 4, ls, 4);
            && AllFit(r) && AllocPage(r).Allocated?
            && var (page, r') := AllocPage(r).value;
            && page == 8 && |r'.links| == 13 && r'.links[8] == ls[8].(prev := -1) && r'.freePages == 3
            && AllFit(r')
  {
    SmallPowers();
    SmallShifts();
    NineShifts();
    hide OrderFor, Pow2, BitIndex;
    var r := Twelve(F4, -1, F2, -1, false, -1, 0, true, 0, 4, ls, 4);
    var q := r.zones[1];
    var z := ViewOf(ls, q);
    assert z.links[0] == ls[8] && z.links[1] == NONE;
    var z2 := Pop(z, 2).value.1;
    assert Alloc(z, 2, 2) == Done((0, z2));
    var z1 := Split(z2, 0, 1).value.1;
    assert Alloc(z, 1, 2) == Done((0, z1));
    var z0 := Split(z1, 0, 0).value.1;
    assert Alloc(z, 0, 2) == Done((0, z0));
    assert z0.links[0] == ls[8].(prev := -1);
    StoredAt(ls, q, z0.links, 8);
    assert AllocBlock(ls, r.zones[0], 1) == NoMemory;
    assert Scan(r, 0, 1) == Scan(r, 1, 1);
  }

  lemma NineShifts()
    ensures BitIndex(0, 1) == 0 && BitIndex(0, 0) == 0
  {
    assert ShiftRight(0, 1) == 0 && ShiftRight(0, 0) == 0;
  }

  /**
   From a new region of twelve pages: eight are taken, so that page 7 is in use with one reference. The request for one
   more page sets the flag of page 7, whose last reference then frees nothing.
   */
  lemma LostPage(ls: seq<Link>)
    requires |ls| == 13 && ls[1] == NONE && ls[9] == NONE
    ensures Ready(NewTwelve(ls)) && ThenTake(Done(NewTwelve(ls)), 8).Done?
    ensures var r1 := ThenTake(Done(NewTwelve(ls)), 8).value;
            && |r1.links| == 13 && AllFit(WithLink(r1, 7, Link(1, 0)))
            && var out := AllocPage(WithLink(r1, 7, Link(1, 0)));
            && out.Allocated? && out.value.0 == 8
            && var r2 := out.value.1;
            && |r2.links| == 13 && AllFit(r2) && Count(r2.links[8]) == 1 && Flag(r2.links[8])
            && UnrefPage(r2, 7) == Done(WithLink(r2, 7, Link(0, -1)))
  {
    TwelveIsReady(ls);
    TakeEight(ls);
    var l1 := ls[0 := ls[0].(prev := -1)];
    TakeNine(l1[8 := Link(1, 0)]);
    hide AllocPages, AllocPage, AllFit, Ready;
  }
}
