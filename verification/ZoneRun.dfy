/** Whole runs of one buddy zone: callers that take blocks and give back what they hold. */
module ZoneRun {
  import opened Powers
  import opened BuddyModel
  import opened FreeLists
  import opened BuddySteps
  import opened RegionSteps
  import Zones = BuddyZone

  type Count = n: nat | n > 0 witness 1

  /** Pages are numbered from the first page of the zone. */
  datatype ZoneOp = Take(n: Count) | Give(page: nat, n: Count)

  /**
   `Refused`: the error for too few free pages. `Halted`: the kernel stopped at an assert. `Skipped`: the return of a
   block that nobody holds, which is not made.
   */
  datatype ZoneOut = Got(page: nat) | Refused | Halted | Returned | Skipped

  ghost function All(top: nat): set<nat> { Pages(Block(0, top)) }

  /** What callers hold after a run: a request of n pages gets a block of at least n. */
  ghost function HeldAfter(ops: seq<ZoneOp>, outs: seq<ZoneOut>): set<nat>
    requires |ops| == |outs|
  {
    if ops == [] then {}
    else
      var k := |ops| - 1;
      HeldNext(HeldAfter(ops[..k], outs[..k]), ops[k], outs[k])
  }

  function HeldNext(held: set<nat>, op: ZoneOp, out: ZoneOut): set<nat> {
    if op.Take? && out.Got? then held + Pages(Block(out.page, OrderFor(op.n)))
    else if op.Give? && out.Returned? then held - Pages(Block(op.page, OrderFor(op.n)))
    else held
  }

  /** What the counter of free pages is after a run. */
  function CountAfter(ops: seq<ZoneOp>, outs: seq<ZoneOut>, top: nat): int
    requires |ops| == |outs|
  {
    if ops == [] then Pow2(top)
    else
      var k := |ops| - 1;
      CountNext(CountAfter(ops[..k], outs[..k], top), ops[k], outs[k])
  }

  function CountNext(count: int, op: ZoneOp, out: ZoneOut): int {
    if op.Take? && out.Got? then count - op.n else if op.Give? && out.Returned? then count + op.n else count
  }

  /** The outcome an operation must have, from the pages held and the counter alone. */
  ghost predicate OutcomeOk(held: set<nat>, count: int, op: ZoneOp, out: ZoneOut, top: nat) {
    match op
    case Take(n) =>
      if count < n then out.Refused?
      else if !HasFreeBlock(All(top) - held, OrderFor(n), top) then out.Halted?
      else
        && out.Got? && BlockOk(Block(out.page, OrderFor(n)), top) && Pages(Block(out.page, OrderFor(n))) !! held
    case Give(page, n) =>
      if page + n > Pow2(top) || Pow2(OrderFor(n)) != n then out.Halted?
      else if Aligned(page, OrderFor(n)) && Pages(Block(page, OrderFor(n))) <= held then out.Returned?
      else out.Skipped?
  }

  /** Every outcome is the one due, and nothing follows a stop of the kernel. */
  ghost predicate AllDue(ops: seq<ZoneOp>, outs: seq<ZoneOut>, top: nat) {
    && |outs| <= |ops|
    && (forall k: nat :: k < |outs| ==>
          OutcomeOk(HeldAfter(ops[..k], outs[..k]), CountAfter(ops[..k], outs[..k], top), ops[k], outs[k], top))
    && (forall k: nat :: k < |outs| && outs[k].Halted? ==> k == |outs| - 1)
  }

  predicate Ended(ops: seq<ZoneOp>, outs: seq<ZoneOut>) {
    |outs| >= |ops| || (outs != [] && outs[|outs| - 1].Halted?)
  }

  ghost predicate ZoneRuns(ops: seq<ZoneOp>, outs: seq<ZoneOut>, top: nat) {
    AllDue(ops, outs, top) && Ended(ops, outs)
  }

  lemma DueNext(ops: seq<ZoneOp>, outs: seq<ZoneOut>, out: ZoneOut, top: nat)
    requires AllDue(ops, outs, top) && !Ended(ops, outs)
    requires OutcomeOk(HeldAfter(ops[..|outs|], outs), CountAfter(ops[..|outs|], outs, top), ops[|outs|], out, top)
    ensures AllDue(ops, outs + [out], top)
  {
    hide OutcomeOk, HeldAfter, CountAfter;
    var outs' := outs + [out];
    forall k: nat | k < |outs'|
      ensures OutcomeOk(HeldAfter(ops[..k], outs'[..k]), CountAfter(ops[..k], outs'[..k], top), ops[k], outs'[k], top)
    {
      assert outs'[..k] == outs[..k];
      assert k == |outs| ==> outs[..k] == outs;
    }
  }

  lemma AfterNext(ops: seq<ZoneOp>, outs: seq<ZoneOut>, out: ZoneOut, top: nat)
    requires |outs| < |ops|
    ensures var k := |outs|;
            && HeldAfter(ops[..k + 1], outs + [out]) == HeldNext(HeldAfter(ops[..k], outs), ops[k], out)
            && CountAfter(ops[..k + 1], outs + [out], top) == CountNext(CountAfter(ops[..k], outs, top), ops[k], out)
  {
    var k := |outs|;
    assert ops[..k + 1][..k] == ops[..k] && (outs + [out])[..k] == outs;
  }

  // ---------- The counter ----------

  /** The pages that requests took beyond what they asked for. */
  function Surplus(ops: seq<ZoneOp>, outs: seq<ZoneOut>): nat
    requires |ops| == |outs|
  {
    if ops == [] then 0
    else
      var k := |ops| - 1;
      Surplus(ops[..k], outs[..k]) + Extra(ops[k], outs[k])
  }

  function Extra(op: ZoneOp, out: ZoneOut): nat {
    if op.Take? && out.Got? then Pow2(OrderFor(op.n)) - op.n else 0
  }

  /** In every run the counter is the number of free pages plus the surplus of all requests served so far. */
  lemma {:induction false} CounterDrifts(ops: seq<ZoneOp>, outs: seq<ZoneOut>, top: nat, k: nat)
    requires AllDue(ops, outs, top) && k <= |outs| <= |ops|
    ensures HeldAfter(ops[..k], outs[..k]) <= All(top)
    ensures CountAfter(ops[..k], outs[..k], top) ==
              |All(top) - HeldAfter(ops[..k], outs[..k])| + Surplus(ops[..k], outs[..k])
  {
    hide AllDue, OutcomeOk, HeldNext, CountNext, Extra, Pages, Pow2, All;
    if k == 0 {
      NothingHeld(top);
    } else {
      var i := k - 1;
      CounterDrifts(ops, outs, top, i);
      DueAt(ops, outs, top, i);
      assert ops[..k][..i] == ops[..i] && outs[..k][..i] == outs[..i];
      HeldDrifts(HeldAfter(ops[..i], outs[..i]), CountAfter(ops[..i], outs[..i], top), ops[i], outs[i], top,
                 Surplus(ops[..i], outs[..i]));
    }
  }

  lemma NothingHeld(top: nat)
    ensures |All(top) - {}| == Pow2(top)
  {
    CountPages(Block(0, top));
    assert All(top) - {} == All(top);
  }

  lemma DueAt(ops: seq<ZoneOp>, outs: seq<ZoneOut>, top: nat, k: nat)
    requires AllDue(ops, outs, top) && k < |outs|
    ensures k < |ops|
    ensures OutcomeOk(HeldAfter(ops[..k], outs[..k]), CountAfter(ops[..k], outs[..k], top), ops[k], outs[k], top)
  {
    hide OutcomeOk, HeldAfter, CountAfter;
  }

  /** So the counter is exact as long as every request served asked for a power of two, and not afterwards. */
  lemma {:induction false} NoSurplus(ops: seq<ZoneOp>, outs: seq<ZoneOut>)
    requires |ops| == |outs|
    ensures Surplus(ops, outs) == 0 <==>
              forall k: nat :: k < |ops| && ops[k].Take? && outs[k].Got? ==> Pow2(OrderFor(ops[k].n)) == ops[k].n
  {
    hide OrderFor, Pow2;
    if ops != [] {
      var n := |ops| - 1;
      NoSurplus(ops[..n], outs[..n]);
      assert forall k: nat :: k < n ==> ops[..n][k] == ops[k] && outs[..n][k] == outs[k];
    }
  }

  lemma HeldDrifts(held: set<nat>, count: int, op: ZoneOp, out: ZoneOut, top: nat, surplus: nat)
    requires held <= All(top) && OutcomeOk(held, count, op, out, top) && count == |All(top) - held| + surplus
    ensures HeldNext(held, op, out) <= All(top)
    ensures CountNext(count, op, out) == |All(top) - HeldNext(held, op, out)| + surplus + Extra(op, out)
  {
    hide OrderFor, HasFreeBlock, Pow2, Pages, All, BlockOk;
    if op.Take? && out.Got? {
      var b := Block(out.page, OrderFor(op.n));
      InZone(b, top);
      CountRemoved(All(top) - held, b);
      assert All(top) - (held + Pages(b)) == All(top) - held - Pages(b);
    } else if op.Give? && out.Returned? {
      var b := Block(op.page, OrderFor(op.n));
      CountAdded(All(top) - held, b);
      assert All(top) - (held - Pages(b)) == All(top) - held + Pages(b);
    }
  }

  lemma InZone(b: Block, top: nat)
    requires BlockOk(b, top)
    ensures Pages(b) <= All(top)
  {
    forall x | x in Pages(b) ensures x in All(top) {
      assert Block(0, top).Has(x);
    }
  }

  // ---------- The zone ----------

  /** The zone lists exactly the pages that nobody holds. */
  ghost predicate Lists(zone: Zones.BuddyZone, lists: seq<seq<nat>>, held: set<nat>)
    reads zone.orders, zone.links
  {
    && zone.Shape() && InOrder(zone.View(), lists, zone.highestOrder)
    && held <= All(zone.highestOrder) && FreePages(lists) == All(zone.highestOrder) - held
  }

  /** A block of n pages that fits into the zone and is aligned. */
  lemma BlockFits(page: nat, n: nat, top: nat)
    requires n > 0 && Pow2(OrderFor(n)) == n && Aligned(page, OrderFor(n)) && page + n <= Pow2(top)
    ensures BlockOk(Block(page, OrderFor(n)), top)
  {
    if OrderFor(n) > top {
      Pow2Monotone(top, OrderFor(n));
    }
  }

  /** The same on the links and the part of the zone as values. */
  lemma ListsAre(zone: Zones.BuddyZone, lists: seq<seq<nat>>, held: set<nat>)
    requires zone.Shape() && Fits(zone.links[..], zone.AsPart())
    ensures zone.AsPart().freePages == zone.freePages
    ensures Lists(zone, lists, held) <==>
              && InOrder(ViewOf(zone.links[..], zone.AsPart()), lists, zone.highestOrder)
              && held <= All(zone.highestOrder) && FreePages(lists) == All(zone.highestOrder) - held
  {
    assert zone.View() == ViewOf(zone.links[..], zone.AsPart());
  }

  lemma ZoneFits(zone: Zones.BuddyZone, lists: seq<seq<nat>>, held: set<nat>)
    requires Lists(zone, lists, held)
    ensures zone.Shape() && Fits(zone.links[..], zone.AsPart())
  {
  }

  method TakeBlock(zone: Zones.BuddyZone, n: Count, held: set<nat>, ghost lists: seq<seq<nat>>)
    returns (out: ZoneOut, ghost lists': seq<seq<nat>>)
    requires Lists(zone, lists, held)
    modifies zone`freePages, zone.orders, zone.links
    ensures OutcomeOk(held, old(zone.freePages), Take(n), out, zone.highestOrder)
    ensures Lists(zone, lists', HeldNext(held, Take(n), out))
            && zone.freePages == CountNext(old(zone.freePages), Take(n), out)
  {
    hide Lists, OrderFor, Pow2, InOrder, HasFreeBlock, Pages, FreePages, ViewOf, Fits, AllocBlock, BlockOk, All;
    hide Zones.BuddyZone.AsPart, Zones.BuddyZone.View, Zones.BuddyZone.Shape;
    ghost var top := zone.highestOrder;
    ZoneFits(zone, lists, held);
    ListsAre(zone, lists, held);
    lists' := TakeFacts(zone, lists, held, n);
    var r := zone.AllocBlock(n);
    ghost var b := if r.Allocated? then Block(r.value - zone.firstPage, OrderFor(n)) else Block(0, 0);
    out := if r.Allocated? then Got(r.value - zone.firstPage) else if r.NoMemory? then Refused else Halted;
    assert r.Allocated? ==> All(top) - held - Pages(b) == All(top) - (held + Pages(b));
    ListsAre(zone, lists', HeldNext(held, Take(n), out));
  }

  method GiveBlock(zone: Zones.BuddyZone, page: nat, n: Count, held: set<nat>, ghost lists: seq<seq<nat>>)
    returns (ghost lists': seq<seq<nat>>)
    requires Lists(zone, lists, held) && page + n <= zone.numPages && Pow2(OrderFor(n)) == n
    requires Aligned(page, OrderFor(n)) && Pages(Block(page, OrderFor(n))) <= held
    modifies zone`freePages, zone.orders, zone.links
    ensures Lists(zone, lists', held - Pages(Block(page, OrderFor(n)))) && zone.freePages == old(zone.freePages) + n
  {
    hide Lists, OrderFor, Pow2, InOrder, Pages, FreePages, ViewOf, Fits, FreeBlock, All;
    hide Zones.BuddyZone.AsPart, Zones.BuddyZone.View, Zones.BuddyZone.Shape;
    ZoneFits(zone, lists, held);
    ListsAre(zone, lists, held);
    lists' := GiveFacts(zone, lists, held, page, n);
    var r := zone.FreeBlock(zone.firstPage + page, n);
    ListsAre(zone, lists', held - Pages(Block(page, OrderFor(n))));
  }

  /** One operation of a caller. */
  method Perform(zone: Zones.BuddyZone, op: ZoneOp, held: set<nat>, ghost lists: seq<seq<nat>>)
    returns (out: ZoneOut, ghost lists': seq<seq<nat>>)
    requires Lists(zone, lists, held)
    modifies zone`freePages, zone.orders, zone.links
    ensures OutcomeOk(held, old(zone.freePages), op, out, zone.highestOrder)
    ensures Lists(zone, lists', HeldNext(held, op, out)) && zone.freePages == CountNext(old(zone.freePages), op, out)
  {
    hide OrderFor, Pow2, Pages, Aligned, Lists, ViewOf, Fits;
    ZoneFits(zone, lists, held);
    ListsAre(zone, lists, held);
    lists' := lists;
    match op
    case Take(n) =>
      out, lists' := TakeBlock(zone, n, held, lists);
    case Give(page, n) =>
      if page + n > zone.numPages || Pow2(OrderFor(n)) != n {
        var r := zone.FreeBlock(zone.firstPage + page, n);
        ListsAre(zone, lists, held);
        out := Halted;
      } else if Aligned(page, OrderFor(n)) && Pages(Block(page, OrderFor(n))) <= held {
        lists' := GiveBlock(zone, page, n, held, lists);
        out := Returned;
      } else {
        out := Skipped;
      }
  }

  lemma TakeFacts(zone: Zones.BuddyZone, lists: seq<seq<nat>>, held: set<nat>, n: Count) returns (lists': seq<seq<nat>>)
    requires Lists(zone, lists, held)
    ensures var top, out := zone.highestOrder, AllocBlock(zone.links[..], zone.AsPart(), n);
            && !out.WildAccess? && !out.Invalid? && (out.NoMemory? <==> zone.freePages < n)
            && (out.AssertFailed? <==> zone.freePages >= n && !HasFreeBlock(All(top) - held, OrderFor(n), top))
            && (!out.Allocated? ==> lists' == lists)
            && (out.Allocated? ==>
                  var (page, links, part) := out.value;
                  var b := Block(page - zone.firstPage, OrderFor(n));
                  && page >= zone.firstPage && BlockOk(b, top) && Pages(b) !! held && Pages(b) <= All(top)
                  && Fits(links, part) && part.first == zone.firstPage && part.top == top
                  && part.freePages == zone.freePages - n && |part.orders| == MAX_ORDER + 1
                  && InOrder(ViewOf(links, part), lists', top) && FreePages(lists') == All(top) - held - Pages(b))
  {
    hide OrderFor, Alloc, InOrder, HasFreeBlock, Pages, FreePages, Stored, Pow2;
    var p := zone.AsPart();
    var z := ViewOf(zone.links[..], p);
    assert z == zone.View();
    lists' := AllocKeeps(z, lists, OrderFor(n), p.top);
    AllocComplete(z, lists, OrderFor(n), p.top);
    if Alloc(z, OrderFor(n), p.top).Done? && zone.freePages >= n {
      var (b, z') := Alloc(z, OrderFor(n), p.top).value;
      ViewItself(zone.links[..], p, z'.links, z'.orders);
      InZone(Block(b, OrderFor(n)), p.top);
    } else {
      lists' := lists;
    }
  }

  lemma GiveFacts(zone: Zones.BuddyZone, lists: seq<seq<nat>>, held: set<nat>, page: nat, n: Count)
    returns (lists': seq<seq<nat>>)
    requires Lists(zone, lists, held) && page + n <= zone.numPages && Pow2(OrderFor(n)) == n
    requires Aligned(page, OrderFor(n)) && Pages(Block(page, OrderFor(n))) <= held
    ensures var top, out := zone.highestOrder, FreeBlock(zone.links[..], zone.AsPart(), zone.firstPage + page, n);
            && out.Done?
            && var (links, part) := out.value;
            && Fits(links, part) && part.first == zone.firstPage && part.top == top
            && part.freePages == zone.freePages + n && |part.orders| == MAX_ORDER + 1
            && InOrder(ViewOf(links, part), lists', top)
            && FreePages(lists') == All(top) - (held - Pages(Block(page, OrderFor(n))))
  {
    hide OrderFor, Free, InOrder, Pages, FreePages, Stored, Pow2;
    var p := zone.AsPart();
    var z := ViewOf(zone.links[..], p);
    assert z == zone.View();
    BlockFits(page, n, p.top);
    lists' := FreeKeeps(z, lists, page, OrderFor(n), p.top);
    var z' := Free(z, page, OrderFor(n), p.top).value;
    ViewItself(zone.links[..], p, z'.links, z'.orders);
  }

  /**
   Any run on a new zone. Every request gets a block that nobody holds, is refused, or stops the kernel, each exactly
   when it must; the zone lists exactly the pages not held, and with all pages back it is one block again.
   */
  method Run(zone: Zones.BuddyZone, ops: seq<ZoneOp>) returns (outs: seq<ZoneOut>, ghost lists: seq<seq<nat>>)
    requires zone.Shape() && zone.freePages == zone.numPages && zone.links[zone.firstPage + 1] == Link(-1, -1)
    requires zone.orders[..] == NewOrders(zone.highestOrder, MAX_ORDER + 1)
    modifies zone`freePages, zone.orders, zone.links
    ensures ZoneRuns(ops, outs, zone.highestOrder)
    ensures Lists(zone, lists, HeldAfter(ops[..|outs|], outs))
    ensures zone.freePages == CountAfter(ops[..|outs|], outs, zone.highestOrder)
    ensures HeldAfter(ops[..|outs|], outs) == {} ==> lists == NewLists(zone.highestOrder)
  {
    hide OutcomeOk, Pages, HeldNext, CountNext, Lists, NewOrders, NewLists, Pow2, OrderFor;
    NewIsListed(zone);
    lists := NewLists(zone.highestOrder);
    outs := [];
    var held: set<nat> := {};
    assert ops[..0] == [];
    assert AllDue(ops, outs, zone.highestOrder);
    hide AllDue;
    while !Ended(ops, outs)
      invariant |outs| <= |ops| && held == HeldAfter(ops[..|outs|], outs) && Lists(zone, lists, held)
      invariant zone.freePages == CountAfter(ops[..|outs|], outs, zone.highestOrder)
      invariant AllDue(ops, outs, zone.highestOrder)
      decreases |ops| - |outs|
    {
      var k := |outs|;
      var out;
      out, lists := Perform(zone, ops[k], held, lists);
      AfterNext(ops, outs, out, zone.highestOrder);
      DueNext(ops, outs, out, zone.highestOrder);
      held := HeldNext(held, ops[k], out);
      outs := outs + [out];
    }
    AllBack(zone, lists, held);
  }

  lemma NewIsListed(zone: Zones.BuddyZone)
    requires zone.Shape() && zone.links[zone.firstPage + 1] == Link(-1, -1)
    requires zone.orders[..] == NewOrders(zone.highestOrder, MAX_ORDER + 1)
    ensures Lists(zone, NewLists(zone.highestOrder), {})
  {
    hide InOrder, Pages, FreePages, NewOrders, NewLists;
    NewKeeps(zone.View(), zone.highestOrder);
    assert All(zone.highestOrder) - {} == All(zone.highestOrder);
  }

  lemma AllBack(zone: Zones.BuddyZone, lists: seq<seq<nat>>, held: set<nat>)
    requires Lists(zone, lists, held)
    ensures held == {} ==> lists == NewLists(zone.highestOrder)
  {
    if held == {} {
      assert All(zone.highestOrder) - held == All(zone.highestOrder);
      Coalesced(zone.View(), lists, zone.highestOrder);
    }
  }
}
