/**
 What `kernel/memory/BuddyZone.cpp` does to a zone, as functions: its buckets and the links of its pages go in and
 come out. They are defined on any contents of the tables, also on those the code does not expect; on a zone in order
 they are shown to take and give back blocks and to keep the order.
 */
module BuddySteps {
  import opened Powers
  import opened BuddyModel
  import opened FreeLists

  /** A bucket of a zone: its buddy bits and the first block of its free list (-1: none). */
  datatype BuddyOrder = BuddyOrder(blockMap: seq<bool>, freelist: int)

  /** Link b + 1 is that of page b of the zone; link 0 is that of the page before the zone. */
  datatype Zone = Zone(orders: seq<BuddyOrder>, links: seq<Link>)

  /** `Stopped`: the kernel stopped at an assert. `Wild`: it left the tables of the zone. */
  datatype Outcome<T> = Done(value: T) | Stopped | Wild

  function BitIndex(b: nat, order: nat): nat { ShiftRight(b, order) / 2 }

  predicate HasBit(z: Zone, b: int, order: nat)
    requires order < |z.orders|
  {
    0 <= b && BitIndex(b, order) < |z.orders[order].blockMap|
  }

  predicate HasLink(z: Zone, b: int) { -1 <= b && b + 1 < |z.links| }

  /** The first block of a list, whose bit must be MIXED, is taken off it. */
  function Pop(z: Zone, order: nat): (r: Outcome<(nat, Zone)>)
    requires order < |z.orders|
    ensures r.Done? ==> SameShape(z, r.value.1)
  {
    var bucket := z.orders[order];
    var b := bucket.freelist;
    if !HasBit(z, b, order) then Wild
    else if !bucket.blockMap[BitIndex(b, order)] then Stopped
    else if !HasLink(z, b) || !HasLink(z, z.links[b + 1].next) then Wild
    else
      var bucket' := BuddyOrder(bucket.blockMap[BitIndex(b, order) := false], z.links[b + 1].next);
      Done((b, Zone(z.orders[order := bucket'], PopLinks(z.links, b))))
  }

  ghost predicate SameShape(z: Zone, z': Zone) {
    |z'.orders| == |z.orders| && |z'.links| == |z.links|
  }

  /** The second half of block h becomes the only block of its list. */
  function Split(z: Zone, h: nat, order: nat): (r: Outcome<(nat, Zone)>)
    requires order < |z.orders|
    ensures !r.Stopped? && (r.Done? ==> r.value.0 == h && SameShape(z, r.value.1))
  {
    var second := h + Pow2(order);
    if !HasBit(z, h, order) || !HasLink(z, second) then Wild
    else
      var bucket' := BuddyOrder(z.orders[order].blockMap[BitIndex(h, order) := true], second);
      Done((h, Zone(z.orders[order := bucket'], z.links[second + 1 := Link(-1, -1)])))
  }

  /** `alloc_block_internal`. */
  function Alloc(z: Zone, order: nat, top: nat): (r: Outcome<(nat, Zone)>)
    requires top < |z.orders|
    ensures r.Done? ==> SameShape(z, r.value.1)
    decreases if order <= top then top + 1 - order else 0
  {
    if order > top then Stopped
    else if z.orders[order].freelist == -1 then
      var up := Alloc(z, order + 1, top);
      if up.Done? then Split(up.value.1, up.value.0, order) else up
    else Pop(z, order)
  }

  /** `remove_from_freelist`; the head of a list must have nothing before it. */
  function Unlink(z: Zone, b: nat, order: nat): (r: Outcome<Zone>)
    requires order < |z.orders|
    ensures r.Done? ==> SameShape(z, r.value)
  {
    if !HasLink(z, b) || !HasLink(z, z.links[b + 1].next) then Wild
    else
      var links1 := UnlinkNext(z.links, b);
      if links1[b + 1].prev < -1 || links1[b + 1].prev + 1 >= |links1| then Wild
      else
        var links2 := UnlinkPrev(links1, b);
        var bucket := z.orders[order];
        if bucket.freelist != b then Done(Zone(z.orders, links2))
        else if links2[b + 1].prev != -1 then Stopped
        else Done(Zone(z.orders[order := bucket.(freelist := links2[b + 1].next)], links2))
  }

  /** The block goes in front of its list and its bit becomes MIXED. */
  function Push(z: Zone, b: nat, order: nat): (r: Outcome<Zone>)
    requires order < |z.orders|
    ensures !r.Stopped? && (r.Done? ==> SameShape(z, r.value))
  {
    var bucket := z.orders[order];
    if !HasBit(z, b, order) || !HasLink(z, b) || !HasLink(z, bucket.freelist) then Wild
    else
      var bucket' := BuddyOrder(bucket.blockMap[BitIndex(b, order) := true], b);
      Done(Zone(z.orders[order := bucket'], PushLinks(z.links, bucket.freelist, b)))
  }

  function ClearBit(z: Zone, b: nat, order: nat): (z': Zone)
    requires order < |z.orders| && HasBit(z, b, order)
    ensures SameShape(z, z')
  {
    var bucket := z.orders[order];
    z.(orders := z.orders[order := bucket.(blockMap := bucket.blockMap[BitIndex(b, order) := false])])
  }

  function PairStart(b: nat, order: nat): nat { ShiftLeft(BitIndex(b, order), order + 1) }

  function BuddyStart(b: nat, order: nat): nat {
    if b == PairStart(b, order) then b + Pow2(order) else PairStart(b, order)
  }

  /** `free_block_internal`. */
  function Free(z: Zone, b: nat, order: nat, top: nat): (r: Outcome<Zone>)
    requires top < |z.orders|
    ensures r.Done? ==> SameShape(z, r.value)
    decreases if order <= top then top + 1 - order else 0
  {
    if order > top then Stopped
    else if !HasBit(z, b, order) then Wild
    else if z.orders[order].blockMap[BitIndex(b, order)] then
      var z' := Unlink(ClearBit(z, b, order), BuddyStart(b, order), order);
      if z'.Done? then Free(z'.value, PairStart(b, order), order + 1, top) else z'
    else Push(z, b, order)
  }

  // ---------- Zones in order ----------

  ghost function Heads(z: Zone): seq<int> {
    seq(|z.orders|, o requires 0 <= o < |z.orders| => z.orders[o].freelist)
  }

  ghost function Bits(z: Zone): seq<seq<bool>> {
    seq(|z.orders|, o requires 0 <= o < |z.orders| => z.orders[o].blockMap)
  }

  /** The lists that the links spell are those given; their blocks lie apart, and the bits are theirs. */
  ghost predicate InOrder(z: Zone, lists: seq<seq<nat>>, top: nat) {
    && |z.orders| > top && |z.links| == Pow2(top) + 1 && |lists| == top + 1
    && Chains(z.links, lists, Heads(z)) && ZoneOk(Listed(lists), Bits(z), top)
  }

  ghost function FreePages(lists: seq<seq<nat>>): set<nat> { FreeSet(Listed(lists)) }

  lemma PushKeeps(z: Zone, lists: seq<seq<nat>>, top: nat, b: nat, order: nat)
    requires InOrder(z, lists, top) && BlockOk(Block(b, order), top) && Pages(Block(b, order)) !! FreePages(lists)
    requires order < top ==> Buddy(Block(b, order)) !in Listed(lists)
    ensures Push(z, b, order).Done?
    ensures var lists' := lists[order := [b] + lists[order]];
            && InOrder(Push(z, b, order).value, lists', top)
            && FreePages(lists') == FreePages(lists) + Pages(Block(b, order))
            && Push(z, b, order).value.links[0] == z.links[0]
  {
    hide ZoneOk, FreeSet, Linked;
    var bits, free := Bits(z), Listed(lists);
    AddBlock(free, bits, top, Block(b, order));
    assert Chain(z.links, lists[order], Heads(z)[order]);
    var bucket := z.orders[order];
    NotListed(lists, Block(b, order));
    PushChain(z.links, lists[order], bucket.freelist, b);
    OtherChains(z.links, PushLinks(z.links, bucket.freelist, b), lists, Heads(z), order, bits, top);
    ListedAfterPush(lists, order, b);
    assert bits[order] == bucket.blockMap;
    var z' := Push(z, b, order).value;
    assert Bits(z') == SetBit(bits, Block(b, order), true);
    PushChains(z, lists, top, b, order, z');
  }

  lemma PushChains(z: Zone, lists: seq<seq<nat>>, top: nat, b: nat, order: nat, z': Zone)
    requires |lists| == top + 1 && order <= top < |z.orders| && Push(z, b, order) == Done(z')
    requires Chain(z'.links, [b] + lists[order], b)
    requires forall q: nat :: q < |lists| && q != order ==> Chain(z'.links, lists[q], Heads(z)[q])
    ensures Chains(z'.links, lists[order := [b] + lists[order]], Heads(z'))
  {
    hide Chain;
  }

  lemma PopKeeps(z: Zone, lists: seq<seq<nat>>, top: nat, order: nat)
    requires InOrder(z, lists, top) && order <= top && lists[order] != []
    ensures Pop(z, order).Done? && Pop(z, order).value.0 == lists[order][0]
    ensures var b, z' := Block(lists[order][0], order), Pop(z, order).value.1;
            var lists' := lists[order := lists[order][1..]];
            && BlockOk(b, top) && InOrder(z', lists', top)
            && Pages(b) <= FreePages(lists) && FreePages(lists') == FreePages(lists) - Pages(b)
            && z'.links[0] == if |lists[order]| == 1 then z.links[0].(prev := -1) else z.links[0]
  {
    hide ZoneOk, FreeSet;
    var bits, free := Bits(z), Listed(lists);
    assert Chain(z.links, lists[order], Heads(z)[order]);
    assert Linked(z.links, lists[order], 0);
    assert |lists[order]| > 1 ==> Linked(z.links, lists[order], 1);
    hide Linked;
    var b := z.orders[order].freelist;
    assert Block(b, order) in free;
    RemoveBlock(free, bits, top, Block(b, order));
    FreeBitIsMixed(free, bits, top, Block(b, order));
    assert bits[order] == z.orders[order].blockMap;
    ListedAfterRemove(lists, order, 0);
    assert Without(lists[order], 0) == lists[order][1..];
    PopChain(z.links, lists[order], b);
    OtherChains(z.links, PopLinks(z.links, b), lists, Heads(z), order, bits, top);
    var z' := Pop(z, order).value.1;
    assert Bits(z') == SetBit(bits, Block(b, order), false);
    PopChains(z, lists, top, order, z');
  }

  lemma PopChains(z: Zone, lists: seq<seq<nat>>, top: nat, order: nat, z': Zone)
    requires |lists| == top + 1 && order <= top < |z.orders| && lists[order] != []
    requires Pop(z, order).Done? && Pop(z, order).value.1 == z'
    requires Chain(z'.links, lists[order][1..], z'.orders[order].freelist)
    requires forall q: nat :: q < |lists| && q != order ==> Chain(z'.links, lists[q], Heads(z)[q])
    ensures Chains(z'.links, lists[order := lists[order][1..]], Heads(z'))
  {
    hide Chain;
  }

  /** Splitting is pushing the second half, since the list is empty and both halves share a bit. */
  lemma SplitKeeps(z: Zone, lists: seq<seq<nat>>, top: nat, h: nat, order: nat)
    requires InOrder(z, lists, top) && order < top && lists[order] == []
    requires BlockOk(Block(h, order + 1), top) && Pages(Block(h, order + 1)) !! FreePages(lists)
    ensures Split(z, h, order).Done? && Split(z, h, order).value.0 == h
    ensures var z' := Split(z, h, order).value.1;
            var lists' := lists[order := [h + Pow2(order)]];
            && InOrder(z', lists', top) && BlockOk(Block(h, order), top)
            && FreePages(lists') == FreePages(lists) + Pages(Block(h, order + 1)) - Pages(Block(h, order))
            && z'.links[0] == z.links[0]
  {
    hide ZoneOk, FreeSet;
    Halves(h, order, top);
    var second := h + Pow2(order);
    assert Block(h, order) !in Listed(lists) by { NotListed(lists, Block(h, order)); }
    PushKeeps(z, lists, top, second, order);
    assert Chain(z.links, lists[order], Heads(z)[order]);
    AlignedShifts(h, order + 1);
    PairOfHalves(ShiftRight(h, order + 1), order);
    ShiftRightNext(h, order);
    ShiftRightNext(second, order);
    assert BitIndex(h, order) == BitIndex(second, order);
    assert Push(z, second, order).value == Split(z, h, order).value.1;
    assert [second] + lists[order] == [second];
  }

  /** Clearing the bit of a pair and unlinking its free half. */
  lemma TakeKeeps(z: Zone, lists: seq<seq<nat>>, top: nat, order: nat, k: nat, b: nat)
    requires InOrder(z, lists, top) && order <= top && k < |lists[order]|
    requires BitIndex(b, order) == BitIndex(lists[order][k], order)
    ensures HasBit(z, b, order) && Unlink(ClearBit(z, b, order), lists[order][k], order).Done?
    ensures var c, z' := Block(lists[order][k], order), Unlink(ClearBit(z, b, order), lists[order][k], order).value;
            var lists' := lists[order := Without(lists[order], k)];
            && InOrder(z', lists', top)
            && Pages(c) <= FreePages(lists) && FreePages(lists') == FreePages(lists) - Pages(c)
            && z'.links[0] == z.links[0]
  {
    hide ZoneOk, FreeSet, UnlinkNext, UnlinkPrev;
    var bits, free, c := Bits(z), Listed(lists), lists[order][k];
    assert c in lists[order] && Block(c, order) in free;
    RemoveBlock(free, bits, top, Block(c, order));
    assert bits[order] == z.orders[order].blockMap;
    assert Chain(z.links, lists[order], Heads(z)[order]);
    assert Linked(z.links, lists[order], k) && (k > 0 ==> lists[order][k - 1] != c && lists[order][0] != c);
    hide Linked;
    ListedAfterRemove(lists, order, k);
    UnlinkBounds(z.links, lists[order], Heads(z)[order], k);
    UnlinkedElsewhere(z.links, lists[order], Heads(z)[order], k);
    UnlinkChain(z.links, lists[order], Heads(z)[order], k);
    var links' := UnlinkPrev(UnlinkNext(z.links, c), c);
    OtherChains(z.links, links', lists, Heads(z), order, bits, top);
    var z' := Unlink(ClearBit(z, b, order), c, order).value;
    assert Bits(z') == SetBit(bits, Block(c, order), false);
    TakeChains(z, lists, top, order, k, z');
  }

  lemma TakeChains(z: Zone, lists: seq<seq<nat>>, top: nat, order: nat, k: nat, z': Zone)
    requires |lists| == top + 1 && order <= top < |z.orders| && k < |lists[order]| && |z'.orders| == |z.orders|
    requires forall q: nat :: q < |z.orders| && q != order ==> z'.orders[q].freelist == z.orders[q].freelist
    requires Chain(z'.links, Without(lists[order], k), z'.orders[order].freelist)
    requires forall q: nat :: q < |lists| && q != order ==> Chain(z'.links, lists[q], Heads(z)[q])
    ensures Chains(z'.links, lists[order := Without(lists[order], k)], Heads(z'))
  {
    hide Chain, Without;
  }

  // ---------- Taking and giving back ----------

  /** The first order from `order` on whose list is not empty. */
  ghost function FirstOrder(lists: seq<seq<nat>>, order: nat): (o: nat)
    ensures order <= o && (o < |lists| ==> lists[o] != [])
    ensures forall q: nat :: order <= q < o && q < |lists| ==> lists[q] == []
    decreases |lists| - order
  {
    if order >= |lists| then order else if lists[order] != [] then order else FirstOrder(lists, order + 1)
  }

  /** The link of the page before the zone is written exactly when the list that serves a request is left empty. */
  ghost predicate Empties(lists: seq<seq<nat>>, order: nat) {
    var o := FirstOrder(lists, order);
    o < |lists| && |lists[o]| == 1
  }

  ghost function Clipped(link: Link, empties: bool): Link {
    if empties then link.(prev := -1) else link
  }

  /**
   `alloc_block_internal` stops just when no list from the order on has a block; else it takes a block of free pages.
   */
  lemma {:induction false} AllocKeeps(z: Zone, lists: seq<seq<nat>>, order: nat, top: nat)
    returns (lists': seq<seq<nat>>)
    requires InOrder(z, lists, top)
    ensures Alloc(z, order, top).Stopped? <==> FirstOrder(lists, order) >= |lists|
    ensures Alloc(z, order, top).Stopped? || Alloc(z, order, top).Done?
    ensures Alloc(z, order, top).Done? ==>
              var (b, z') := Alloc(z, order, top).value;
              && BlockOk(Block(b, order), top) && InOrder(z', lists', top)
              && Pages(Block(b, order)) <= FreePages(lists)
              && FreePages(lists') == FreePages(lists) - Pages(Block(b, order))
              && (forall q: nat :: q < order && q < |lists| ==> lists'[q] == lists[q])
              && z'.links[0] == Clipped(z.links[0], Empties(lists, order))
    decreases if order <= top then top + 1 - order else 0
  {
    hide ZoneOk, FreeSet, Chains, Split, Pop;
    lists' := lists;
    if order <= top {
      HeadIs(z, lists, top, order);
      if lists[order] == [] {
        lists' := AllocKeeps(z, lists, order + 1, top);
        var up := Alloc(z, order + 1, top);
        if up.Done? {
          var (h, z1) := up.value;
          SplitKeeps(z1, lists', top, h, order);
          lists' := lists'[order := [h + Pow2(order)]];
        }
      } else {
        PopKeeps(z, lists, top, order);
        lists' := lists[order := lists[order][1..]];
      }
    }
  }

  lemma HeadIs(z: Zone, lists: seq<seq<nat>>, top: nat, order: nat)
    requires InOrder(z, lists, top) && order <= top
    ensures z.orders[order].freelist == -1 <==> lists[order] == []
  {
    assert Chain(z.links, lists[order], Heads(z)[order]);
  }

  /** `free_block_internal` makes exactly the pages of the block free, merging it with its buddy as far as that goes. */
  lemma {:induction false} FreeKeeps(z: Zone, lists: seq<seq<nat>>, b: nat, order: nat, top: nat)
    returns (lists': seq<seq<nat>>)
    requires InOrder(z, lists, top) && BlockOk(Block(b, order), top) && Pages(Block(b, order)) !! FreePages(lists)
    ensures Free(z, b, order, top).Done?
    ensures var z' := Free(z, b, order, top).value;
            && InOrder(z', lists', top) && FreePages(lists') == FreePages(lists) + Pages(Block(b, order))
            && z'.links[0] == z.links[0]
    decreases top - order
  {
    hide ZoneOk, FreeSet, Chains, Unlink, Push, ClearBit;
    var c := Block(b, order);
    MixedMeansBuddyFree(Listed(lists), Bits(z), top, c);
    assert Bits(z)[order] == z.orders[order].blockMap;
    if z.orders[order].blockMap[BitIndex(b, order)] {
      BuddyHalves(c, top);
      BuddyTwice(c);
      var k := ListedAt(lists, Buddy(c));
      TakeKeeps(z, lists, top, order, k, b);
      lists' := lists[order := Without(lists[order], k)];
      var z' := Unlink(ClearBit(z, b, order), BuddyStart(b, order), order).value;
      lists' := FreeKeeps(z', lists', PairStart(b, order), order + 1, top);
    } else {
      PushKeeps(z, lists, top, b, order);
      lists' := lists[order := [b] + lists[order]];
    }
  }

  lemma ListedAt(lists: seq<seq<nat>>, b: Block) returns (k: nat)
    requires b in Listed(lists)
    ensures b.order < |lists| && k < |lists[b.order]| && lists[b.order][k] == b.start
  {
    assert b.order < |lists| && b.start in lists[b.order];
    k :| k < |lists[b.order]| && lists[b.order][k] == b.start;
  }

  /** Some aligned block of 2^order pages is free as a whole. */
  ghost predicate HasFreeBlock(free: set<nat>, order: nat, top: nat) {
    exists b: nat :: BlockOk(Block(b, order), top) && Pages(Block(b, order)) <= free
  }

  /** A request is served exactly when some aligned block of its size is free as a whole. */
  lemma AllocComplete(z: Zone, lists: seq<seq<nat>>, order: nat, top: nat)
    requires InOrder(z, lists, top)
    ensures Alloc(z, order, top).Done? <==> HasFreeBlock(FreePages(lists), order, top)
  {
    hide ZoneOk, FreeSet, Chains, Alloc;
    var lists' := AllocKeeps(z, lists, order, top);
    if b: nat :| BlockOk(Block(b, order), top) && Pages(Block(b, order)) <= FreePages(lists) {
      var c := FreeBlockWhole(Listed(lists), Bits(z), top, Block(b, order));
      var k := ListedAt(lists, c);
    }
  }

  // ---------- A new zone ----------

  function NewOrders(top: nat, n: nat): (orders: seq<BuddyOrder>)
    requires top < n
    ensures |orders| == n
  {
    seq(n, o requires 0 <= o < n =>
      if o > top then BuddyOrder([], -1)
      else if o == top then BuddyOrder([true], 0)
      else BuddyOrder(seq(NumPairs(o, top), _ => false), -1))
  }

  ghost function NewLists(top: nat): seq<seq<nat>> {
    seq(top, _ => []) + [[0]]
  }

  lemma NewKeeps(z: Zone, top: nat)
    requires top < |z.orders| && z.orders == NewOrders(top, |z.orders|)
    requires |z.links| == Pow2(top) + 1 && z.links[1] == Link(-1, -1)
    ensures InOrder(z, NewLists(top), top) && FreePages(NewLists(top)) == Pages(Block(0, top))
  {
    hide ZoneOk, Chains, FreeSet, Listed, NewOrders, Pages, NumPairs;
    NewTables(z, top);
    InitialZone(NewLists(top), Bits(z), top);
    InitialChains(z.links, NewLists(top), Heads(z), top);
  }

  lemma NewTables(z: Zone, top: nat)
    requires top < |z.orders| && z.orders == NewOrders(top, |z.orders|)
    ensures forall o: nat :: o <= top ==> |Bits(z)[o]| == NumPairs(o, top)
    ensures forall o: nat, j: nat :: o < top && j < |Bits(z)[o]| ==> !Bits(z)[o][j]
    ensures |Bits(z)[top]| > 0 && Bits(z)[top][0] && Heads(z)[top] == 0
            && forall o: nat :: o < top ==> Heads(z)[o] == -1
  {
    assert NumPairs(top, top) == 1;
    hide NumPairs;
    assert forall o: nat :: o < |z.orders| ==>
             Bits(z)[o] == z.orders[o].blockMap && Heads(z)[o] == z.orders[o].freelist;
  }

  /** With every page free, the lists are those of a new zone. */
  lemma Coalesced(z: Zone, lists: seq<seq<nat>>, top: nat)
    requires InOrder(z, lists, top) && FreePages(lists) == Pages(Block(0, top))
    ensures lists == NewLists(top)
  {
    forall x: nat | x < Pow2(top)
      ensures x in FreeSet(Listed(lists))
    {
      assert Block(0, top).Has(x);
    }
    FullyFreeLists(z.links, lists, Heads(z), Bits(z), top);
  }

  // ---------- The last page of a zone ----------

  /** The zone after something else cleared the back link of its last page. */
  function ClipLast(z: Zone): Zone
    requires z.links != []
  {
    var n := |z.links| - 1;
    z.(links := z.links[n := z.links[n].(prev := -1)])
  }

  /** The last page is on the order-0 list, behind another page. */
  ghost predicate LastIsBehind(lists: seq<seq<nat>>, top: nat) {
    lists != [] && lists[0] != [] && Pow2(top) - 1 in lists[0][1..]
  }

  /** Only a block of order 0 can start at the last page. */
  lemma LastPageOrder(lists: seq<seq<nat>>, bits: seq<seq<bool>>, top: nat, q: nat)
    requires ZoneOk(Listed(lists), bits, top) && q < |lists| && Pow2(top) - 1 in lists[q]
    ensures q == 0
  {
    assert Block(Pow2(top) - 1, q) in Listed(lists);
    assert BlockOk(Block(Pow2(top) - 1, q), top);
  }

  /** A cleared back link leaves the zone in order exactly when the last page was not on a list behind another. */
  lemma ClipKeeps(z: Zone, lists: seq<seq<nat>>, top: nat)
    requires InOrder(z, lists, top)
    ensures InOrder(ClipLast(z), lists, top) <==> !LastIsBehind(lists, top)
  {
    var z', last := ClipLast(z), Pow2(top) - 1;
    assert Heads(z') == Heads(z) && Bits(z') == Bits(z);
    if LastIsBehind(lists, top) {
      var k: nat :| k < |lists[0]| - 1 && lists[0][1..][k] == last;
      assert lists[0][k + 1] == last;
      assert Chain(z.links, lists[0], Heads(z)[0]) && Linked(z.links, lists[0], k + 1);
      assert !Linked(z'.links, lists[0], k + 1);
      assert !Chain(z'.links, lists[0], Heads(z')[0]);
    } else {
      forall q: nat | q < |lists| ensures Chain(z'.links, lists[q], Heads(z')[q]) {
        assert Chain(z.links, lists[q], Heads(z)[q]);
        forall i: nat | i < |lists[q]| ensures Linked(z'.links, lists[q], i) {
          assert Linked(z.links, lists[q], i);
          assert q == 0 && i > 0 ==> lists[0][1..][i - 1] == lists[q][i];
          if lists[q][i] == last {
            LastPageOrder(lists, Bits(z), top, q);
          }
        }
      }
    }
  }

  /** Nothing about a zone depends on the link of the page before it. */
  lemma FirstLinkFree(z: Zone, lists: seq<seq<nat>>, top: nat, link: Link)
    requires InOrder(z, lists, top)
    ensures InOrder(z.(links := z.links[0 := link]), lists, top)
  {
    var z' := z.(links := z.links[0 := link]);
    assert Heads(z') == Heads(z) && Bits(z') == Bits(z);
    forall q: nat | q < |lists| ensures Chain(z'.links, lists[q], Heads(z')[q]) {
      assert Chain(z.links, lists[q], Heads(z)[q]);
      ChainElsewhere(z.links, z'.links, lists[q], Heads(z)[q]);
    }
  }

  /** The `next` links alone determine a list. */
  lemma {:induction false} SamePrefix(links: seq<Link>, links': seq<Link>, l: seq<nat>, l': seq<nat>, head: int, i: nat)
    requires Chain(links, l, head) && Chain(links', l', head) && |links| == |links'|
    requires forall k: nat :: k < |links| ==> links'[k].next == links[k].next
    requires i <= |l|
    ensures i <= |l'| && l[..i] == l'[..i]
  {
    if i > 0 {
      SamePrefix(links, links', l, l', head, i - 1);
      if i > 1 {
        assert Linked(links, l, i - 2) && Linked(links', l', i - 2);
        assert l[..i - 1][i - 2] == l'[..i - 1][i - 2];
      }
      assert l[..i] == l[..i - 1] + [l[i - 1]];
    }
  }

  lemma SameChain(links: seq<Link>, links': seq<Link>, l: seq<nat>, l': seq<nat>, head: int)
    requires Chain(links, l, head) && Chain(links', l', head) && |links| == |links'|
    requires forall k: nat :: k < |links| ==> links'[k].next == links[k].next
    ensures l == l'
  {
    SamePrefix(links, links', l, l', head, |l|);
    SamePrefix(links', links, l', l, head, |l'|);
  }

  /** A zone whose last back link was cleared while that page was behind another spells no lists at all. */
  lemma ClipBreaks(z: Zone, lists: seq<seq<nat>>, top: nat, lists': seq<seq<nat>>)
    requires InOrder(z, lists, top) && LastIsBehind(lists, top)
    ensures !InOrder(ClipLast(z), lists', top)
  {
    var z' := ClipLast(z);
    var k: nat :| k < |lists[0]| - 1 && lists[0][1..][k] == Pow2(top) - 1;
    assert lists[0][k + 1] == Pow2(top) - 1;
    assert Chain(z.links, lists[0], Heads(z)[0]) && Linked(z.links, lists[0], k + 1);
    if InOrder(z', lists', top) {
      assert Heads(z')[0] == Heads(z)[0];
      assert Chain(z'.links, lists'[0], Heads(z')[0]);
      assert |lists'[0]| > k + 1 ==> Linked(z'.links, lists'[0], k + 1);
      SameChain(z.links, z'.links, lists[0], lists'[0], Heads(z)[0]);
    }
  }
}
