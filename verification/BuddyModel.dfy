/**
 The free blocks of a buddy zone as a set of values: what the free lists and the buddy bits of
 `kernel/memory/BuddyZone.cpp` say about them, and why merging them is complete.
 */
module BuddyModel {
  import opened Powers

  /** A block of 2^order pages, numbered from the start of its zone. */
  datatype Block = Block(start: nat, order: nat)
  {
    predicate Has(x: nat) { start <= x < start + Pow2(order) }
  }

  function Pages(b: Block): set<nat> {
    set x: nat | x < b.start + Pow2(b.order) && b.Has(x)
  }

  ghost predicate Apart(b: Block, c: Block) {
    b.start + Pow2(b.order) <= c.start || c.start + Pow2(c.order) <= b.start
  }

  /** An aligned block inside a zone of 2^top pages. */
  ghost predicate BlockOk(b: Block, top: nat) {
    b.order <= top && Aligned(b.start, b.order) && b.start + Pow2(b.order) <= Pow2(top)
  }

  ghost predicate BlocksOk(free: set<Block>, top: nat) {
    && (forall b :: b in free ==> BlockOk(b, top))
    && (forall b, c :: b in free && c in free && b != c ==> Apart(b, c))
  }

  /** `bit_index`: the number of the buddy pair that block b belongs to. */
  function PairIndex(b: Block): nat {
    ShiftRight(b.start, b.order) / 2
  }

  function FirstOf(j: nat, order: nat): Block {
    Block(ShiftLeft(j, order + 1), order)
  }

  function SecondOf(j: nat, order: nat): Block {
    Block(ShiftLeft(j, order + 1) + Pow2(order), order)
  }

  /** Number of buddy bits of an order: (blocks + 1) / 2. */
  function NumPairs(order: nat, top: nat): nat
    requires order <= top
  {
    (Pow2(top - order) + 1) / 2
  }

  /** A pair is never free twice at its own order, and its bit is MIXED exactly when one half is. */
  ghost predicate PairOk(free: set<Block>, bit: bool, j: nat, order: nat) {
    && !(FirstOf(j, order) in free && SecondOf(j, order) in free)
    && (bit <==> FirstOf(j, order) in free || SecondOf(j, order) in free)
  }

  ghost predicate BitsOk(free: set<Block>, bits: seq<seq<bool>>, top: nat) {
    && |bits| > top
    && (forall o: nat :: o <= top ==> |bits[o]| == NumPairs(o, top))
    && (forall o: nat, j: nat :: o < top && j < |bits[o]| ==> PairOk(free, bits[o][j], j, o))
    && (bits[top][0] <==> Block(0, top) in free)
  }

  ghost predicate ZoneOk(free: set<Block>, bits: seq<seq<bool>>, top: nat) {
    BlocksOk(free, top) && BitsOk(free, bits, top)
  }

  /** The pages covered by the free blocks. */
  ghost function FreeSet(free: set<Block>): set<nat> {
    set b, x: nat | b in free && x < b.start + Pow2(b.order) && b.Has(x) :: x
  }

  function SetBit(bits: seq<seq<bool>>, b: Block, value: bool): seq<seq<bool>>
    requires b.order < |bits| && PairIndex(b) < |bits[b.order]|
  {
    bits[b.order := bits[b.order][PairIndex(b) := value]]
  }

  // ---------- Arithmetic of pairs ----------

  lemma PairFacts(b: Block, top: nat)
    requires BlockOk(b, top)
    ensures PairIndex(b) < NumPairs(b.order, top)
    ensures b.order < top ==> b == FirstOf(PairIndex(b), b.order) || b == SecondOf(PairIndex(b), b.order)
    ensures b.order < top ==> BlockOk(Block(ShiftLeft(PairIndex(b), b.order + 1), b.order + 1), top)
    ensures b.order == top ==> b == Block(0, top) && PairIndex(b) == 0
  {
    ShiftRightNext(b.start, b.order);
    if b.order < top {
      ShiftRightBound(b.start, b.order + 1, top);
      HalfOfPair(b.start, b.order);
      ParentFits(b, top);
    } else {
      ZeroShift(b.order);
    }
  }

  lemma {:induction false} ZeroShift(n: nat)
    ensures ShiftRight(0, n) == 0
  {
    if n > 0 {
      ZeroShift(n - 1);
    }
  }

  lemma {:induction false} ZeroAligned(n: nat)
    ensures Aligned(0, n)
  {
    if n > 0 {
      ZeroAligned(n - 1);
    }
  }

  lemma ParentFits(b: Block, top: nat)
    requires BlockOk(b, top) && b.order < top
    ensures var f := ShiftLeft(PairIndex(b), b.order + 1); f + Pow2(b.order + 1) <= Pow2(top)
  {
    ShiftRightNext(b.start, b.order);
    HalfOfPair(b.start, b.order);
    ZeroAligned(top);
    Nested(ShiftLeft(PairIndex(b), b.order + 1), b.order + 1, 0, top, b.start);
  }

  /** A block belongs to one pair only. */
  lemma PairUnique(b: Block, j: nat)
    requires b == FirstOf(j, b.order) || b == SecondOf(j, b.order)
    ensures PairIndex(b) == j && Aligned(b.start, b.order)
  {
    PairOfHalves(j, b.order);
    ShiftRightNext(b.start, b.order);
  }

  // ---------- Adding and removing a free block ----------

  ghost function Buddy(b: Block): Block {
    if b == FirstOf(PairIndex(b), b.order) then SecondOf(PairIndex(b), b.order) else FirstOf(PairIndex(b), b.order)
  }

  lemma AddBits(free: set<Block>, bits: seq<seq<bool>>, top: nat, b: Block)
    requires ZoneOk(free, bits, top) && BlockOk(b, top)
    requires b.order < top ==> Buddy(b) !in free
    ensures PairIndex(b) < |bits[b.order]| && BitsOk(free + {b}, SetBit(bits, b, true), top)
  {
    PairFacts(b, top);
    var bits' := SetBit(bits, b, true);
    forall o: nat, j: nat | o < top && j < |bits'[o]|
      ensures PairOk(free + {b}, bits'[o][j], j, o)
    {
      assert PairOk(free, bits[o][j], j, o);
      if o == b.order && (b == FirstOf(j, o) || b == SecondOf(j, o)) {
        PairUnique(b, j);
      }
    }
  }

  lemma RemoveBits(free: set<Block>, bits: seq<seq<bool>>, top: nat, b: Block)
    requires ZoneOk(free, bits, top) && b in free
    ensures PairIndex(b) < |bits[b.order]| && BitsOk(free - {b}, SetBit(bits, b, false), top)
  {
    PairFacts(b, top);
    var bits' := SetBit(bits, b, false);
    forall o: nat, j: nat | o < top && j < |bits'[o]|
      ensures PairOk(free - {b}, bits'[o][j], j, o)
    {
      assert PairOk(free, bits[o][j], j, o);
      if o == b.order && (b == FirstOf(j, o) || b == SecondOf(j, o)) {
        PairUnique(b, j);
      }
    }
  }

  /** A block whose pages are all taken may be put on its free list if its buddy is not free. */
  lemma AddBlock(free: set<Block>, bits: seq<seq<bool>>, top: nat, b: Block)
    requires ZoneOk(free, bits, top) && BlockOk(b, top) && Pages(b) !! FreeSet(free)
    requires b.order < top ==> Buddy(b) !in free
    ensures PairIndex(b) < |bits[b.order]| && ZoneOk(free + {b}, SetBit(bits, b, true), top)
    ensures FreeSet(free + {b}) == FreeSet(free) + Pages(b)
  {
    AddBits(free, bits, top, b);
    forall c | c in free
      ensures Apart(b, c)
    {
      var x := if b.start < c.start then c.start else b.start;
      assert b.Has(x) ==> x in Pages(b);
      assert c.Has(x) ==> x in FreeSet(free);
    }
  }

  lemma RemoveBlock(free: set<Block>, bits: seq<seq<bool>>, top: nat, b: Block)
    requires ZoneOk(free, bits, top) && b in free
    ensures BlockOk(b, top) && PairIndex(b) < |bits[b.order]| && ZoneOk(free - {b}, SetBit(bits, b, false), top)
    ensures FreeSet(free - {b}) == FreeSet(free) - Pages(b) && Pages(b) <= FreeSet(free)
  {
    RemoveBits(free, bits, top, b);
    forall x | x in FreeSet(free - {b})
      ensures x !in Pages(b)
    {
      var c :| c in free - {b} && c.Has(x);
      assert Apart(b, c);
    }
  }

  /** The bit of a block that is in use tells whether its buddy is free, and the top order never merges. */
  lemma MixedMeansBuddyFree(free: set<Block>, bits: seq<seq<bool>>, top: nat, b: Block)
    requires ZoneOk(free, bits, top) && BlockOk(b, top) && Pages(b) !! FreeSet(free)
    ensures PairIndex(b) < |bits[b.order]|
    ensures bits[b.order][PairIndex(b)] <==> b.order < top && Buddy(b) in free
  {
    PairFacts(b, top);
    assert b.start in Pages(b);
    assert b !in free;
    if b.order < top {
      assert PairOk(free, bits[b.order][PairIndex(b)], PairIndex(b), b.order);
    }
  }

  /** The bit of a block on a free list is MIXED. */
  lemma FreeBitIsMixed(free: set<Block>, bits: seq<seq<bool>>, top: nat, b: Block)
    requires ZoneOk(free, bits, top) && b in free
    ensures PairIndex(b) < |bits[b.order]| && bits[b.order][PairIndex(b)]
  {
    PairFacts(b, top);
    if b.order < top {
      assert PairOk(free, bits[b.order][PairIndex(b)], PairIndex(b), b.order);
    }
  }

  // ---------- Merging is complete ----------

  ghost predicate Least(free: set<Block>, b: Block) {
    b in free && forall c :: c in free ==> b.order <= c.order
  }

  lemma LeastExists(free: set<Block>) returns (b: Block)
    requires free != {}
    ensures Least(free, b)
  {
    b :| b in free;
    var rest := free - {b};
    while rest != {}
      invariant b in free && rest <= free
      invariant forall c :: c in free && c !in rest ==> b.order <= c.order
      decreases |rest|
    {
      var c :| c in rest;
      if c.order < b.order {
        b := c;
      }
      rest := rest - {c};
    }
  }

  /** The buddy of a block's buddy is the block, and it is aligned alike. */
  lemma BuddyTwice(b: Block)
    requires Aligned(b.start, b.order)
    ensures Buddy(b).order == b.order && Aligned(Buddy(b).start, b.order) && Buddy(Buddy(b)) == b && Buddy(b) != b
    ensures PairIndex(Buddy(b)) == PairIndex(b)
  {
    var j := PairIndex(b);
    ShiftRightNext(b.start, b.order);
    HalfOfPair(b.start, b.order);
    PairUnique(FirstOf(j, b.order), j);
    PairUnique(SecondOf(j, b.order), j);
  }

  /** The blocks on free lists that lie inside block b and are smaller. */
  ghost function Inside(free: set<Block>, b: Block): set<Block> {
    set c | c in free && c.order < b.order && b.Has(c.start)
  }

  /** The block on a free list that a free page is in. */
  lemma BlockOf(free: set<Block>, x: nat) returns (c: Block)
    requires x in FreeSet(free)
    ensures c in free && c.Has(x) && c.start <= x < c.start + Pow2(c.order)
  {
    c :| c in free && c.Has(x);
  }

  /** A block whose pages are all free lies inside one block on a free list, since pairs never stay split. */
  lemma FreeBlockWhole(free: set<Block>, bits: seq<seq<bool>>, top: nat, b: Block) returns (c: Block)
    requires ZoneOk(free, bits, top) && BlockOk(b, top) && Pages(b) <= FreeSet(free)
    ensures c in free && c.order >= b.order && c.Has(b.start)
  {
    assert b.Has(b.start) && b.start in Pages(b);
    c := BlockOf(free, b.start);
    if c.order < b.order {
      assert BlockOk(c, top);
      Nested(c.start, c.order, b.start, b.order, b.start);
      assert c in Inside(free, b);
      var d := LeastExists(Inside(free, b));
      var e := SmallerInside(free, bits, top, b, d);
    }
  }

  /** Inside a block whose pages are all free no smaller block is the smallest: its buddy holds a smaller one. */
  lemma SmallerInside(free: set<Block>, bits: seq<seq<bool>>, top: nat, b: Block, d: Block) returns (e: Block)
    requires ZoneOk(free, bits, top) && BlockOk(b, top) && Pages(b) <= FreeSet(free) && d in Inside(free, b)
    ensures e in Inside(free, b) && e.order < d.order
  {
    hide FreeSet, BitsOk, Aligned;
    assert BlockOk(d, top);
    var f := Buddy(d);
    BuddyTwice(d);
    BuddyInside(f, b);
    assert f.start in Pages(b);
    e := BlockOf(free, f.start);
    assert BlockOk(e, top);
    if e.order >= d.order {
      OverBuddy(free, bits, top, d, e);
    }
    hide Buddy, ZoneOk, Pages;
    Nested(e.start, e.order, f.start, f.order, f.start);
    Nested(f.start, f.order, b.start, b.order, f.start);
  }

  /** A free block over the buddy of a free block is smaller than that. */
  lemma OverBuddy(free: set<Block>, bits: seq<seq<bool>>, top: nat, d: Block, e: Block)
    requires ZoneOk(free, bits, top) && d in free && e in free && d.order < top && e.Has(Buddy(d).start)
    ensures e.order < d.order
  {
    hide FreeSet, BitsOk;
    var f := Buddy(d);
    assert BlockOk(d, top) && BlockOk(e, top);
    BuddyTwice(d);
    BothNotFree(free, bits, top, d);
    assert d != e ==> Apart(d, e);
    if e.order == d.order {
      assert e.start == f.start by {
        Nested(f.start, f.order, e.start, e.order, f.start);
        Nested(e.start, e.order, f.start, f.order, f.start);
      }
    } else if e.order > d.order {
      BuddyInside(d, e);
    }
  }

  lemma BothNotFree(free: set<Block>, bits: seq<seq<bool>>, top: nat, d: Block)
    requires ZoneOk(free, bits, top) && d in free && d.order < top
    ensures Buddy(d) !in free
  {
    PairFacts(d, top);
    assert PairOk(free, bits[d.order][PairIndex(d)], PairIndex(d), d.order);
    BuddyTwice(d);
  }

  /** When every page of the zone is free, the zone is one block of the top order. */
  lemma FullyFreeIsOneBlock(free: set<Block>, bits: seq<seq<bool>>, top: nat)
    requires ZoneOk(free, bits, top)
    requires forall x: nat :: x < Pow2(top) ==> x in FreeSet(free)
    ensures free == {Block(0, top)}
  {
    var whole := Block(0, top);
    ZeroAligned(top);
    assert forall x :: x in Pages(whole) ==> x < Pow2(top);
    var c := FreeBlockWhole(free, bits, top, whole);
    PairFacts(c, top);
    forall d | d in free
      ensures d == whole
    {
      assert BlockOk(d, top);
      assert d != whole ==> Apart(whole, d);
    }
  }

  /** A larger aligned block that contains one buddy contains the other. */
  lemma BuddyInside(b: Block, c: Block)
    requires Aligned(b.start, b.order) && Aligned(c.start, c.order) && b.order < c.order
    requires c.Has(Buddy(b).start)
    ensures c.Has(b.start)
  {
    ShiftRightNext(b.start, b.order);
    HalfOfPair(b.start, b.order);
    Nested(ShiftLeft(PairIndex(b), b.order + 1), b.order + 1, c.start, c.order, Buddy(b).start);
  }

  // ---------- Splitting and counting ----------

  /** A block is the disjoint union of its two halves, each a block one order down. */
  lemma Halves(h: nat, o: nat, top: nat)
    requires BlockOk(Block(h, o + 1), top)
    ensures BlockOk(Block(h, o), top) && BlockOk(Block(h + Pow2(o), o), top)
    ensures Pages(Block(h, o + 1)) == Pages(Block(h, o)) + Pages(Block(h + Pow2(o), o))
    ensures Pages(Block(h, o)) !! Pages(Block(h + Pow2(o), o))
    ensures Buddy(Block(h + Pow2(o), o)) == Block(h, o)
  {
    AlignedDown(h, o, o + 1);
    AlignedAdd(h, o);
    AlignedShifts(h, o + 1);
    PairUnique(Block(h + Pow2(o), o), ShiftRight(h, o + 1));
    var a, b := Block(h, o), Block(h + Pow2(o), o);
    assert forall x: nat :: Block(h, o + 1).Has(x) <==> a.Has(x) || b.Has(x);
    assert forall x: nat :: !(a.Has(x) && b.Has(x));
  }

  /** A block and its buddy make up the block one order up. */
  lemma BuddyHalves(b: Block, top: nat)
    requires BlockOk(b, top) && b.order < top
    ensures var parent := Block(ShiftLeft(PairIndex(b), b.order + 1), b.order + 1);
            && BlockOk(parent, top)
            && Pages(parent) == Pages(b) + Pages(Buddy(b)) && Pages(b) !! Pages(Buddy(b))
            && Buddy(b).start == if b.start == parent.start then parent.start + Pow2(b.order) else parent.start
  {
    PairFacts(b, top);
    Halves(ShiftLeft(PairIndex(b), b.order + 1), b.order, top);
  }

  lemma {:induction false} CountPages(b: Block)
    ensures |Pages(b)| == Pow2(b.order)
    decreases b.order
  {
    if b.order == 0 {
      assert forall x: nat :: b.Has(x) <==> x == b.start;
      assert b.Has(b.start);
      assert Pages(b) == {b.start};
    } else {
      var o := b.order - 1;
      var p, q := Block(b.start, o), Block(b.start + Pow2(o), o);
      CountPages(p);
      CountPages(q);
      assert forall x: nat :: b.Has(x) <==> p.Has(x) || q.Has(x);
      assert forall x: nat :: !(p.Has(x) && q.Has(x));
      assert Pages(b) == Pages(p) + Pages(q);
    }
  }

  lemma CountRemoved(s: set<nat>, b: Block)
    requires Pages(b) <= s
    ensures |s - Pages(b)| == |s| - Pow2(b.order)
  {
    CountPages(b);
  }

  lemma CountAdded(s: set<nat>, b: Block)
    requires Pages(b) !! s
    ensures |s + Pages(b)| == |s| + Pow2(b.order)
  {
    CountPages(b);
  }

  lemma FreeInZone(free: set<Block>, bits: seq<seq<bool>>, top: nat)
    requires ZoneOk(free, bits, top)
    ensures forall x :: x in FreeSet(free) ==> x < Pow2(top)
  {
  }
}
