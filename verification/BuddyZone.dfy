/**
 The buddy allocator of `kernel/memory/BuddyZone.cpp`, updated in place: buckets of its own, and links in the table of
 all physical pages. Its methods do what the functions of BuddySteps say, whatever the tables hold.
 */
module BuddyZone {
  import opened Powers
  import opened BuddyModel
  import opened FreeLists
  import opened BuddySteps
  import opened RegionSteps

  class BuddyZone {
    const firstPage: nat
    const highestOrder: nat
    const numPages: nat
    const orders: array<BuddyOrder>
    const links: array<Link>    // of all zones: entry p + 1 is page p of the machine
    var freePages: nat

    /** The tables have the sizes that the code relies on. */
    ghost predicate Shape()
      reads {}
    {
      && highestOrder <= MAX_ORDER && numPages == Pow2(highestOrder)
      && orders.Length == MAX_ORDER + 1 && firstPage + numPages + 1 <= links.Length
    }

    ghost function AsPart(): Part
      reads this, orders
    {
      Part(firstPage, highestOrder, orders[..], freePages)
    }

    /** The zone with the links of its pages and of the page before them. */
    ghost function View(): Zone
      requires Shape()
      reads orders, links
    {
      Zone(orders[..], links[firstPage..firstPage + numPages + 1])
    }

    /** The zones' links other than those of this one are as before. */
    twostate predicate OthersKept()
      reads links
    {
      forall k: nat :: k < links.Length && !(firstPage <= k <= firstPage + numPages) ==> links[k] == old(links[k])
    }

    /** A new zone of n pages, all free. The link of its first page is set later, by `PhysicalRegion::init`. */
    constructor (firstPage: nat, n: nat, links: array<Link>)
      requires n > 0 && Pow2(OrderFor(n)) == n && OrderFor(n) <= MAX_ORDER && firstPage + n + 1 <= links.Length
      ensures Shape() && fresh(orders) && this.links == links && this.firstPage == firstPage && numPages == n
      ensures highestOrder == OrderFor(n) && NewPart(AsPart())
    {
      hide OrderFor, Pow2, NumPairs;
      this.firstPage, numPages, freePages, this.links := firstPage, n, n, links;
      var top := OrderFor(n);
      highestOrder := top;
      orders := new BuddyOrder[MAX_ORDER + 1](_ => BuddyOrder([], -1));
      new;
      InitBitmaps();
      orders[top] := BuddyOrder(orders[top].blockMap[0 := true], 0);
      TopBitmap(top);
      assert orders[top].blockMap == [true];
      assert orders[..] == NewOrders(top, MAX_ORDER + 1);
    }

    /** Set up the bitmap of every order. */
    method InitBitmaps()
      requires highestOrder <= MAX_ORDER && orders.Length == MAX_ORDER + 1
      requires forall o: nat :: o < orders.Length ==> orders[o] == BuddyOrder([], -1)
      modifies orders
      ensures forall o: nat :: o < orders.Length ==>
                && orders[o].freelist == -1
                && orders[o].blockMap == if o <= highestOrder then seq(NumPairs(o, highestOrder), _ => false) else []
      ensures |orders[highestOrder].blockMap| > 0
    {
      for i := 0 to highestOrder + 1
        invariant forall o: nat :: o < orders.Length ==>
                    orders[o] == BuddyOrder(if o < i then seq(NumPairs(o, highestOrder), _ => false) else [], -1)
      {
        orders[i] := orders[i].(blockMap := seq(NumPairs(i, highestOrder), _ => false));
      }
      TopBitmap(highestOrder);
    }

    // ---------- Single reads and writes ----------

    method GetLink(b: int) returns (l: Link)
      requires Shape() && HasLink(View(), b)
      ensures l == View().links[b + 1]
    {
      l := links[firstPage + b + 1];
    }

    method SetLink(b: int, l: Link)
      requires Shape() && HasLink(View(), b)
      modifies links
      ensures View() == old(View()).(links := old(View()).links[b + 1 := l]) && OthersKept()
    {
      links[firstPage + b + 1] := l;
    }

    method SetOrder(order: nat, bucket: BuddyOrder)
      requires Shape() && order < orders.Length
      modifies orders
      ensures View() == old(View()).(orders := old(View()).orders[order := bucket])
    {
      orders[order] := bucket;
      assert orders[..] == old(orders[..])[order := bucket];
    }

    /** The kernel's view of a bucket. */
    method GetOrder(order: nat) returns (bucket: BuddyOrder)
      requires Shape() && order < orders.Length
      ensures bucket == View().orders[order] && |View().orders| == orders.Length
    {
      bucket := orders[order];
    }

    lemma ViewShape()
      requires Shape()
      ensures |View().orders| == MAX_ORDER + 1 && |View().links| == numPages + 1 && highestOrder < |View().orders|
    {
    }

    // ---------- Taking blocks ----------

    /** The first block of a list is taken off it. */
    method PopBlock(order: nat) returns (r: Outcome<nat>)
      requires Shape() && order < orders.Length && |View().orders| == orders.Length && !Pop(View(), order).Wild?
      modifies orders, links
      ensures OthersKept()
      ensures var out := Pop(old(View()), order);
              if out.Done? then r == Done(out.value.0) && View() == out.value.1
              else r == Stopped && View() == old(View())
    {
      hide View, BitIndex;
      var bucket := GetOrder(order);
      var b := bucket.freelist;
      if !bucket.blockMap[BitIndex(b, order)] {
        return Stopped;
      }
      var link := GetLink(b);
      SetOrder(order, BuddyOrder(bucket.blockMap[BitIndex(b, order) := false], link.next));
      var next := GetLink(link.next);
      SetLink(link.next, next.(prev := -1));
      r := Done(b);
    }

    /** The second half of block h becomes the only block of its list. */
    method SplitBlock(h: nat, order: nat)
      requires Shape() && order < orders.Length && |View().orders| == orders.Length && Split(View(), h, order).Done?
      modifies orders, links
      ensures OthersKept() && View() == Split(old(View()), h, order).value.1
    {
      hide View, BitIndex, Pow2;
      var bucket := GetOrder(order);
      var second := h + Pow2(order);
      SetOrder(order, BuddyOrder(bucket.blockMap[BitIndex(h, order) := true], second));
      SetLink(second, Link(-1, -1));
    }

    /** `alloc_block_internal`. */
    method AllocBlockInternal(order: nat) returns (r: Outcome<nat>)
      requires Shape() && |View().orders| == orders.Length && !Alloc(View(), order, highestOrder).Wild?
      modifies orders, links
      ensures OthersKept()
      ensures var out := Alloc(old(View()), order, highestOrder);
              if out.Done? then r == Done(out.value.0) && View() == out.value.1
              else r == Stopped && View() == old(View())
      decreases if order <= highestOrder then highestOrder + 1 - order else 0
    {
      hide View, Split, Pop;
      if order > highestOrder {
        return Stopped;
      }
      var bucket := GetOrder(order);
      if bucket.freelist == -1 {
        r := AllocBlockInternal(order + 1);
        if r.Done? {
          ViewShape();
          SplitBlock(r.value, order);
        }
        return;
      }
      r := PopBlock(order);
    }

    // ---------- Giving blocks back ----------

    /** `remove_from_freelist`. */
    method RemoveFromFreelist(b: nat, order: nat) returns (r: Outcome<()>)
      requires Shape() && order < orders.Length && |View().orders| == orders.Length && !Unlink(View(), b, order).Wild?
      modifies orders, links
      ensures OthersKept()
      ensures var out := Unlink(old(View()), b, order);
              if out.Done? then r == Done(()) && View() == out.value else r == Stopped
    {
      hide View;
      var page := GetLink(b);
      if page.next != -1 {
        var next := GetLink(page.next);
        SetLink(page.next, next.(prev := page.prev));
        page := GetLink(b);
      }
      ghost var links1 := View().links;
      assert links1 == UnlinkNext(old(View()).links, b);
      if page.prev != -1 {
        var prev := GetLink(page.prev);
        SetLink(page.prev, prev.(next := page.next));
        page := GetLink(b);
      }
      assert View().links == UnlinkPrev(links1, b);
      var bucket := GetOrder(order);
      if bucket.freelist == b {
        if page.prev != -1 {
          return Stopped;
        }
        SetOrder(order, bucket.(freelist := page.next));
      }
      r := Done(());
    }

    /** The block goes in front of its list. */
    method PushBlock(b: nat, order: nat)
      requires Shape() && order < orders.Length && |View().orders| == orders.Length && Push(View(), b, order).Done?
      modifies orders, links
      ensures OthersKept() && View() == Push(old(View()), b, order).value
    {
      hide View, BitIndex;
      var bucket := GetOrder(order);
      if bucket.freelist != -1 {
        var head := GetLink(bucket.freelist);
        SetLink(bucket.freelist, head.(prev := b));
      }
      SetLink(b, Link(bucket.freelist, -1));
      SetOrder(order, BuddyOrder(bucket.blockMap[BitIndex(b, order) := true], b));
    }

    /** `free_block_internal`. */
    method FreeBlockInternal(b: nat, order: nat) returns (r: Outcome<()>)
      requires Shape() && |View().orders| == orders.Length && !Free(View(), b, order, highestOrder).Wild?
      modifies orders, links
      ensures OthersKept()
      ensures var out := Free(old(View()), b, order, highestOrder);
              if out.Done? then r == Done(()) && View() == out.value else r == Stopped
      decreases if order <= highestOrder then highestOrder + 1 - order else 0
    {
      hide View, Push, Unlink, BitIndex, PairStart, BuddyStart;
      if order > highestOrder {
        return Stopped;
      }
      var bucket := GetOrder(order);
      if bucket.blockMap[BitIndex(b, order)] {
        SetOrder(order, bucket.(blockMap := bucket.blockMap[BitIndex(b, order) := false]));
        assert View() == ClearBit(old(View()), b, order);
        ViewShape();
        r := RemoveFromFreelist(BuddyStart(b, order), order);
        if r.Done? {
          ViewShape();
          r := FreeBlockInternal(PairStart(b, order), order + 1);
        }
      } else {
        PushBlock(b, order);
        r := Done(());
      }
    }

    // ---------- The public operations ----------

    twostate lemma StoredIs()
      requires Shape() && OthersKept()
      ensures Fits(old(links[..]), old(AsPart())) && |View().links| == numPages + 1
      ensures links[..] == Stored(old(links[..]), old(AsPart()), View().links)
      ensures old(View()) == ViewOf(old(links[..]), old(AsPart())) && AsPart().orders == View().orders
      ensures View() == old(View()) ==> links[..] == old(links[..])
    {
      if View() == old(View()) {
        forall k: nat | k < links.Length ensures links[k] == old(links[k]) {
          if firstPage <= k <= firstPage + numPages {
            assert View().links[k - firstPage] == links[k] && old(View()).links[k - firstPage] == old(links[k]);
          }
        }
      }
    }

    /** `alloc_block`: an error when the counter is too small; else the kernel stops or a block is taken. */
    method AllocBlock(n: nat) returns (r: Answer<nat>)
      requires Shape() && n > 0 && !RegionSteps.AllocBlock(links[..], AsPart(), n).WildAccess?
      modifies this`freePages, orders, links
      ensures var out := RegionSteps.AllocBlock(old(links[..]), old(AsPart()), n);
              if out.Allocated? then r == Allocated(out.value.0) && links[..] == out.value.1 && AsPart() == out.value.2
              else r == (if out.NoMemory? then NoMemory else AssertFailed)
                   && links[..] == old(links[..]) && AsPart() == old(AsPart())
    {
      hide Pow2, OrderFor, View, Alloc, Stored;
      if freePages < n {
        return NoMemory;
      }
      StoredIs();
      ViewShape();
      var out := AllocBlockInternal(OrderFor(n));
      StoredIs();
      if out.Done? {
        freePages := freePages - n;
        r := Allocated(firstPage + out.value);
      } else {
        r := AssertFailed;
      }
    }

    /** `free_block`. */
    method FreeBlock(page: nat, n: nat) returns (r: Outcome<()>)
      requires Shape() && n > 0 && !RegionSteps.FreeBlock(links[..], AsPart(), page, n).Wild?
      modifies this`freePages, orders, links
      ensures var out := RegionSteps.FreeBlock(old(links[..]), old(AsPart()), page, n);
              if out.Done? then r == Done(()) && links[..] == out.value.0 && AsPart() == out.value.1 else r == Stopped
      ensures page < firstPage || page + n > firstPage + numPages || Pow2(OrderFor(n)) != n ==>
                r == Stopped && links[..] == old(links[..]) && AsPart() == old(AsPart())
    {
      hide Pow2, OrderFor, View, Free, Stored;
      if page < firstPage || page + n > firstPage + numPages || Pow2(OrderFor(n)) != n {
        return Stopped;
      }
      StoredIs();
      ViewShape();
      r := FreeBlockInternal(page - firstPage, OrderFor(n));
      StoredIs();
      if r.Done? {
        freePages := freePages + n;
      }
    }
  }

  lemma TopBitmap(top: nat)
    ensures NumPairs(top, top) == 1
  {
  }
}
