/** `kmalloc` and `kfree` of `kernel/memory/liballoc.cpp`, on headers in memory that are linked into lists. */
module KernelHeap {
  import opened HeapModel
  import opened HeapLinks

  /** The heap gained minor m: in the first gap of some block, or, if no block has one, in a new block at `grant`. */
  ghost predicate Grew(before: seq<Block>, after: seq<Block>, m: Minor, grant: int) {
    var need := m.size + MINOR_SIZE;
    || (exists i: nat :: i < |before| && GrewIn(before, after, m, i))
    || ((forall j: nat :: j < |before| ==> !Fits(before[j], need)) && m.addr == grant + MAJOR_SIZE
        && after == before + [Fresh(grant, m.size, m.req)])
  }

  ghost predicate GrewIn(before: seq<Block>, after: seq<Block>, m: Minor, i: nat)
    requires i < |before|
  {
    var b := before[i];
    var k := FirstGap(b.minors, b.Lo(), b.End(), m.size + MINOR_SIZE);
    k <= |b.minors| && m.addr == GapStart(b.minors, k, b.Lo())
    && after == before[i := b.(minors := Placed(b.minors, k, m))]
  }

  lemma GrewAt(before: seq<Block>, after: seq<Block>, m: Minor, grant: int, i: nat)
    requires i < |before| && GrewIn(before, after, m, i)
    ensures Grew(before, after, m, grant) && Fits(before[i], m.size + MINOR_SIZE)
  {
  }

  lemma GrewNew(before: seq<Block>, m: Minor, grant: int)
    requires m.addr == grant + MAJOR_SIZE && forall j: nat :: j < |before| ==> !Fits(before[j], m.size + MINOR_SIZE)
    ensures Grew(before, before + [Fresh(grant, m.size, m.req)], m, grant)
  {
  }

  /** The best bet after minor k of block i was freed: none if that block went back, or the block with more to spare. */
  ghost function BetFreed(bs: seq<Block>, i: nat, k: nat, bet: int): int
    requires i < |bs| && k < |bs[i].minors|
  {
    var a, bs' := bs[i].addr, Freed(bs, i, k);
    if |bs[i].minors| == 1 then (if bet == a then 0 else bet)
    else if bet != 0 && BetSpare(bs', a) > BetSpare(bs', bet) then a
    else bet
  }

  lemma FreedThere(bs: seq<Block>, i: nat, k: nat)
    requires i < |bs| && k < |bs[i].minors|
    ensures |bs[i].minors| > 1 ==> AddressIndex(Freed(bs, i, k), bs[i].addr) < |Freed(bs, i, k)|
  {
    if |bs[i].minors| > 1 {
      assert Freed(bs, i, k)[i].addr == bs[i].addr;
    }
  }

  /**
   The best bet after a request: what the search left, or the new block, if its spare bytes were looked at, which they
   are not right after a last block that was too full.
   */
  ghost function BetThen(bs: seq<Block>, req: nat, bet: int, grant: int): int {
    var size := req + ALIGNMENT + ALIGN_INFO;
    var need := size + MINOR_SIZE;
    var room := PagesFor(size) * HEAP_PAGE - MAJOR_SIZE;
    if bs == [] then (if grant != 0 && 0 < room then grant else bet)
    else
      var after := BetAfter(bs, need, bet);
      if HeapModel.Serving(bs, need, bet) == |bs| && grant != 0 && Spare(bs[|bs| - 1]) >= need && after.spare < room
      then grant else after.addr
  }

  /** What a search knows before it looks at block i, in its first or its second pass. */
  ghost predicate Scanned(bs: seq<Block>, need: nat, bet: int, started: bool, i: nat, now: Bet)
    requires i <= |bs|
  {
    var s, atBet := StartBlock(bs, need, bet), StartsAtBet(bs, need, bet);
    && (started ==> atBet && s <= i) && s <= |bs|
    && (forall j: nat :: (if started then s else 0) <= j < i ==> !Fits(bs[j], need))
    && (!started && atBet ==> forall j: nat :: s <= j < |bs| ==> !Fits(bs[j], need))
    && now ==
         if started then Betted(bs, s, i, BetBefore(bs, bet))
         else Betted(bs, 0, i, if atBet then Betted(bs, s, |bs|, BetBefore(bs, bet)) else BetBefore(bs, bet))
  }

  lemma ScannedNone(bs: seq<Block>, need: nat, bet: int)
    ensures StartBlock(bs, need, bet) <= |bs|
    ensures Scanned(bs, need, bet, StartsAtBet(bs, need, bet), StartBlock(bs, need, bet), BetBefore(bs, bet))
  {
  }

  /** Looking at one more block ends the search, goes on, or starts the second pass. */
  lemma ScannedNext(bs: seq<Block>, need: nat, bet: int, started: bool, i: nat, now: Bet)
    requires i < |bs| && Scanned(bs, need, bet, started, i, now)
    ensures var next := if now.spare < Spare(bs[i]) then Bet(bs[i].addr, Spare(bs[i])) else now;
            && (Fits(bs[i], need) ==> i == HeapModel.Serving(bs, need, bet) && next == BetAfter(bs, need, bet))
            && (!Fits(bs[i], need) ==> Scanned(bs, need, bet, started, i + 1, next))
            && (!Fits(bs[i], need) && i + 1 == |bs| && started ==> Scanned(bs, need, bet, false, 0, next))
            && (!Fits(bs[i], need) && i + 1 == |bs| && !started ==>
                  HeapModel.Serving(bs, need, bet) == |bs| && next == BetAfter(bs, need, bet))
  {
    hide Fits, Spare, StartsAtBet, BetBefore;
    var s := StartBlock(bs, need, bet);
    FirstFittingIs(bs, need, s, i);
    FirstFittingIs(bs, need, 0, i);
    FirstFittingIs(bs, need, s, |bs|);
    FirstFittingIs(bs, need, 0, |bs|);
  }

  lemma FirstFittingIs(bs: seq<Block>, need: int, i: nat, j: nat)
    requires i <= |bs| && j <= |bs|
    ensures i <= j && (forall l: nat :: i <= l < j ==> !Fits(bs[l], need)) && (j < |bs| ==> Fits(bs[j], need)) ==>
              FirstFitting(bs, need, i) == j
  {
  }

  class Heap {
    var root: int
    var bestBet: int
    var majors: map<int, MajorHeader>
    var minors: map<int, MinorHeader>
    var offsets: map<int, int>
    var totalAllocated: nat
    var inUse: int
    var errorCount: nat
    var warningCount: nat
    ghost var blocks: seq<Block>

    /** Blocks and minors are linked and laid out apart, the counters are exact, and memory records every minor. */
    ghost predicate Valid()
      reads this
    {
      && Kept(blocks, majors, minors, offsets, root)
      && inUse == InUse(blocks) && totalAllocated == Allocated(blocks)
      && (bestBet == 0 || bestBet in majors)
    }

    constructor ()
      ensures Valid() && blocks == []
    {
      root, bestBet, majors, minors, offsets := 0, 0, map[], map[], map[];
      totalAllocated, inUse, errorCount, warningCount, blocks := 0, 0, 0, 0, [];
    }

    lemma BlockFacts(i: nat)
      requires Valid() && i < |blocks|
      ensures var b := blocks[i];
              && b.addr > 0 && b.addr in majors && majors[b.addr] == MajorOf(blocks, i)
              && majors[b.addr].size == b.size && majors[b.addr].usage == b.Usage() && b.minors != []
              && majors[b.addr].first == b.minors[0].addr > 0 && Laid(b.minors, b.Lo(), b.End())
              && (majors[b.addr].next == 0 <==> i + 1 == |blocks|)
              && (i + 1 < |blocks| ==> majors[b.addr].next == blocks[i + 1].addr)
    {
      MajorFacts(blocks, majors, minors, root, i);
      assert BlockOk(blocks[i]);
    }

    lemma HeaderFacts(i: nat, k: nat)
      requires Valid() && i < |blocks| && k < |blocks[i].minors|
      ensures var m := blocks[i].minors[k];
              && m.addr > 0 && m.addr in minors && minors[m.addr].size == m.size
              && minors[m.addr].block == blocks[i].addr
              && minors[m.addr].next == MinorAddr(blocks[i].minors, k + 1)
              && minors[m.addr].prev == MinorAddr(blocks[i].minors, k - 1)
              && (minors[m.addr].next == 0 <==> k + 1 == |blocks[i].minors|)
              && (minors[m.addr].prev == 0 <==> k == 0)
    {
      MinorFacts(blocks, majors, minors, root, i, k);
    }

    // ---------- The search ----------

    /** Cases 3 and 4: the minor behind which the first large enough gap of a block starts; 0 for its start. */
    method FindGap(maj: int, need: nat, ghost i: nat) returns (found: bool, pred: int, ghost k: nat)
      requires Valid() && i < |blocks| && blocks[i].addr == maj
      ensures k == FirstGap(blocks[i].minors, blocks[i].Lo(), blocks[i].End(), need)
      ensures found <==> k <= |blocks[i].minors|
      ensures found ==> pred == MinorAddr(blocks[i].minors, k - 1)
    {
      BlockFacts(i);
      ghost var ms, lo, hi := blocks[i].minors, blocks[i].Lo(), blocks[i].End();
      var header := majors[maj];
      if header.first - maj - MAJOR_SIZE >= need {
        FirstGapIs(ms, lo, hi, need, 0);
        return true, 0, 0;
      }
      hide Kept, FirstGap, Laid;
      var min := header.first;
      k := 0;
      while min != 0
        invariant k <= |ms| && min == MinorAddr(ms, k) && (min == 0 <==> k == |ms|)
        invariant forall j: nat :: j <= k ==> GapEnd(ms, j, hi) - GapStart(ms, j, lo) < need
        decreases |ms| - k
      {
        HeaderFacts(i, k);
        var here := minors[min];
        var end := if here.next == 0 then maj + header.size else here.next;
        k := k + 1;
        assert end == GapEnd(ms, k, hi) && min + MINOR_SIZE + here.size == GapStart(ms, k, lo);
        if end - min - MINOR_SIZE - here.size >= need {
          FirstGapIs(ms, lo, hi, need, k);
          return true, min, k;
        }
        min := here.next;
        if k < |ms| {
          HeaderFacts(i, k);
        }
      }
      k := k + 1;
      FirstGapIs(ms, lo, hi, need, k);
      found, pred := false, 0;
    }

    /** Case 1, or cases 3 and 4. */
    method TryBlock(maj: int, need: nat, ghost i: nat) returns (found: bool, pred: int, ghost k: nat)
      requires Valid() && i < |blocks| && blocks[i].addr == maj
      ensures k == FirstGap(blocks[i].minors, blocks[i].Lo(), blocks[i].End(), need)
      ensures found <==> k <= |blocks[i].minors|
      ensures found ==> pred == MinorAddr(blocks[i].minors, k - 1)
    {
      BlockFacts(i);
      if majors[maj].size - majors[maj].usage < need {
        TooFull(blocks[i].minors, blocks[i].Lo(), blocks[i].End(), need);
        return false, 0, |blocks[i].minors| + 1;
      }
      hide Kept, FirstGap;
      found, pred, k := FindGap(maj, need, i);
    }

    /** Where the search starts: at the best bet if that has room to spare. */
    method StartAt(need: nat) returns (maj: int, bestSize: int, started: bool, ghost i: nat)
      requires Valid() && blocks != []
      ensures i < |blocks| && maj == blocks[i].addr && (!started ==> i == 0) && i == StartBlock(blocks, need, bestBet)
      ensures started <==> StartsAtBet(blocks, need, bestBet)
      ensures Bet(bestBet, bestSize) == BetBefore(blocks, bestBet)
    {
      maj, bestSize, started, i := root, 0, false, 0;
      if bestBet != 0 {
        i := AddressIndex(blocks, bestBet);
        BetThere();
        BlockFacts(i);
        bestSize := majors[bestBet].size - majors[bestBet].usage;
        if bestSize > need {
          maj, started := bestBet, true;
        } else {
          i := 0;
        }
      }
    }

    lemma BetThere()
      requires Valid() && bestBet != 0
      ensures AddressIndex(blocks, bestBet) < |blocks| && bestBet in majors
    {
      var i: nat :| i < |blocks| && blocks[i].addr == bestBet;
    }

    /** The best bet is kept up to date, and the block is tried. */
    method Visit(maj: int, need: nat, best: int, ghost i: nat)
      returns (found: bool, pred: int, bestSize: int, tooFull: bool, ghost k: nat)
      requires Valid() && i < |blocks| && blocks[i].addr == maj
      modifies this`bestBet
      ensures Valid() && maj in majors && (tooFull <==> Spare(blocks[i]) < need)
      ensures Bet(bestBet, bestSize) ==
                if best < Spare(blocks[i]) then Bet(maj, Spare(blocks[i])) else Bet(old(bestBet), best)
      ensures found <==> Fits(blocks[i], need)
      ensures found ==>
                && k == FirstGap(blocks[i].minors, blocks[i].Lo(), blocks[i].End(), need) <= |blocks[i].minors|
                && pred == MinorAddr(blocks[i].minors, k - 1)
      ensures majors[maj].next == (if i + 1 < |blocks| then blocks[i + 1].addr else 0)
              && (majors[maj].next == 0 <==> i + 1 == |blocks|)
    {
      hide Kept, InUse, Allocated, FirstGap;
      BlockFacts(i);
      bestSize := best;
      var diff := majors[maj].size - majors[maj].usage;
      if bestSize < diff {
        bestBet := maj;
        bestSize := diff;
      }
      tooFull := diff < need;
      found, pred, k := TryBlock(maj, need, i);
      BlockFacts(i);
    }

    /**
     The search over all blocks. It may start in the middle, at the best bet; then, having reached the end
     in vain, it starts again from the first block. Only when no block has a large enough gap does it fail.
     */
    method Search(need: nat)
      returns (found: bool, maj: int, pred: int, bestSize: int, tooFull: bool, ghost i: nat, ghost k: nat)
      requires Valid() && blocks != []
      modifies this`bestBet
      ensures Valid() && i < |blocks| && maj == blocks[i].addr && (tooFull <==> Spare(blocks[i]) < need)
      ensures found ==>
                && i == HeapModel.Serving(blocks, need, old(bestBet))
                && k == FirstGap(blocks[i].minors, blocks[i].Lo(), blocks[i].End(), need) <= |blocks[i].minors|
                && pred == MinorAddr(blocks[i].minors, k - 1)
      ensures !found ==> i + 1 == |blocks| && HeapModel.Serving(blocks, need, old(bestBet)) == |blocks|
      ensures Bet(bestBet, bestSize) == BetAfter(blocks, need, old(bestBet))
    {
      hide Kept, InUse, Allocated, FirstGap, Fits, Spare, Scanned, BetAfter, HeapModel.Serving;
      ghost var bet := bestBet;
      var started;
      maj, bestSize, started, i := StartAt(need);
      ScannedNone(blocks, need, bet);
      while true
        invariant Valid() && i < |blocks| && maj == blocks[i].addr
        invariant Scanned(blocks, need, bet, started, i, Bet(bestBet, bestSize))
        decreases started, |blocks| - i
      {
        ScannedNext(blocks, need, bet, started, i, Bet(bestBet, bestSize));
        found, pred, bestSize, tooFull, k := Visit(maj, need, bestSize, i);
        if found {
          return;
        }
        if majors[maj].next != 0 {
          maj, i := majors[maj].next, i + 1;
        } else if started {
          RootIs();
          maj, started, i := root, false, 0;
        } else {
          return;
        }
      }
    }

    lemma RootIs()
      requires Valid()
      ensures root == 0 <==> blocks == []
      ensures blocks != [] ==> root == blocks[0].addr
    {
      if blocks != [] {
        BlockFacts(0);
      }
    }

    // ---------- Placing ----------

    /**
     The headers after a minor was placed behind `pred`: case 3 at the start of the block, case 4.1 behind the last
     minor, case 4.2 between two. The block counts the bytes.
     */
    method LinkMinor(maj: int, pred: int, a: int, size: nat, req: nat, ghost i: nat, ghost k: nat)
      requires Valid() && i < |blocks| && blocks[i].addr == maj && k <= |blocks[i].minors|
      requires pred == MinorAddr(blocks[i].minors, k - 1) && a > 0
      requires a != pred && a != MinorAddr(blocks[i].minors, k)
      modifies this`majors, this`minors
      ensures minors == Insert(old(minors), a, pred, MinorAddr(blocks[i].minors, k), maj, size, req)
      ensures maj in old(majors)
      ensures majors == old(majors)[maj := old(majors)[maj].(
                            usage := blocks[i].Usage() + size + MINOR_SIZE,
                            first := if k == 0 then a else MinorAddr(blocks[i].minors, 0))]
    {
      hide Kept, InUse, Allocated, Laid;
      BlockFacts(i);
      if k > 0 {
        HeaderFacts(i, k - 1);
      }
      if k < |blocks[i].minors| {
        HeaderFacts(i, k);
      }
      ghost var n := MinorAddr(blocks[i].minors, k);
      if pred == 0 {
        var first := majors[maj].first;
        minors := minors[first := minors[first].(prev := a)];
        minors := minors[a := MinorHeader(0, first, maj, true, size, req)];
        majors := majors[maj := majors[maj].(first := a)];
      } else if minors[pred].next == 0 {
        minors := minors[pred := minors[pred].(next := a)];
        minors := minors[a := MinorHeader(pred, 0, maj, true, size, req)];
      } else {
        var next := minors[pred].next;
        minors := minors[a := MinorHeader(pred, next, maj, true, size, req)];
        minors := minors[next := minors[next].(prev := a)];
        minors := minors[pred := minors[pred].(next := a)];
      }
      assert minors == Insert(old(minors), a, pred, n, maj, size, req);
      majors := majors[maj := majors[maj].(usage := majors[maj].usage + size + MINOR_SIZE)];
    }

    /** The alignment byte before the pointer returned. */
    method Align(data: int) returns (p: int)
      modifies this`offsets
      ensures p == AlignUp(data) && offsets == old(offsets)[p - ALIGN_INFO := p - data]
    {
      p := AlignUp(data);
      offsets := offsets[p - ALIGN_INFO := p - data];
    }

    /** The request goes into gap k of block i, behind `pred`. */
    method PlaceIn(maj: int, pred: int, req: nat, ghost i: nat, ghost k: nat) returns (p: int, ghost m: Minor)
      requires Valid() && i < |blocks| && blocks[i].addr == maj && k <= |blocks[i].minors|
      requires k ==
                 FirstGap(blocks[i].minors, blocks[i].Lo(), blocks[i].End(), req + ALIGNMENT + ALIGN_INFO + MINOR_SIZE)
      requires pred == MinorAddr(blocks[i].minors, k - 1)
      modifies this`majors, this`minors, this`offsets, this`inUse, this`blocks
      ensures Valid()
              && m == Minor(GapStart(old(blocks)[i].minors, k, old(blocks)[i].Lo()), req + ALIGNMENT + ALIGN_INFO, req)
      ensures p == UserPtr(m) && p > 0
              && blocks == old(blocks)[i := old(blocks)[i].(minors := Placed(old(blocks)[i].minors, k, m))]
    {
      hide Kept, InUse, Allocated, FirstGap, Laid, Insert, Placed, AlignUp, Block.Usage;
      var size := req + ALIGNMENT + ALIGN_INFO;
      if k > 0 {
        HeaderFacts(i, k - 1);
      }
      var a := if pred == 0 then maj + MAJOR_SIZE else pred + MINOR_SIZE + minors[pred].size;
      m := Minor(a, size, req);
      ghost var b := blocks[i];
      PlaceKeeps(blocks, majors, minors, offsets, root, i, k, m);
      NewAddress(i, k, m);
      LinkMinor(maj, pred, a, size, req, i, k);
      inUse := inUse + size;
      p := Align(a + MINOR_SIZE);
      blocks := blocks[i := b.(minors := Placed(b.minors, k, m))];
    }

    lemma NewAddress(i: nat, k: nat, m: Minor)
      requires Valid() && i < |blocks| && k <= |blocks[i].minors| && m.size >= m.req + ALIGNMENT + ALIGN_INFO
      requires k == FirstGap(blocks[i].minors, blocks[i].Lo(), blocks[i].End(), m.size + MINOR_SIZE)
      requires m.addr == GapStart(blocks[i].minors, k, blocks[i].Lo())
      ensures m.addr > 0 && m.addr != MinorAddr(blocks[i].minors, k - 1) && m.addr != MinorAddr(blocks[i].minors, k)
    {
      hide Linked, HeapOk, Recorded, InUse, Allocated, FirstGap, Laid, Placed, UserPtr;
      PlaceOk(blocks, i, m);
      PlaceNeighbours(blocks, majors, minors, root, i, k, m);
    }

    /** A new block for the request alone (case 2), behind the last one or as the first. */
    method AppendNew(last: int, grant: int, req: nat) returns (p: int)
      requires Valid() && grant > 0 && last == BlockAddr(blocks, |blocks| - 1)
      requires forall i: nat :: i < |blocks| ==> Apart(blocks[i], Fresh(grant, req + ALIGNMENT + ALIGN_INFO, req))
      modifies this
      ensures Valid() && bestBet == old(bestBet) && grant in majors
      ensures blocks == old(blocks) + [Fresh(grant, req + ALIGNMENT + ALIGN_INFO, req)]
      ensures p == UserPtr(Minor(grant + MAJOR_SIZE, req + ALIGNMENT + ALIGN_INFO, req)) && p > 0
      ensures warningCount == old(warningCount) && errorCount == old(errorCount)
    {
      hide Kept, InUse, Allocated, PagesFor, AlignUp;
      var size := req + ALIGNMENT + ALIGN_INFO;
      var bytes := PagesFor(size) * HEAP_PAGE;
      ghost var b := Fresh(grant, size, req);
      AppendKeeps(blocks, majors, minors, offsets, root, grant, req);
      LastIs();
      minors := minors[grant + MAJOR_SIZE := MinorHeader(0, 0, grant, true, size, req)];
      majors := majors[grant := MajorHeader(last, 0, bytes, MAJOR_SIZE + size + MINOR_SIZE, grant + MAJOR_SIZE)];
      if last == 0 {
        root := grant;
      } else {
        majors := majors[last := majors[last].(next := grant)];
      }
      totalAllocated := totalAllocated + bytes;
      inUse := inUse + size;
      p := Align(grant + MAJOR_SIZE + MINOR_SIZE);
      blocks := blocks + [b];
    }

    lemma LastIs()
      requires Valid()
      ensures BlockAddr(blocks, |blocks| - 1) == 0 <==> blocks == []
      ensures blocks != [] ==> BlockAddr(blocks, |blocks| - 1) in majors
    {
      if blocks != [] {
        BlockFacts(|blocks| - 1);
      }
    }

    /**
     `kmalloc`. `grant` is the address at which the system would hand out new pages, 0 for none. Pages are
     requested only if no gap of any block fits, and the request fails only if there are none to be had.
     */
    method Malloc(req: nat, grant: int) returns (p: int, ghost m: Minor)
      requires Valid()
      requires grant >= 0
      requires grant > 0 ==>
                 forall i: nat :: i < |blocks| ==> Apart(blocks[i], Fresh(grant, req + ALIGNMENT + ALIGN_INFO, req))
      modifies this
      ensures Valid() && errorCount == old(errorCount)
      ensures p == 0 ==> blocks == old(blocks)
      ensures p == 0 <==>
                grant == 0
                && forall j: nat :: j < |old(blocks)| ==>
                     !Fits(old(blocks)[j], req + ALIGNMENT + ALIGN_INFO + MINOR_SIZE)
      ensures p != 0 ==>
                p == UserPtr(m) && m.req == req && m.size == req + ALIGNMENT + ALIGN_INFO
                && Grew(old(blocks), blocks, m, grant)
      ensures var i := HeapModel.Serving(old(blocks), req + ALIGNMENT + ALIGN_INFO + MINOR_SIZE, old(bestBet));
              i < |old(blocks)| ==> p != 0 && GrewIn(old(blocks), blocks, m, i)
      ensures bestBet == BetThen(old(blocks), req, old(bestBet), grant)
      ensures warningCount == old(warningCount) + if p == 0 then 1 else 0
    {
      hide Kept, InUse, Allocated, FirstGap, Placed, AlignUp, PagesFor, Apart, Grew, Fits, HeapModel.Serving, BetAfter;
      NoneServing(blocks, req + ALIGNMENT + ALIGN_INFO + MINOR_SIZE, bestBet);
      BetEmpty();
      RootIs();
      var need := req + ALIGNMENT + ALIGN_INFO + MINOR_SIZE;
      var found, maj, pred, bestSize, tooFull := false, 0, 0, 0, false;
      ghost var i, k := 0, 0;
      var none := root == 0;
      if !none {
        found, maj, pred, bestSize, tooFull, i, k := Search(need);
      }
      if found {
        p, m := PlaceIn(maj, pred, req, i, k);
        GrewAt(old(blocks), blocks, m, grant, i);
        return;
      }
      if grant == 0 {
        warningCount := warningCount + 1;
        p, m := 0, Minor(0, 0, 0);
        return;
      }
      p := AppendNew(maj, grant, req);
      m := Minor(grant + MAJOR_SIZE, req + ALIGNMENT + ALIGN_INFO, req);
      GrewNew(old(blocks), m, grant);
      if (none || !tooFull) && bestSize < PagesFor(req + ALIGNMENT + ALIGN_INFO) * HEAP_PAGE - MAJOR_SIZE {
        bestBet := grant;
      }
    }

    lemma NoneServing(bs: seq<Block>, need: int, bet: int)
      ensures bs == [] ==> HeapModel.Serving(bs, need, bet) == 0
      ensures HeapModel.Serving(bs, need, bet) == |bs| <==> forall j: nat :: j < |bs| ==> !Fits(bs[j], need)
    {
    }

    lemma BetEmpty()
      requires Valid()
      ensures blocks == [] ==> bestBet == 0
    {
    }

    // ---------- Freeing ----------

    /**
     `UNALIGN` and the step back over the header: where the header of a pointer should be. Where the heap never wrote
     an alignment byte, memory holds `stray`.
     */
    function HeaderAt(ptr: int, stray: nat): int
      reads this
    {
      var diff := if ptr - ALIGN_INFO in offsets then offsets[ptr - ALIGN_INFO] else stray;
      (if diff < ALIGNMENT + ALIGN_INFO then ptr - diff else ptr) - MINOR_SIZE
    }

    /** The header at an address carries the magic number; memory the heap never wrote does not. */
    predicate AliveAt(a: int)
      reads this
    {
      a in minors && minors[a].alive
    }

    /** The pointer of every live minor leads back to its header. */
    lemma PointerLeadsBack(i: nat, k: nat, stray: nat)
      requires Valid() && i < |blocks| && k < |blocks[i].minors|
      ensures var m := blocks[i].minors[k];
              && HeaderAt(UserPtr(m), stray) == m.addr
              && AliveAt(m.addr) && minors[m.addr] == MinorOf(blocks[i], k)
    {
      MinorFacts(blocks, majors, minors, root, i, k);
      assert RecordedAt(blocks, Addrs(blocks), Heads(minors), offsets, i, k);
      assert BlockOk(blocks[i]);
      LaidAt(blocks[i].minors, k, blocks[i].Lo(), blocks[i].End());
      UserInside(blocks[i].minors[k]);
    }

    /** Every live header is that of a minor. */
    lemma Locate(a: int) returns (i: nat, k: nat)
      requires Valid() && AliveAt(a)
      ensures i < |blocks| && k < |blocks[i].minors| && blocks[i].minors[k].addr == a
    {
      assert Heads(minors)[a].alive;
      assert Live(blocks, Addrs(blocks), minors[a].block, a);
      i, k :| i < |blocks| && k < |blocks[i].minors| && Addrs(blocks)[i] == minors[a].block
              && blocks[i].minors[k].addr == a;
    }

    /** The header at a is dead, its neighbours are linked to each other, and the block counts the bytes. */
    method UnlinkMinor(a: int, ghost i: nat, ghost k: nat) returns (maj: int)
      requires Valid() && i < |blocks| && k < |blocks[i].minors| && blocks[i].minors[k].addr == a
      modifies this`majors, this`minors, this`inUse
      ensures maj == blocks[i].addr && maj in old(majors) && a in old(minors)
      ensures inUse == old(inUse) - blocks[i].minors[k].size && minors == Remove(old(minors), a)
      ensures majors == old(majors)[maj := old(majors)[maj].(
                            usage := blocks[i].Usage() - (blocks[i].minors[k].size + MINOR_SIZE),
                            first := MinorAddr(blocks[i].minors, if k == 0 then 1 else 0))]
    {
      hide Kept, InUse, Allocated, Laid;
      BlockFacts(i);
      HeaderFacts(i, k);
      NeighboursFacts(i, k);
      var min := minors[a];
      maj := min.block;
      inUse := inUse - min.size;
      majors := majors[maj := majors[maj].(usage := majors[maj].usage - (min.size + MINOR_SIZE))];
      minors := minors[a := min.(alive := false)];
      if min.next != 0 {
        minors := minors[min.next := minors[min.next].(prev := min.prev)];
      }
      if min.prev != 0 {
        minors := minors[min.prev := minors[min.prev].(next := min.next)];
      } else {
        majors := majors[maj := majors[maj].(first := min.next)];
      }
    }

    lemma NeighboursFacts(i: nat, k: nat)
      requires Valid() && i < |blocks| && k < |blocks[i].minors|
      ensures var a := blocks[i].minors[k].addr;
              && a in minors && (minors[a].prev != 0 ==> minors[a].prev in minors)
              && (minors[a].next != 0 ==> minors[a].next in minors)
    {
      MinorFacts(blocks, majors, minors, root, i, k);
    }

    /** The header of block i after minor k was unlinked. */
    ghost function Lessened(i: nat, k: nat): MajorHeader
      reads this
      requires i < |blocks| && k < |blocks[i].minors| && blocks[i].addr in majors
    {
      majors[blocks[i].addr].(usage := blocks[i].Usage() - (blocks[i].minors[k].size + MINOR_SIZE),
                              first := MinorAddr(blocks[i].minors, if k == 0 then 1 else 0))
    }

    /** If others remain in the block, that was all. */
    lemma DropFacts(i: nat, k: nat)
      requires Valid() && i < |blocks| && k < |blocks[i].minors| && |blocks[i].minors| > 1
      ensures var b := blocks[i];
              && b.addr in majors && b.minors[k].addr in minors && Lessened(i, k).first != 0
              && Kept(Freed(blocks, i, k), majors[b.addr := Lessened(i, k)], Remove(minors, b.minors[k].addr), offsets,
                      root)
              && inUse - b.minors[k].size == InUse(Freed(blocks, i, k))
              && totalAllocated == Allocated(Freed(blocks, i, k))
    {
      assert BlockOk(blocks[i]);
      BlockDifferent(blocks[i]);
      hide Kept, InUse, Allocated, Laid, Remove, Block.Usage, Freed;
      DropKeeps(blocks, majors, minors, offsets, root, i, k);
    }

    /** If not, the block is to be released. */
    lemma ReleaseFacts(i: nat)
      requires Valid() && i < |blocks| && |blocks[i].minors| == 1
      ensures var b := blocks[i];
              && b.addr in majors && b.minors[0].addr in minors && Lessened(i, 0).first == 0
      ensures var b := blocks[i];
              var majors' := majors[b.addr := Lessened(i, 0)];
              && Kept(Freed(blocks, i, 0), Outside(Unlink(majors', b.addr), b),
                      Outside(Remove(minors, b.minors[0].addr), b), Outside(offsets, b),
                      if root == b.addr then majors[b.addr].next else root)
      ensures inUse - blocks[i].minors[0].size == InUse(Freed(blocks, i, 0))
              && totalAllocated - blocks[i].size == Allocated(Freed(blocks, i, 0))
    {
      MinorFacts(blocks, majors, minors, root, i, 0);
      MajorFacts(blocks, majors, minors, root, i);
      BlocksDiffer(blocks, i, i);
      assert BlockOk(blocks[i]);
      LaidAt(blocks[i].minors, 0, blocks[i].Lo(), blocks[i].End());
      hide Kept, InUse, Allocated, Laid, Remove, Unlink, Outside, Block.Usage, Freed;
      RemoveBlockKeeps(blocks, majors, minors, offsets, root, i);
      WritesGone(majors, minors, blocks[i], blocks[i].minors[0].addr, Lessened(i, 0));
    }

    lemma ReleaseAllowed(i: nat)
      requires Valid() && i < |blocks| && |blocks[i].minors| == 1
      ensures var b := blocks[i];
              && b.addr in majors && b.minors[0].addr in minors && b.size == majors[b.addr].size
              && (var h := majors[b.addr];
                  && h.prev != b.addr && h.next != b.addr && (h.prev != 0 ==> h.prev in majors)
                  && (h.next != 0 ==> h.next in majors) && totalAllocated >= h.size)
      ensures var b := blocks[i];
              bestBet == 0 || bestBet == b.addr
              || bestBet in Outside(Unlink(majors[b.addr := Lessened(i, 0)], b.addr), b)
    {
      MinorFacts(blocks, majors, minors, root, i, 0);
      MajorFacts(blocks, majors, minors, root, i);
      BlocksDiffer(blocks, i, i);
      RemoveOk(blocks, i);
      hide Kept, Outside, Unlink, Allocated, InUse, Block.Usage;
      BetOutside(i);
    }

    lemma BetOutside(i: nat)
      requires Valid() && i < |blocks| && blocks[i].addr in majors && |blocks[i].minors| == 1
      ensures var b := blocks[i];
              bestBet == 0 || bestBet == b.addr
              || bestBet in Outside(Unlink(majors[b.addr := Lessened(i, 0)], b.addr), b)
    {
      if bestBet != 0 {
        var j: nat :| j < |blocks| && blocks[j].addr == bestBet;
        if j != i {
          NotInside(blocks, i, j);
        }
      }
    }

    /** The block leaves the list, and its pages, with all that is written in them, go back to the system. */
    method ReleaseBlock(maj: int, ghost b: Block)
      requires maj in majors && b.addr == maj && b.size == majors[maj].size
      requires var h := majors[maj];
               && (h.prev != 0 ==> h.prev in majors) && (h.next != 0 ==> h.next in majors) && h.next != maj
               && totalAllocated >= h.size
      modifies this`root, this`bestBet, this`majors, this`minors, this`offsets, this`totalAllocated
      ensures root == if old(root) == maj then old(majors)[maj].next else old(root)
      ensures bestBet == if old(bestBet) == maj then 0 else old(bestBet)
      ensures totalAllocated == old(totalAllocated) - b.size
      ensures majors == Outside(Unlink(old(majors), maj), b) && minors == Outside(old(minors), b)
              && offsets == Outside(old(offsets), b)
    {
      hide Beyond;
      var h := majors[maj];
      if root == maj {
        root := h.next;
      }
      if bestBet == maj {
        bestBet := 0;
      }
      if h.prev != 0 {
        majors := majors[h.prev := majors[h.prev].(next := h.next)];
      }
      if h.next != 0 {
        majors := majors[h.next := majors[h.next].(prev := h.prev)];
      }
      totalAllocated := totalAllocated - h.size;
      majors := Beyond(majors, maj, maj + h.size);
      minors := Beyond(minors, maj, maj + h.size);
      offsets := Beyond(offsets, maj, maj + h.size);
    }

    /** A live minor is freed, and its block is released if it was the only one. */
    method FreeMinor(a: int, ghost i: nat, ghost k: nat)
      requires Valid() && i < |blocks| && k < |blocks[i].minors| && blocks[i].minors[k].addr == a
      modifies this`root, this`bestBet, this`majors, this`minors, this`offsets
      modifies this`totalAllocated, this`inUse, this`blocks
      ensures Valid() && blocks == Freed(old(blocks), i, k) && bestBet == BetFreed(old(blocks), i, k, old(bestBet))
    {
      hide Kept, InUse, Allocated, Laid, Remove, Unlink, Outside, Block.Usage, Freed, MinorAddr, BetSpare;
      FreedThere(blocks, i, k);
      if |blocks[i].minors| > 1 {
        DropFacts(i, k);
      } else {
        ReleaseFacts(i);
        ReleaseAllowed(i);
      }
      ghost var b := blocks[i];
      var maj := UnlinkMinor(a, i, k);
      blocks := Freed(blocks, i, k);
      if majors[maj].first == 0 {
        ReleaseBlock(maj, b);
      } else {
        Rebet(maj);
      }
    }

    /** The block that lost a minor is the best bet if it has more to spare than the one so far. */
    method Rebet(maj: int)
      requires Valid() && AddressIndex(blocks, maj) < |blocks|
      modifies this`bestBet
      ensures Valid()
      ensures bestBet ==
                if old(bestBet) != 0 && BetSpare(blocks, maj) > BetSpare(blocks, old(bestBet)) then maj
                else old(bestBet)
    {
      hide Kept, InUse, Allocated, Laid;
      BlockFacts(AddressIndex(blocks, maj));
      if bestBet != 0 {
        BetThere();
        BlockFacts(AddressIndex(blocks, bestBet));
        if majors[maj].size - majors[maj].usage > majors[bestBet].size - majors[bestBet].usage {
          bestBet := maj;
        }
      }
    }

    /** `kfree`: nothing but the error count changes unless the pointer leads to a live header. */
    method Free(ptr: int, stray: nat) returns (ghost i: nat, ghost k: nat)
      requires Valid()
      modifies this
      ensures Valid()
      ensures ptr == 0 ==>
                warningCount == old(warningCount) + 1 && errorCount == old(errorCount) && blocks == old(blocks)
      ensures ptr != 0 && !old(AliveAt(HeaderAt(ptr, stray))) ==>
                errorCount == old(errorCount) + 1 && blocks == old(blocks) && minors == old(minors)
                && majors == old(majors) && offsets == old(offsets)
      ensures ptr != 0 && old(AliveAt(HeaderAt(ptr, stray))) ==>
                && i < |old(blocks)| && k < |old(blocks)[i].minors|
                && old(blocks)[i].minors[k].addr == old(HeaderAt(ptr, stray))
                && errorCount == old(errorCount) && blocks == Freed(old(blocks), i, k)
                && bestBet == BetFreed(old(blocks), i, k, old(bestBet))
    {
      hide Kept, InUse, Allocated, Freed, HeaderAt, BetFreed;
      i, k := 0, 0;
      if ptr == 0 {
        warningCount := warningCount + 1;
        return;
      }
      var a := HeaderAt(ptr, stray);
      if !AliveAt(a) {
        errorCount := errorCount + 1;
        return;
      }
      i, k := Locate(a);
      FreeMinor(a, i, k);
    }
  }
}
