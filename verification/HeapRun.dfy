/** Whole runs of the kernel heap: callers that free what they were given, once, in any order. */
module HeapRun {
  import opened HeapModel
  import opened HeapLinks
  import opened KernelHeap

  /** The pointers of all live minors. */
  ghost function Pointers(bs: seq<Block>): set<int> {
    set i: nat, k: nat | i < |bs| && k < |bs[i].minors| :: UserPtr(bs[i].minors[k])
  }

  ghost predicate Points(bs: seq<Block>, i: nat, k: nat, p: int) {
    i < |bs| && k < |bs[i].minors| && UserPtr(bs[i].minors[k]) == p
  }

  lemma PointersAt(bs: seq<Block>, p: int)
    ensures p in Pointers(bs) <==> exists i: nat, k: nat :: Points(bs, i, k, p)
  {
    if p in Pointers(bs) {
      var i: nat, k: nat :| i < |bs| && k < |bs[i].minors| && UserPtr(bs[i].minors[k]) == p;
      assert Points(bs, i, k, p);
    }
  }

  /** What two callers hold is aligned, disjoint, and clear of every header in the heap. */
  lemma HeldApart(bs: seq<Block>, i: nat, k: nat, j: nat, l: nat)
    requires HeapOk(bs) && i < |bs| && k < |bs[i].minors| && j < |bs| && l < |bs[j].minors| && (i != j || k != l)
    ensures var m, n := bs[i].minors[k], bs[j].minors[l];
            && UserPtr(m) % ALIGNMENT == 0 && UserPtr(m) != UserPtr(n)
            && (UserPtr(m) + m.req <= UserPtr(n) || UserPtr(n) + n.req <= UserPtr(m))
            && (UserPtr(m) + m.req <= n.addr || n.Data() <= UserPtr(m))
            && (UserPtr(m) + m.req <= bs[j].addr || bs[j].Lo() <= UserPtr(m))
  {
    LiveApart(bs, i, k, j, l);
    LaidAt(bs[i].minors, k, bs[i].Lo(), bs[i].End());
    LaidAt(bs[j].minors, l, bs[j].Lo(), bs[j].End());
    UserInside(bs[i].minors[k]);
    UserInside(bs[j].minors[l]);
  }

  /** One more minor is one more pointer. */
  lemma PlacedPointers(bs: seq<Block>, i: nat, k: nat, m: Minor, p: int)
    requires i < |bs| && k <= |bs[i].minors|
    ensures var bs' := bs[i := bs[i].(minors := Placed(bs[i].minors, k, m))];
            p in Pointers(bs') <==> p in Pointers(bs) || p == UserPtr(m)
  {
    var ms := bs[i].minors;
    var bs' := bs[i := bs[i].(minors := Placed(ms, k, m))];
    forall l: nat | l <= |ms|
      ensures l < k ==> bs'[i].minors[l] == ms[l]
      ensures l == k ==> bs'[i].minors[l] == m
      ensures l > k ==> bs'[i].minors[l] == ms[l - 1]
    {
      PlacedAt(ms, k, m, l);
    }
    if p in Pointers(bs) {
      PointersAt(bs, p);
      var j: nat, l: nat :| Points(bs, j, l, p);
      assert Points(bs', j, if j == i && l >= k then l + 1 else l, p);
    }
    if p in Pointers(bs') {
      PointersAt(bs', p);
      var j: nat, l: nat :| Points(bs', j, l, p);
      assert l != k || j != i ==> Points(bs, j, if j == i && l > k then l - 1 else l, p);
    }
    assert Points(bs', i, k, UserPtr(m));
  }

  lemma AppendedPointers(bs: seq<Block>, b: Block, p: int)
    requires |b.minors| == 1
    ensures p in Pointers(bs + [b]) <==> p in Pointers(bs) || p == UserPtr(b.minors[0])
  {
    var bs' := bs + [b];
    if p in Pointers(bs) {
      PointersAt(bs, p);
      var j: nat, l: nat :| Points(bs, j, l, p);
      assert Points(bs', j, l, p);
    }
    if p in Pointers(bs') {
      PointersAt(bs', p);
      var j: nat, l: nat :| Points(bs', j, l, p);
      assert j < |bs| ==> Points(bs, j, l, p);
    }
    assert Points(bs', |bs|, 0, UserPtr(b.minors[0]));
  }

  /** One minor fewer is one pointer fewer. */
  lemma FreedPointers(bs: seq<Block>, i: nat, k: nat, p: int)
    requires HeapOk(bs) && i < |bs| && k < |bs[i].minors|
    ensures p in Pointers(Freed(bs, i, k)) <==> p in Pointers(bs) && p != UserPtr(bs[i].minors[k])
  {
    var bs' := Freed(bs, i, k);
    if p in Pointers(bs) && p != UserPtr(bs[i].minors[k]) {
      PointersAt(bs, p);
      var j: nat, l: nat :| Points(bs, j, l, p);
      KeptPlace(bs, i, k, j, l);
    }
    if p in Pointers(bs') {
      PointersAt(bs', p);
      var j: nat, l: nat :| Points(bs', j, l, p);
      var j0, l0 := OldPlace(bs, i, k, j, l);
      assert Points(bs, j0, l0, p);
      HeldApart(bs, j0, l0, i, k);
    }
  }

  /** Where a minor that was not freed is afterwards, and where it was before. */
  lemma KeptPlace(bs: seq<Block>, i: nat, k: nat, j: nat, l: nat)
    requires i < |bs| && k < |bs[i].minors| && j < |bs| && l < |bs[j].minors| && (j != i || l != k)
    ensures UserPtr(bs[j].minors[l]) in Pointers(Freed(bs, i, k))
  {
    var bs' := Freed(bs, i, k);
    var p := UserPtr(bs[j].minors[l]);
    if |bs[i].minors| > 1 {
      var l' := if j == i && l > k then l - 1 else l;
      if j == i {
        DroppedAt(bs[i].minors, k, l');
      }
      assert Points(bs', j, l', p);
    } else {
      var j' := if j > i then j - 1 else j;
      DroppedAt(bs, i, j');
      assert Points(bs', j', l, p);
    }
  }

  lemma OldPlace(bs: seq<Block>, i: nat, k: nat, j: nat, l: nat) returns (j0: nat, l0: nat)
    requires i < |bs| && k < |bs[i].minors| && j < |Freed(bs, i, k)| && l < |Freed(bs, i, k)[j].minors|
    ensures j0 < |bs| && l0 < |bs[j0].minors| && (j0 != i || l0 != k)
            && bs[j0].minors[l0] == Freed(bs, i, k)[j].minors[l]
  {
    if |bs[i].minors| > 1 {
      j0, l0 := j, if j == i && l >= k then l + 1 else l;
      if j == i {
        DroppedAt(bs[i].minors, k, l);
      }
    } else {
      j0, l0 := if j >= i then j + 1 else j, l;
      DroppedAt(bs, i, j);
    }
  }

  lemma SomebodyHolds(bs: seq<Block>)
    requires HeapOk(bs) && bs != []
    ensures Pointers(bs) != {}
  {
    assert BlockOk(bs[0]);
    assert UserPtr(bs[0].minors[0]) in Pointers(bs);
  }

  /** A new minor's pointer was held by nobody before. */
  lemma GrewPointers(before: seq<Block>, after: seq<Block>, m: Minor, grant: int)
    requires HeapOk(before) && HeapOk(after) && Grew(before, after, m, grant)
    ensures UserPtr(m) !in Pointers(before) && Pointers(after) == Pointers(before) + {UserPtr(m)}
  {
    var need := m.size + MINOR_SIZE;
    if i: nat :| i < |before| && GrewIn(before, after, m, i) {
      var b := before[i];
      var k := FirstGap(b.minors, b.Lo(), b.End(), need);
      forall p ensures p in Pointers(after) <==> p in Pointers(before) || p == UserPtr(m) {
        PlacedPointers(before, i, k, m, p);
      }
      PlacedAt(b.minors, k, m, k);
      assert BlockOk(b);
      FreeUndoesPlace(before, i, k, m, Fresh(1, 0, 0));
      NewIn(before, after, i, k);
    } else {
      var b := Fresh(grant, m.size, m.req);
      forall p ensures p in Pointers(after) <==> p in Pointers(before) || p == UserPtr(m) {
        AppendedPointers(before, b, p);
      }
      NewIn(before, after, |before|, 0);
    }
  }

  /** Minor k of block i of the heap after is the only one the heap before did not have. */
  lemma NewIn(before: seq<Block>, after: seq<Block>, i: nat, k: nat)
    requires HeapOk(after) && i < |after| && k < |after[i].minors| && Freed(after, i, k) == before
    ensures UserPtr(after[i].minors[k]) !in Pointers(before)
  {
    FreedPointers(after, i, k, UserPtr(after[i].minors[k]));
  }

  /** A request, with the address at which new pages would be granted (0: none), or the return of a pointer. */
  datatype HeapOp = Alloc(req: nat, grant: nat) | Release(p: int, stray: nat)

  /** `Skipped`: the pages to be granted are in use, or nobody holds the pointer to be returned. */
  datatype HeapOut = Got(p: int) | Null | Returned | Skipped

  /** The pointers that callers hold after a run. */
  function HeldAfter(ops: seq<HeapOp>, outs: seq<HeapOut>): set<int>
    requires |ops| == |outs|
  {
    if ops == [] then {}
    else
      var n := |ops| - 1;
      var held := HeldAfter(ops[..n], outs[..n]);
      if ops[n].Alloc? && outs[n].Got? then held + {outs[n].p}
      else if ops[n].Release? && outs[n].Returned? then held - {ops[n].p}
      else held
  }

  function Need(req: nat): nat { req + ALIGNMENT + ALIGN_INFO + MINOR_SIZE }

  /** The pages granted for a request are not in use. */
  ghost predicate GrantFree(bs: seq<Block>, req: nat, grant: nat) {
    forall i: nat :: i < |bs| ==> Apart(bs[i], Fresh(grant, req + ALIGNMENT + ALIGN_INFO, req))
  }

  /** Minor m was placed for the request: in the first gap of some block, or, with no gap large enough, in new pages. */
  ghost predicate Served(bs: seq<Block>, bs': seq<Block>, req: nat, grant: nat, p: int) {
    exists m: Minor ::
      m.req == req && m.size == req + ALIGNMENT + ALIGN_INFO && p == UserPtr(m) && Grew(bs, bs', m, grant)
  }

  ghost predicate GaveBack(bs: seq<Block>, bs': seq<Block>, p: int) {
    exists i: nat, k: nat :: Points(bs, i, k, p) && bs' == Freed(bs, i, k)
  }

  /** What an operation does to the heap, and which outcome it has. */
  ghost predicate HeapStep(bs: seq<Block>, op: HeapOp, out: HeapOut, bs': seq<Block>) {
    match op
    case Alloc(req, grant) =>
      if grant > 0 && !GrantFree(bs, req, grant) then out.Skipped? && bs' == bs
      else if grant == 0 && forall j: nat :: j < |bs| ==> !Fits(bs[j], Need(req)) then out.Null? && bs' == bs
      else out.Got? && out.p !in Pointers(bs) && Served(bs, bs', req, grant, out.p)
    case Release(p, _) =>
      if p in Pointers(bs) then out.Returned? && GaveBack(bs, bs', p) else out.Skipped? && bs' == bs
  }

  /** The heaps of a run: allocations are laid out apart, and exactly the pointers held are those of live minors. */
  ghost predicate HeapRuns(heaps: seq<seq<Block>>, ops: seq<HeapOp>, outs: seq<HeapOut>) {
    && |heaps| == |ops| + 1 == |outs| + 1 && heaps[0] == []
    && (forall n: nat :: n < |heaps| ==> HeapOk(heaps[n]))
    && (forall n: nat :: n < |heaps| ==> Pointers(heaps[n]) == HeldAfter(ops[..n], outs[..n]))
    && (forall n: nat :: n < |ops| ==> HeapStep(heaps[n], ops[n], outs[n], heaps[n + 1]))
  }

  lemma RunExtends(heaps: seq<seq<Block>>, ops: seq<HeapOp>, outs: seq<HeapOut>, op: HeapOp, out: HeapOut,
                   bs: seq<Block>)
    requires HeapRuns(heaps, ops, outs) && HeapOk(bs) && HeapStep(heaps[|ops|], op, out, bs)
    requires Pointers(bs) == HeldAfter(ops + [op], outs + [out])
    ensures HeapRuns(heaps + [bs], ops + [op], outs + [out])
  {
    hide HeapOk, Pointers, HeapStep, HeldAfter;
    var heaps', ops', outs' := heaps + [bs], ops + [op], outs + [out];
    assert ops'[..|ops'|] == ops' && outs'[..|ops'|] == outs';
    forall n: nat | n < |heaps'| ensures Pointers(heaps'[n]) == HeldAfter(ops'[..n], outs'[..n]) {
      assert n <= |ops| ==> ops'[..n] == ops[..n] && outs'[..n] == outs[..n];
    }
  }

  lemma HeldNext(ops: seq<HeapOp>, outs: seq<HeapOut>, op: HeapOp, out: HeapOut)
    requires |ops| == |outs|
    ensures HeldAfter(ops + [op], outs + [out]) ==
            var held := HeldAfter(ops, outs);
            if op.Alloc? && out.Got? then held + {out.p}
            else if op.Release? && out.Returned? then held - {op.p} else held
  {
    assert (ops + [op])[..|ops|] == ops && (outs + [out])[..|ops|] == outs;
  }

  /** A held pointer leads to a live minor, so giving it back frees that minor and no other. */
  method GiveBack(heap: Heap, p: int, stray: nat)
    requires heap.Valid() && p in Pointers(heap.blocks)
    modifies heap
    ensures heap.Valid() && GaveBack(old(heap.blocks), heap.blocks, p) && heap.errorCount == old(heap.errorCount)
    ensures Pointers(heap.blocks) == old(Pointers(heap.blocks)) - {p}
  {
    hide *;
    ghost var bs := heap.blocks;
    PointersAt(bs, p);
    ghost var i: nat, k: nat :| Points(bs, i, k, p);
    HeldFacts(heap, i, k, p, stray);
    ghost var j, l := heap.Free(p, stray);
    FreedWas(bs, i, k, j, l);
    forall q ensures q in Pointers(Freed(bs, j, l)) <==> q in Pointers(bs) && q != p {
      FreedPointers(bs, j, l, q);
    }
    GaveBackAt(bs, i, k, p);
  }

  lemma GaveBackAt(bs: seq<Block>, i: nat, k: nat, p: int)
    requires Points(bs, i, k, p)
    ensures i < |bs| && k < |bs[i].minors| && GaveBack(bs, Freed(bs, i, k), p)
  {
  }

  lemma HeldFacts(heap: Heap, i: nat, k: nat, p: int, stray: nat)
    requires heap.Valid() && Points(heap.blocks, i, k, p)
    ensures HeapOk(heap.blocks) && i < |heap.blocks| && k < |heap.blocks[i].minors|
            && p == UserPtr(heap.blocks[i].minors[k])
    ensures p > 0 && heap.HeaderAt(p, stray) == heap.blocks[i].minors[k].addr && heap.AliveAt(heap.HeaderAt(p, stray))
  {
    heap.PointerLeadsBack(i, k, stray);
    var b := heap.blocks[i];
    assert BlockOk(b);
    LaidAt(b.minors, k, b.Lo(), b.End());
    UserInside(b.minors[k]);
  }

  /** Two minors with their headers at one address are the same. */
  lemma FreedWas(bs: seq<Block>, i: nat, k: nat, j: nat, l: nat)
    requires HeapOk(bs) && i < |bs| && k < |bs[i].minors| && j < |bs| && l < |bs[j].minors|
    requires bs[i].minors[k].addr == bs[j].minors[l].addr
    ensures i == j && k == l
  {
    if i != j || k != l {
      ApartRecords(bs, i, k, j, l);
    }
  }

  /** A request is served with a pointer nobody held, or refused and nothing changes. */
  method Request(heap: Heap, req: nat, grant: nat) returns (p: int)
    requires heap.Valid() && (grant > 0 ==> GrantFree(heap.blocks, req, grant))
    modifies heap
    ensures heap.Valid() && heap.errorCount == old(heap.errorCount)
    ensures p == 0 <==> grant == 0 && forall j: nat :: j < |old(heap.blocks)| ==> !Fits(old(heap.blocks)[j], Need(req))
    ensures p == 0 ==> heap.blocks == old(heap.blocks)
    ensures p != 0 ==> p !in old(Pointers(heap.blocks)) && Pointers(heap.blocks) == old(Pointers(heap.blocks)) + {p}
    ensures p != 0 ==> Served(old(heap.blocks), heap.blocks, req, grant, p)
  {
    GrantApart(heap.blocks, req, grant);
    NeedIs(req);
    hide *;
    ghost var bs := heap.blocks;
    ghost var m;
    HeapIsOk(heap);
    p, m := heap.Malloc(req, grant);
    HeapIsOk(heap);
    if p != 0 {
      GrewPointers(bs, heap.blocks, m, grant);
      ServedBy(bs, heap.blocks, m, grant);
    }
  }

  lemma NeedIs(req: nat)
    ensures Need(req) == req + ALIGNMENT + ALIGN_INFO + MINOR_SIZE
  {
  }

  lemma ServedBy(bs: seq<Block>, bs': seq<Block>, m: Minor, grant: nat)
    requires m.size == m.req + ALIGNMENT + ALIGN_INFO && Grew(bs, bs', m, grant)
    ensures Served(bs, bs', m.req, grant, UserPtr(m))
  {
  }

  lemma GrantApart(bs: seq<Block>, req: nat, grant: nat)
    ensures GrantFree(bs, req, grant) <==>
              forall i: nat :: i < |bs| ==> Apart(bs[i], Fresh(grant, req + ALIGNMENT + ALIGN_INFO, req))
  {
  }

  lemma HeapIsOk(heap: Heap)
    requires heap.Valid()
    ensures HeapOk(heap.blocks)
  {
  }

  /** The same test on the blocks' headers. */
  predicate GrantOk(majors: map<int, MajorHeader>, req: nat, grant: nat) {
    var pages := PagesFor(req + ALIGNMENT + ALIGN_INFO) * HEAP_PAGE;
    forall a :: a in majors ==> a + majors[a].size <= grant || grant + pages <= a
  }

  lemma GrantIs(heap: Heap, req: nat, grant: nat)
    requires heap.Valid()
    ensures GrantOk(heap.majors, req, grant) <==> GrantFree(heap.blocks, req, grant)
  {
    hide PagesFor, HeapOk, Recorded;
    forall i: nat | i < |heap.blocks|
      ensures heap.blocks[i].addr in heap.majors && heap.majors[heap.blocks[i].addr].size == heap.blocks[i].size
    {
      heap.BlockFacts(i);
    }
    if GrantFree(heap.blocks, req, grant) {
      forall a | a in heap.majors
        ensures var pages := PagesFor(req + ALIGNMENT + ALIGN_INFO) * HEAP_PAGE;
                a + heap.majors[a].size <= grant || grant + pages <= a
      {
        var i: nat :| i < |heap.blocks| && heap.blocks[i].addr == a;
        assert Apart(heap.blocks[i], Fresh(grant, req + ALIGNMENT + ALIGN_INFO, req));
      }
    }
  }

  /** One operation of a caller. */
  method Perform(heap: Heap, op: HeapOp, held: set<int>) returns (out: HeapOut)
    requires heap.Valid() && held == Pointers(heap.blocks)
    modifies heap
    ensures heap.Valid() && HeapStep(old(heap.blocks), op, out, heap.blocks) && heap.errorCount == old(heap.errorCount)
    ensures Pointers(heap.blocks) ==
            if op.Alloc? && out.Got? then held + {out.p}
            else if op.Release? && out.Returned? then held - {op.p} else held
  {
    hide Heap.Valid, Pointers, GrantOk, GrantFree, Fits, Need, Served, GaveBack;
    out := Skipped;
    match op
    case Alloc(req, grant) =>
      GrantIs(heap, req, grant);
      if grant == 0 || GrantOk(heap.majors, req, grant) {
        var p := Request(heap, req, grant);
        out := if p == 0 then Null else Got(p);
      }
    case Release(p, stray) =>
      if p in held {
        GiveBack(heap, p, stray);
        out := Returned;
      }
  }

  /**
   Any run of requests and returns on a new heap: every request that is served gets a pointer nobody holds, exactly the
   pointers held have live minors, no return ever counts as an error, and once everything is back the heap has given
   all its pages back too.
   */
  method Run(heap: Heap, ops: seq<HeapOp>) returns (outs: seq<HeapOut>, ghost heaps: seq<seq<Block>>)
    requires heap.Valid() && heap.blocks == []
    modifies heap
    ensures heap.Valid() && HeapRuns(heaps, ops, outs) && heaps[|ops|] == heap.blocks
            && heap.errorCount == old(heap.errorCount)
    ensures HeldAfter(ops, outs) == {} ==> heap.blocks == [] && heap.inUse == 0 && heap.totalAllocated == 0
  {
    hide *;
    EmptyHeap(heap);
    outs, heaps := [], [[]];
    var held: set<int> := {};
    for n := 0 to |ops|
      invariant heap.Valid() && |outs| == n && HeapRuns(heaps, ops[..n], outs) && |heaps| == n + 1
                && heaps[n] == heap.blocks
      invariant held == Pointers(heap.blocks) == HeldAfter(ops[..n], outs) && heap.errorCount == old(heap.errorCount)
    {
      var op := ops[n];
      var out := Perform(heap, op, held);
      held :=
        if op.Alloc? && out.Got? then held + {out.p} else if op.Release? && out.Returned? then held - {op.p} else held;
      HeldNext(ops[..n], outs, op, out);
      HeapIsOk(heap);
      RunExtends(heaps, ops[..n], outs, op, out, heap.blocks);
      assert ops[..n + 1] == ops[..n] + [op];
      outs, heaps := outs + [out], heaps + [heap.blocks];
    }
    assert ops[..|ops|] == ops;
    AllBack(heap);
  }

  lemma EmptyHeap(heap: Heap)
    requires heap.Valid() && heap.blocks == []
    ensures HeapRuns([[]], [], []) && Pointers([]) == {} && HeldAfter([], []) == {}
  {
  }

  lemma AllBack(heap: Heap)
    requires heap.Valid()
    ensures Pointers(heap.blocks) == {} ==> heap.blocks == [] && heap.inUse == 0 && heap.totalAllocated == 0
  {
    if heap.blocks != [] {
      SomebodyHolds(heap.blocks);
    }
  }
}
