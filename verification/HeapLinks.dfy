/**
 The headers of `kernel/memory/liballoc.cpp` in memory: blocks in a doubly linked list, and the allocations of a block
 in another. What each way of placing and freeing writes keeps both lists right.
 */
module HeapLinks {
  import opened HeapModel

  /** Addresses stand for pointers, and 0 for none. */
  datatype MajorHeader = MajorHeader(prev: int, next: int, size: nat, usage: int, first: int)

  datatype MinorHeader = MinorHeader(prev: int, next: int, block: int, alive: bool, size: nat, req: nat)

  ghost function BlockAddr(bs: seq<Block>, i: int): int { if 0 <= i < |bs| then bs[i].addr else 0 }

  ghost function MinorAddr(ms: seq<Minor>, k: int): int { if 0 <= k < |ms| then ms[k].addr else 0 }

  /** The header of block i. */
  ghost function MajorOf(bs: seq<Block>, i: nat): MajorHeader
    requires i < |bs|
  {
    var b := bs[i];
    MajorHeader(BlockAddr(bs, i - 1), BlockAddr(bs, i + 1), b.size, b.Usage(), MinorAddr(b.minors, 0))
  }

  /** The header of minor k of block b. */
  ghost function MinorOf(b: Block, k: nat): MinorHeader
    requires k < |b.minors|
  {
    var m := b.minors[k];
    MinorHeader(MinorAddr(b.minors, k - 1), MinorAddr(b.minors, k + 1), b.addr, true, m.size, m.req)
  }

  ghost predicate MajorAt(bs: seq<Block>, majors: map<int, MajorHeader>, i: nat)
    requires i < |bs|
  {
    bs[i].addr in majors && majors[bs[i].addr] == MajorOf(bs, i)
  }

  ghost predicate MinorAt(b: Block, minors: map<int, MinorHeader>, k: nat)
    requires k < |b.minors|
  {
    b.minors[k].addr in minors && minors[b.minors[k].addr] == MinorOf(b, k)
  }

  ghost predicate MinorsAt(b: Block, minors: map<int, MinorHeader>) {
    forall k: nat :: k < |b.minors| ==> MinorAt(b, minors, k)
  }

  /** The lists that the headers spell are those of the heap, from the root on. */
  ghost predicate Linked(bs: seq<Block>, majors: map<int, MajorHeader>, minors: map<int, MinorHeader>, root: int) {
    && root == BlockAddr(bs, 0)
    && (forall i: nat :: i < |bs| ==> MajorAt(bs, majors, i))
    && (forall i: nat :: i < |bs| ==> MinorsAt(bs[i], minors))
    && (forall a :: a in majors ==> exists i: nat :: i < |bs| && bs[i].addr == a)
  }

  /** What the headers say about life and death, and the block. */
  ghost function Heads(minors: map<int, MinorHeader>): map<int, Header<int>> {
    map a | a in minors :: Header(minors[a].alive, minors[a].block)
  }

  ghost function Addrs(bs: seq<Block>): seq<int> {
    seq(|bs|, i requires 0 <= i < |bs| => bs[i].addr)
  }

  // ---------- Minors ----------

  /** A new header between those at p and n, either of which may be missing. */
  function Insert(minors: map<int, MinorHeader>, a: int, p: int, n: int, block: int, size: nat, req: nat):
    map<int, MinorHeader>
  {
    var m0 := minors[a := MinorHeader(p, n, block, true, size, req)];
    var m1 := if p != 0 && p in m0 then m0[p := m0[p].(next := a)] else m0;
    if n != 0 && n in m1 then m1[n := m1[n].(prev := a)] else m1
  }

  /** The header at a is dead, and its neighbours are linked to each other. */
  function Remove(minors: map<int, MinorHeader>, a: int): map<int, MinorHeader>
    requires a in minors
  {
    var h := minors[a];
    var m0 := minors[a := h.(alive := false)];
    var m1 := if h.next != 0 && h.next in m0 then m0[h.next := m0[h.next].(prev := h.prev)] else m0;
    if h.prev != 0 && h.prev in m1 then m1[h.prev := m1[h.prev].(next := h.next)] else m1
  }

  lemma InsertGet(minors: map<int, MinorHeader>, a: int, p: int, n: int, block: int, size: nat, req: nat, x: int)
    requires p != a && n != a && (p == n ==> p == 0) && (p != 0 ==> p in minors) && (n != 0 ==> n in minors)
    ensures var minors' := Insert(minors, a, p, n, block, size, req);
            && (x in minors' <==> x in minors || x == a)
            && (x in minors' ==>
                  minors'[x] == if x == a then MinorHeader(p, n, block, true, size, req)
                                else if x == p && p != 0 then minors[x].(next := a)
                                else if x == n && n != 0 then minors[x].(prev := a)
                                else minors[x])
  {
  }

  lemma RemoveGet(minors: map<int, MinorHeader>, a: int, x: int)
    requires a in minors
    requires var h := minors[a];
             && h.prev != a && h.next != a && (h.prev == h.next ==> h.prev == 0)
             && (h.prev != 0 ==> h.prev in minors) && (h.next != 0 ==> h.next in minors)
    ensures var h, minors' := minors[a], Remove(minors, a);
            && (x in minors' <==> x in minors)
            && (x in minors' ==>
                  minors'[x] == if x == a then h.(alive := false)
                                else if x == h.prev && h.prev != 0 then minors[x].(next := h.next)
                                else if x == h.next && h.next != 0 then minors[x].(prev := h.prev)
                                else minors[x])
  {
  }

  /** Headers of one block are at different addresses, none of them 0. */
  ghost predicate Different(ms: seq<Minor>) {
    (forall k: nat :: k < |ms| ==> ms[k].addr > 0) && forall k: nat, l: nat :: k < l < |ms| ==> ms[k].addr != ms[l].addr
  }

  lemma BlockDifferent(b: Block)
    requires BlockOk(b)
    ensures Different(b.minors)
  {
    forall k: nat | k < |b.minors|
      ensures b.minors[k].addr > 0 && forall j: nat :: j < k ==> b.minors[j].addr != b.minors[k].addr
    {
      LaidAt(b.minors, k, b.Lo(), b.End());
    }
  }

  /** Placing a minor at k: each header of the block is the one its new list calls for. */
  lemma InsertedAt(b: Block, minors: map<int, MinorHeader>, k: nat, m: Minor, l: nat)
    requires k <= |b.minors| && l <= |b.minors| && MinorsAt(b, minors)
    requires Different(Placed(b.minors, k, m))
    ensures var b' := b.(minors := Placed(b.minors, k, m));
            var p, n := MinorAddr(b.minors, k - 1), MinorAddr(b.minors, k);
            var minors' := Insert(minors, m.addr, p, n, b.addr, m.size, m.req);
            l < |b'.minors| && MinorAt(b', minors', l)
  {
    var ms := b.minors;
    PlacedAt(ms, k, m, l);
    PlacedAt(ms, k, m, k);
    if l > 0 {
      PlacedAt(ms, k, m, l - 1);
    }
    if l < |ms| {
      PlacedAt(ms, k, m, l + 1);
    }
    if k > 0 {
      assert MinorAt(b, minors, k - 1);
      PlacedAt(ms, k, m, k - 1);
    }
    if k < |ms| {
      assert MinorAt(b, minors, k);
      PlacedAt(ms, k, m, k + 1);
    }
    if l != k {
      assert MinorAt(b, minors, if l < k then l else l - 1);
    }
    var x := Placed(ms, k, m)[l].addr;
    hide Insert, Placed;
    InsertGet(minors, m.addr, MinorAddr(ms, k - 1), MinorAddr(ms, k), b.addr, m.size, m.req, x);
  }

  lemma InsertKeeps(b: Block, minors: map<int, MinorHeader>, k: nat, m: Minor)
    requires k <= |b.minors| && MinorsAt(b, minors) && BlockOk(b.(minors := Placed(b.minors, k, m)))
    ensures var b' := b.(minors := Placed(b.minors, k, m));
            var p, n := MinorAddr(b.minors, k - 1), MinorAddr(b.minors, k);
            MinorsAt(b', Insert(minors, m.addr, p, n, b.addr, m.size, m.req))
  {
    var b' := b.(minors := Placed(b.minors, k, m));
    var minors' := Insert(minors, m.addr, MinorAddr(b.minors, k - 1), MinorAddr(b.minors, k), b.addr, m.size, m.req);
    BlockDifferent(b');
    hide Laid, Placed, Insert;
    PlacedAt(b.minors, k, m, k);
    forall l: nat | l < |b'.minors| ensures MinorAt(b', minors', l) {
      InsertedAt(b, minors, k, m, l);
    }
  }

  /** Dropping minor k: the same. */
  lemma RemovedAt(b: Block, minors: map<int, MinorHeader>, k: nat, l: nat)
    requires k < |b.minors| && l < |b.minors| - 1 && MinorsAt(b, minors) && Different(b.minors)
    ensures b.minors[k].addr in minors
    ensures var b' := b.(minors := Dropped(b.minors, k));
            l < |b'.minors| && MinorAt(b', Remove(minors, b.minors[k].addr), l)
  {
    var ms := b.minors;
    assert MinorAt(b, minors, k);
    DroppedAt(ms, k, l);
    if l > 0 {
      DroppedAt(ms, k, l - 1);
    }
    if l < |ms| - 2 {
      DroppedAt(ms, k, l + 1);
    }
    var l0 := if l < k then l else l + 1;
    assert MinorAt(b, minors, l0);
    if k > 0 {
      assert MinorAt(b, minors, k - 1);
    }
    if k + 1 < |ms| {
      assert MinorAt(b, minors, k + 1);
    }
    hide Remove, Dropped;
    RemoveGet(minors, ms[k].addr, ms[l0].addr);
  }

  lemma RemoveKeeps(b: Block, minors: map<int, MinorHeader>, k: nat)
    requires k < |b.minors| && MinorsAt(b, minors) && BlockOk(b)
    ensures b.minors[k].addr in minors
    ensures MinorsAt(b.(minors := Dropped(b.minors, k)), Remove(minors, b.minors[k].addr))
  {
    assert MinorAt(b, minors, k);
    var b' := b.(minors := Dropped(b.minors, k));
    BlockDifferent(b);
    hide Laid, Dropped, Remove;
    forall l: nat | l < |b'.minors| ensures MinorAt(b', Remove(minors, b.minors[k].addr), l) {
      DroppedSize(b.minors, k);
      RemovedAt(b, minors, k, l);
    }
  }

  lemma DroppedSize<T>(s: seq<T>, k: nat)
    requires k < |s|
    ensures |Dropped(s, k)| == |s| - 1
  {
  }

  /** A block none of whose headers were written. */
  lemma UntouchedMinors(b: Block, minors: map<int, MinorHeader>, minors': map<int, MinorHeader>)
    requires MinorsAt(b, minors)
    requires forall k: nat :: k < |b.minors| && b.minors[k].addr in minors ==>
               b.minors[k].addr in minors' && minors'[b.minors[k].addr] == minors[b.minors[k].addr]
    ensures MinorsAt(b, minors')
  {
    forall k: nat | k < |b.minors| ensures MinorAt(b, minors', k) {
      assert MinorAt(b, minors, k);
    }
  }

  /** The neighbours of a place in the list of a block are minors of that block. */
  lemma NeighboursIn(b: Block, minors: map<int, MinorHeader>, k: nat)
    requires k <= |b.minors| && MinorsAt(b, minors) && Different(b.minors)
    ensures var p, n := MinorAddr(b.minors, k - 1), MinorAddr(b.minors, k);
            (p != 0 ==> p in minors) && (n != 0 ==> n in minors) && (p == n ==> p == 0)
  {
    assert k > 0 ==> MinorAt(b, minors, k - 1);
    assert k < |b.minors| ==> MinorAt(b, minors, k);
  }

  // ---------- The whole heap ----------

  /** Block i has a new list of minors with the given headers; nothing else changed. */
  lemma {:induction false} SetBlock(bs: seq<Block>, majors: map<int, MajorHeader>, minors: map<int, MinorHeader>,
                                    root: int, i: nat, b: Block, minors': map<int, MinorHeader>)
    requires Linked(bs, majors, minors, root) && HeapOk(bs) && i < |bs| && b.addr == bs[i].addr && b.size == bs[i].size
    requires MinorsAt(b, minors') && forall j: nat :: j < |bs| && j != i ==> MinorsAt(bs[j], minors')
    ensures b.addr in majors
    ensures Linked(bs[i := b], majors[b.addr := majors[b.addr].(usage := b.Usage(), first := MinorAddr(b.minors, 0))],
                   minors', root)
  {
    var bs' := bs[i := b];
    assert MajorAt(bs, majors, i);
    var majors' := majors[b.addr := majors[b.addr].(usage := b.Usage(), first := MinorAddr(b.minors, 0))];
    hide Laid, Total;
    forall j: nat | j < |bs'| ensures MajorAt(bs', majors', j) {
      assert MajorAt(bs, majors, j);
      DifferentBlocks(bs, i, j);
    }
    forall a | a in majors' ensures exists j: nat :: j < |bs'| && bs'[j].addr == a {
      var j: nat :| j < |bs| && bs[j].addr == a;
      assert bs'[j].addr == a;
    }
  }

  lemma DifferentBlocks(bs: seq<Block>, i: nat, j: nat)
    requires HeapOk(bs) && i < |bs| && j < |bs|
    ensures bs[i].addr == bs[j].addr <==> i == j
    ensures bs[i].addr > 0 && bs[i].addr < bs[i].End()
  {
    assert BlockOk(bs[i]) && BlockOk(bs[j]);
    LaidTotal(bs[i].minors, bs[i].Lo(), bs[i].End());
    LaidTotal(bs[j].minors, bs[j].Lo(), bs[j].End());
    if i < j {
      assert Apart(bs[i], bs[j]);
    } else if j < i {
      assert Apart(bs[j], bs[i]);
    }
  }

  /** Placing minor m at k in block i. */
  lemma {:induction false} PlaceLinks(bs: seq<Block>, majors: map<int, MajorHeader>, minors: map<int, MinorHeader>,
                                      root: int, i: nat, k: nat, m: Minor)
    requires Linked(bs, majors, minors, root) && HeapOk(bs) && i < |bs| && k <= |bs[i].minors|
    requires HeapOk(bs[i := bs[i].(minors := Placed(bs[i].minors, k, m))])
    ensures bs[i].addr in majors
    ensures var b := bs[i];
            var b' := b.(minors := Placed(b.minors, k, m));
            Linked(bs[i := b'],
                   majors[b.addr := majors[b.addr].(usage := b'.Usage(), first := MinorAddr(b'.minors, 0))],
                   Insert(minors, m.addr, MinorAddr(b.minors, k - 1), MinorAddr(b.minors, k), b.addr, m.size, m.req),
                   root)
  {
    var b := bs[i];
    var b' := b.(minors := Placed(b.minors, k, m));
    var p, n := MinorAddr(b.minors, k - 1), MinorAddr(b.minors, k);
    var minors' := Insert(minors, m.addr, p, n, b.addr, m.size, m.req);
    assert bs[i := b'][i] == b' && BlockOk(b) && BlockOk(bs[i := b'][i]);
    BlockDifferent(b);
    NeighboursIn(b, minors, k);
    PlacedAt(b.minors, k, m, k);
    InsertKeeps(b, minors, k, m);
    forall j: nat | j < |bs| && j != i ensures MinorsAt(bs[j], minors') {
      PlacedElsewhere(bs, minors, i, k, m, j);
    }
    SetBlock(bs, majors, minors, root, i, b', minors');
  }

  lemma PlacedElsewhere(bs: seq<Block>, minors: map<int, MinorHeader>, i: nat, k: nat, m: Minor, j: nat)
    requires i < |bs| && k <= |bs[i].minors| && j < |bs| && j != i && MinorsAt(bs[i], minors) && MinorsAt(bs[j], minors)
    requires HeapOk(bs) && HeapOk(bs[i := bs[i].(minors := Placed(bs[i].minors, k, m))])
    ensures var b := bs[i];
            var p, n := MinorAddr(b.minors, k - 1), MinorAddr(b.minors, k);
            MinorsAt(bs[j], Insert(minors, m.addr, p, n, b.addr, m.size, m.req))
  {
    var b := bs[i];
    var p, n := MinorAddr(b.minors, k - 1), MinorAddr(b.minors, k);
    var minors' := Insert(minors, m.addr, p, n, b.addr, m.size, m.req);
    var bs' := bs[i := b.(minors := Placed(b.minors, k, m))];
    assert BlockOk(b) && BlockOk(bs'[i]);
    BlockDifferent(b);
    BlockDifferent(bs'[i]);
    NeighboursIn(b, minors, k);
    PlacedAt(b.minors, k, m, k);
    if k > 0 {
      PlacedAt(b.minors, k, m, k - 1);
    }
    if k < |b.minors| {
      PlacedAt(b.minors, k, m, k + 1);
    }
    hide Laid, HeapOk, Insert, Placed;
    forall l: nat | l < |bs[j].minors| && bs[j].minors[l].addr in minors
      ensures bs[j].minors[l].addr in minors' && minors'[bs[j].minors[l].addr] == minors[bs[j].minors[l].addr]
    {
      assert bs'[j] == bs[j];
      var x := bs[j].minors[l].addr;
      ApartRecords(bs', i, k, j, l);
      if k > 0 {
        ApartRecords(bs', i, k - 1, j, l);
      }
      if k < |b.minors| {
        ApartRecords(bs', i, k + 1, j, l);
      }
      InsertGet(minors, m.addr, p, n, b.addr, m.size, m.req, x);
    }
    UntouchedMinors(bs[j], minors, minors');
  }

  lemma DroppedElsewhere(bs: seq<Block>, minors: map<int, MinorHeader>, i: nat, k: nat, j: nat)
    requires i < |bs| && k < |bs[i].minors| && j < |bs| && j != i && MinorsAt(bs[i], minors) && MinorsAt(bs[j], minors)
    requires HeapOk(bs)
    ensures bs[i].minors[k].addr in minors && MinorsAt(bs[j], Remove(minors, bs[i].minors[k].addr))
  {
    var b := bs[i];
    assert BlockOk(b);
    BlockDifferent(b);
    assert MinorAt(b, minors, k);
    assert k > 0 ==> MinorAt(b, minors, k - 1);
    assert k + 1 < |b.minors| ==> MinorAt(b, minors, k + 1);
    var minors' := Remove(minors, b.minors[k].addr);
    hide Laid, HeapOk, Remove;
    forall l: nat | l < |bs[j].minors| && bs[j].minors[l].addr in minors
      ensures bs[j].minors[l].addr in minors' && minors'[bs[j].minors[l].addr] == minors[bs[j].minors[l].addr]
    {
      ApartRecords(bs, i, k, j, l);
      if k > 0 {
        ApartRecords(bs, i, k - 1, j, l);
      }
      if k + 1 < |b.minors| {
        ApartRecords(bs, i, k + 1, j, l);
      }
      RemoveGet(minors, b.minors[k].addr, bs[j].minors[l].addr);
    }
    UntouchedMinors(bs[j], minors, minors');
  }

  /** Dropping minor k of block i, which keeps others. */
  lemma {:induction false} DropLinks(bs: seq<Block>, majors: map<int, MajorHeader>, minors: map<int, MinorHeader>,
                                     root: int, i: nat, k: nat)
    requires Linked(bs, majors, minors, root) && HeapOk(bs) && i < |bs| && k < |bs[i].minors|
    ensures bs[i].addr in majors && bs[i].minors[k].addr in minors
    ensures var b := bs[i];
            var b' := b.(minors := Dropped(b.minors, k));
            Linked(bs[i := b'],
                   majors[b.addr := majors[b.addr].(usage := b'.Usage(), first := MinorAddr(b'.minors, 0))],
                   Remove(minors, b.minors[k].addr), root)
  {
    var b := bs[i];
    assert BlockOk(b);
    RemoveKeeps(b, minors, k);
    hide Laid, Remove, Dropped;
    forall j: nat | j < |bs| && j != i ensures MinorsAt(bs[j], Remove(minors, b.minors[k].addr)) {
      DroppedElsewhere(bs, minors, i, k, j);
    }
    SetBlock(bs, majors, minors, root, i, b.(minors := Dropped(b.minors, k)), Remove(minors, b.minors[k].addr));
  }

  /** A new block behind the last one, or the first block of all. */
  function Append(majors: map<int, MajorHeader>, last: int, a: int, size: nat, usage: int, first: int):
    map<int, MajorHeader>
  {
    var m0 := majors[a := MajorHeader(last, 0, size, usage, first)];
    if last != 0 && last in m0 then m0[last := m0[last].(next := a)] else m0
  }

  lemma {:induction false} AppendLinks(bs: seq<Block>, majors: map<int, MajorHeader>, minors: map<int, MinorHeader>,
                                       root: int, b: Block)
    requires Linked(bs, majors, minors, root) && HeapOk(bs + [b]) && |b.minors| == 1
    ensures var m := b.minors[0];
            Linked(bs + [b],
                   Append(majors, BlockAddr(bs, |bs| - 1), b.addr, b.size, b.Usage(), m.addr),
                   minors[m.addr := MinorHeader(0, 0, b.addr, true, m.size, m.req)],
                   if bs == [] then b.addr else root)
  {
    var n, m := |bs|, b.minors[0];
    var bs' := bs + [b];
    var majors' := Append(majors, BlockAddr(bs, n - 1), b.addr, b.size, b.Usage(), m.addr);
    var minors' := minors[m.addr := MinorHeader(0, 0, b.addr, true, m.size, m.req)];
    hide Laid, Total, HeapOk;
    forall j: nat | j < |bs'| ensures MajorAt(bs', majors', j) && MinorsAt(bs'[j], minors') {
      AppendedMajor(bs, majors, b, j);
      if j < n {
        AppendedElsewhere(bs, minors, b, j);
      } else {
        assert MinorAt(b, minors', 0);
      }
    }
    forall a | a in majors' ensures exists j: nat :: j < |bs'| && bs'[j].addr == a {
      if a == b.addr {
        assert bs'[n].addr == a;
      } else {
        var j: nat :| j < |bs| && bs[j].addr == a;
        assert bs'[j].addr == a;
      }
    }
  }

  lemma AppendedMajor(bs: seq<Block>, majors: map<int, MajorHeader>, b: Block, j: nat)
    requires HeapOk(bs + [b]) && |b.minors| == 1 && j <= |bs| && forall l: nat :: l < |bs| ==> MajorAt(bs, majors, l)
    ensures MajorAt(bs + [b], Append(majors, BlockAddr(bs, |bs| - 1), b.addr, b.size, b.Usage(), b.minors[0].addr), j)
  {
    hide Block.Usage;
    var n, bs' := |bs|, bs + [b];
    DifferentBlocks(bs', n, j);
    if n > 0 {
      DifferentBlocks(bs', n - 1, j);
      DifferentBlocks(bs', n - 1, n);
      assert MajorAt(bs, majors, n - 1);
    }
    hide HeapOk;
    if j < n {
      assert MajorAt(bs, majors, j);
    }
  }

  lemma AppendedElsewhere(bs: seq<Block>, minors: map<int, MinorHeader>, b: Block, j: nat)
    requires HeapOk(bs + [b]) && |b.minors| == 1 && j < |bs| && MinorsAt(bs[j], minors)
    ensures var m := b.minors[0];
            MinorsAt(bs[j], minors[m.addr := MinorHeader(0, 0, b.addr, true, m.size, m.req)])
  {
    var m, bs' := b.minors[0], bs + [b];
    var minors' := minors[m.addr := MinorHeader(0, 0, b.addr, true, m.size, m.req)];
    forall l: nat | l < |bs[j].minors| && bs[j].minors[l].addr in minors
      ensures bs[j].minors[l].addr in minors' && minors'[bs[j].minors[l].addr] == minors[bs[j].minors[l].addr]
    {
      ApartRecords(bs', |bs|, 0, j, l);
    }
    UntouchedMinors(bs[j], minors, minors');
  }

  /** The neighbours of the block at a are linked to each other. */
  function Unlink(majors: map<int, MajorHeader>, a: int): map<int, MajorHeader>
    requires a in majors
  {
    var h := majors[a];
    var m0 := if h.prev != 0 && h.prev in majors then majors[h.prev := majors[h.prev].(next := h.next)] else majors;
    if h.next != 0 && h.next in m0 then m0[h.next := m0[h.next].(prev := h.prev)] else m0
  }

  lemma UnlinkGet(bs: seq<Block>, majors: map<int, MajorHeader>, minors: map<int, MinorHeader>, root: int, i: nat,
                  j: nat)
    requires Linked(bs, majors, minors, root) && HeapOk(bs) && i < |bs| && j < |bs| && i != j
    ensures bs[i].addr in majors && bs[j].addr in Unlink(majors, bs[i].addr)
    ensures Unlink(majors, bs[i].addr)[bs[j].addr] ==
              if j + 1 == i then MajorOf(bs, j).(next := BlockAddr(bs, i + 1))
              else if j == i + 1 then MajorOf(bs, j).(prev := BlockAddr(bs, i - 1))
              else MajorOf(bs, j)
  {
    assert MajorAt(bs, majors, i) && MajorAt(bs, majors, j);
    assert i > 0 ==> MajorAt(bs, majors, i - 1);
    assert i + 1 < |bs| ==> MajorAt(bs, majors, i + 1);
    BlocksDiffer(bs, i, j);
    hide Linked, HeapOk, Unlink, Block.Usage;
    UnlinkAt(majors, bs[i].addr, bs[j].addr);
  }

  lemma UnlinkAt(majors: map<int, MajorHeader>, a: int, x: int)
    requires a in majors && x in majors && x != a
    requires var h := majors[a];
             && (h.prev == h.next ==> h.prev == 0)
             && (h.prev != 0 ==> h.prev in majors) && (h.next != 0 ==> h.next in majors)
    ensures x in Unlink(majors, a)
    ensures var h := majors[a];
            Unlink(majors, a)[x] ==
              if x == h.prev && h.prev != 0 then majors[x].(next := h.next)
              else if x == h.next && h.next != 0 then majors[x].(prev := h.prev)
              else majors[x]
  {
  }

  /** Where block j lies relative to block i, told by addresses. */
  lemma BlocksDiffer(bs: seq<Block>, i: nat, j: nat)
    requires HeapOk(bs) && i < |bs| && j < |bs|
    ensures bs[i].addr > 0 && bs[j].addr > 0 && (bs[i].addr == bs[j].addr <==> i == j)
    ensures BlockAddr(bs, i - 1) == bs[j].addr <==> j + 1 == i
    ensures BlockAddr(bs, i + 1) == bs[j].addr <==> j == i + 1
    ensures BlockAddr(bs, i - 1) == BlockAddr(bs, i + 1) ==> BlockAddr(bs, i - 1) == 0
  {
    DifferentBlocks(bs, i, j);
    DifferentBlocks(bs, j, i);
    if i > 0 {
      DifferentBlocks(bs, i - 1, j);
    }
    if i + 1 < |bs| {
      DifferentBlocks(bs, i + 1, j);
      if i > 0 {
        DifferentBlocks(bs, i - 1, i + 1);
        DifferentBlocks(bs, i + 1, i - 1);
      }
    }
  }

  /** Block i goes back to the system, with everything in it. */
  lemma {:induction false} RemoveLinks(bs: seq<Block>, majors: map<int, MajorHeader>, minors: map<int, MinorHeader>,
                                       root: int, i: nat)
    requires Linked(bs, majors, minors, root) && HeapOk(bs) && i < |bs|
    ensures bs[i].addr in majors
    ensures Linked(Dropped(bs, i), Outside(Unlink(majors, bs[i].addr), bs[i]), Outside(minors, bs[i]),
                   if root == bs[i].addr then majors[bs[i].addr].next else root)
  {
    assert MajorAt(bs, majors, i);
    var bs', a := Dropped(bs, i), bs[i].addr;
    var majors', minors' := Outside(Unlink(majors, a), bs[i]), Outside(minors, bs[i]);
    DroppedSize(bs, i);
    RootAfter(bs, i);
    forall j: nat | j < |bs'| ensures MajorAt(bs', majors', j) && MinorsAt(bs'[j], minors') {
      RemovedMajor(bs, majors, minors, root, i, j);
      RemovedMinors(bs, minors, i, j);
    }
    forall x | x in majors' ensures exists j: nat :: j < |bs'| && bs'[j].addr == x {
      RemovedKey(bs, majors, minors, root, i, x);
    }
  }

  lemma RootAfter(bs: seq<Block>, i: nat)
    requires HeapOk(bs) && i < |bs|
    ensures BlockAddr(Dropped(bs, i), 0) ==
              if BlockAddr(bs, 0) == bs[i].addr then BlockAddr(bs, i + 1) else BlockAddr(bs, 0)
  {
    DifferentBlocks(bs, 0, i);
    if |bs| > 1 {
      DroppedAt(bs, i, 0);
    }
  }

  lemma RemovedMajor(bs: seq<Block>, majors: map<int, MajorHeader>, minors: map<int, MinorHeader>, root: int, i: nat,
                     j: nat)
    requires Linked(bs, majors, minors, root) && HeapOk(bs) && i < |bs| && j < |bs| - 1
    ensures bs[i].addr in majors && j < |Dropped(bs, i)|
    ensures MajorAt(Dropped(bs, i), Outside(Unlink(majors, bs[i].addr), bs[i]), j)
  {
    hide Linked, HeapOk, Unlink, Dropped, MajorOf;
    var j0 := if j < i then j else j + 1;
    DroppedAt(bs, i, j);
    MajorOfDropped(bs, i, j);
    UnlinkGet(bs, majors, minors, root, i, j0);
    NotInside(bs, i, j0);
  }

  /** The header that block j calls for once block i is gone. */
  lemma MajorOfDropped(bs: seq<Block>, i: nat, j: nat)
    requires i < |bs| && j < |bs| - 1
    ensures j < |Dropped(bs, i)|
    ensures var j0 := if j < i then j else j + 1;
            MajorOf(Dropped(bs, i), j) ==
              if j0 + 1 == i then MajorOf(bs, j0).(next := BlockAddr(bs, i + 1))
              else if j0 == i + 1 then MajorOf(bs, j0).(prev := BlockAddr(bs, i - 1))
              else MajorOf(bs, j0)
  {
    hide Block.Usage;
    DroppedAt(bs, i, j);
    if j > 0 {
      DroppedAt(bs, i, j - 1);
    }
    if j + 1 < |bs| - 1 {
      DroppedAt(bs, i, j + 1);
    }
    hide Dropped;
  }

  lemma NotInside(bs: seq<Block>, i: nat, j: nat)
    requires HeapOk(bs) && i < |bs| && j < |bs| && i != j
    ensures !(bs[i].addr <= bs[j].addr < bs[i].End())
  {
    DifferentBlocks(bs, i, j);
    DifferentBlocks(bs, j, i);
    if i < j {
      assert Apart(bs[i], bs[j]);
    } else {
      assert Apart(bs[j], bs[i]);
    }
  }

  lemma RemovedMinors(bs: seq<Block>, minors: map<int, MinorHeader>, i: nat, j: nat)
    requires HeapOk(bs) && i < |bs| && j < |bs| - 1 && forall l: nat :: l < |bs| ==> MinorsAt(bs[l], minors)
    ensures j < |Dropped(bs, i)| && MinorsAt(Dropped(bs, i)[j], Outside(minors, bs[i]))
  {
    DroppedAt(bs, i, j);
    var j0 := if j < i then j else j + 1;
    forall l: nat | l < |bs[j0].minors| && bs[j0].minors[l].addr in minors
      ensures bs[j0].minors[l].addr in Outside(minors, bs[i])
    {
      OutsideBlock(bs, j0, l, i);
    }
    UntouchedMinors(bs[j0], minors, Outside(minors, bs[i]));
  }

  lemma RemovedKey(bs: seq<Block>, majors: map<int, MajorHeader>, minors: map<int, MinorHeader>, root: int, i: nat,
                   x: int)
    requires Linked(bs, majors, minors, root) && HeapOk(bs) && i < |bs| && bs[i].addr in majors
    requires x in Outside(Unlink(majors, bs[i].addr), bs[i])
    ensures exists j: nat :: j < |Dropped(bs, i)| && Dropped(bs, i)[j].addr == x
  {
    DifferentBlocks(bs, i, i);
    var j: nat :| j < |bs| && bs[j].addr == x;
    hide Linked, HeapOk, Unlink, Dropped;
    var j1 := if j > i then j - 1 else j;
    DroppedAt(bs, i, j1);
    assert Dropped(bs, i)[j1].addr == x;
  }

  // ---------- The same headers, seen as records ----------

  lemma HeadsInsert(minors: map<int, MinorHeader>, a: int, p: int, n: int, block: int, size: nat, req: nat)
    requires p != a && n != a && (p == n ==> p == 0) && (p != 0 ==> p in minors) && (n != 0 ==> n in minors)
    ensures Heads(Insert(minors, a, p, n, block, size, req)) == Heads(minors)[a := Header(true, block)]
  {
    var minors' := Insert(minors, a, p, n, block, size, req);
    hide Insert;
    forall x
      ensures x in minors' <==> x in minors || x == a
      ensures x in minors' ==>
                Header(minors'[x].alive, minors'[x].block)
                == if x == a then Header(true, block) else Header(minors[x].alive, minors[x].block)
    {
      InsertGet(minors, a, p, n, block, size, req, x);
    }
  }

  lemma HeadsRemove(minors: map<int, MinorHeader>, a: int)
    requires a in minors
    requires var h := minors[a];
             && h.prev != a && h.next != a && (h.prev == h.next ==> h.prev == 0)
             && (h.prev != 0 ==> h.prev in minors) && (h.next != 0 ==> h.next in minors)
    ensures Heads(Remove(minors, a)) == Heads(minors)[a := Header(false, minors[a].block)]
  {
    var minors' := Remove(minors, a);
    hide Remove;
    forall x
      ensures x in minors' <==> x in minors
      ensures x in minors' ==>
                Header(minors'[x].alive, minors'[x].block)
                == Header(if x == a then false else minors[x].alive, minors[x].block)
    {
      RemoveGet(minors, a, x);
    }
  }

  lemma HeadsOutside(minors: map<int, MinorHeader>, b: Block)
    ensures Heads(Outside(minors, b)) == Outside(Heads(minors), b)
  {
  }

  lemma AddrsKept(bs: seq<Block>, i: nat, b: Block)
    requires i < |bs| && b.addr == bs[i].addr
    ensures Addrs(bs[i := b]) == Addrs(bs)
  {
  }

  lemma AddrsAppend(bs: seq<Block>, b: Block)
    ensures Addrs(bs + [b]) == Addrs(bs) + [b.addr]
  {
  }

  lemma AddrsDropped(bs: seq<Block>, i: nat)
    requires i < |bs|
    ensures Addrs(Dropped(bs, i)) == Dropped(Addrs(bs), i)
  {
  }

  /** A minor of the heap: its header is in place, and so are those of its neighbours. */
  lemma MinorFacts(bs: seq<Block>, majors: map<int, MajorHeader>, minors: map<int, MinorHeader>, root: int, i: nat,
                   k: nat)
    requires Linked(bs, majors, minors, root) && HeapOk(bs) && i < |bs| && k < |bs[i].minors|
    ensures var a, h := bs[i].minors[k].addr, MinorOf(bs[i], k);
            && a > 0 && a in minors && minors[a] == h
            && h.prev != a && h.next != a && (h.prev == h.next ==> h.prev == 0)
            && (h.prev != 0 ==> h.prev in minors) && (h.next != 0 ==> h.next in minors)
            && (h.prev == 0 <==> k == 0) && (h.next == 0 <==> k + 1 == |bs[i].minors|)
  {
    var b := bs[i];
    assert BlockOk(b);
    BlockDifferent(b);
    assert MinorsAt(b, minors);
    assert MinorAt(b, minors, k);
    assert k > 0 ==> MinorAt(b, minors, k - 1);
    assert k + 1 < |b.minors| ==> MinorAt(b, minors, k + 1);
  }

  /** A block of the heap: the same, and where the list of its minors starts. */
  lemma MajorFacts(bs: seq<Block>, majors: map<int, MajorHeader>, minors: map<int, MinorHeader>, root: int, i: nat)
    requires Linked(bs, majors, minors, root) && HeapOk(bs) && i < |bs|
    ensures var a, h := bs[i].addr, MajorOf(bs, i);
            && a > 0 && a in majors && majors[a] == h && bs[i].minors != [] && h.first == bs[i].minors[0].addr > 0
            && (h.prev == 0 <==> i == 0) && (h.next == 0 <==> i + 1 == |bs|)
            && (h.next != 0 ==> h.next == bs[i + 1].addr) && (h.prev != 0 ==> h.prev in majors)
            && (h.next != 0 ==> h.next in majors)
  {
    assert MajorAt(bs, majors, i);
    DifferentBlocks(bs, i, i);
    assert BlockOk(bs[i]);
    BlockDifferent(bs[i]);
    if i > 0 {
      DifferentBlocks(bs, i - 1, i);
      assert MajorAt(bs, majors, i - 1);
    }
    if i + 1 < |bs| {
      DifferentBlocks(bs, i + 1, i);
      assert MajorAt(bs, majors, i + 1);
    }
  }

  // ---------- Steps of the whole heap ----------

  /** Blocks and minors are laid out apart and linked, and memory records every minor. */
  ghost predicate Kept(bs: seq<Block>, majors: map<int, MajorHeader>, minors: map<int, MinorHeader>,
                       offsets: map<int, int>, root: int)
  {
    Linked(bs, majors, minors, root) && HeapOk(bs) && Recorded(bs, Addrs(bs), Heads(minors), offsets)
  }

  /** A minor at the first gap of block i, in front of the minor that was k-th. */
  lemma {:induction false} PlaceKeeps(bs: seq<Block>, majors: map<int, MajorHeader>, minors: map<int, MinorHeader>,
                                      offsets: map<int, int>, root: int, i: nat, k: nat, m: Minor)
    requires Kept(bs, majors, minors, offsets, root) && i < |bs| && m.size >= m.req + ALIGNMENT + ALIGN_INFO
    requires k == FirstGap(bs[i].minors, bs[i].Lo(), bs[i].End(), m.size + MINOR_SIZE) <= |bs[i].minors|
    requires m.addr == GapStart(bs[i].minors, k, bs[i].Lo())
    ensures bs[i].addr in majors && UserPtr(m) > 0
    ensures var b := bs[i];
            var bs' := bs[i := b.(minors := Placed(b.minors, k, m))];
            && Kept(bs',
                    majors[b.addr := majors[b.addr].(usage := b.Usage() + m.size + MINOR_SIZE,
                                                     first := if k == 0 then m.addr else MinorAddr(b.minors, 0))],
                    Insert(minors, m.addr, MinorAddr(b.minors, k - 1), MinorAddr(b.minors, k), b.addr, m.size, m.req),
                    offsets[UserPtr(m) - ALIGN_INFO := UserPtr(m) - m.Data()], root)
            && InUse(bs') == InUse(bs) + m.size && Allocated(bs') == Allocated(bs)
  {
    var b := bs[i];
    var b' := b.(minors := Placed(b.minors, k, m));
    var p, n := MinorAddr(b.minors, k - 1), MinorAddr(b.minors, k);
    hide Linked, HeapOk, Recorded, InUse, Allocated, FirstGap, Insert, Laid, Placed, Total, UserPtr, Block.Usage;
    PlaceOk(bs, i, m);
    PlaceLinks(bs, majors, minors, root, i, k, m);
    PlaceRecorded(bs, Addrs(bs), Heads(minors), offsets, i, k, m);
    PlaceNeighbours(bs, majors, minors, root, i, k, m);
    HeadsInsert(minors, m.addr, p, n, b.addr, m.size, m.req);
    AddrsKept(bs, i, b');
  }

  lemma {:induction false} PlaceNeighbours(bs: seq<Block>, majors: map<int, MajorHeader>, minors: map<int, MinorHeader>,
                                           root: int, i: nat, k: nat, m: Minor)
    requires Linked(bs, majors, minors, root) && HeapOk(bs) && i < |bs| && k <= |bs[i].minors|
    requires HeapOk(bs[i := bs[i].(minors := Placed(bs[i].minors, k, m))])
    ensures var p, n := MinorAddr(bs[i].minors, k - 1), MinorAddr(bs[i].minors, k);
            && m.addr > 0 && m.addr != p && m.addr != n
            && (p != 0 ==> p in minors) && (n != 0 ==> n in minors) && (p == n ==> p == 0)
    ensures MinorAddr(Placed(bs[i].minors, k, m), 0) == if k == 0 then m.addr else MinorAddr(bs[i].minors, 0)
  {
    var b := bs[i].(minors := Placed(bs[i].minors, k, m));
    assert bs[i := b][i] == b && BlockOk(bs[i := b][i]) && BlockOk(bs[i]) && MinorsAt(bs[i], minors);
    BlockDifferent(b);
    BlockDifferent(bs[i]);
    NeighboursIn(bs[i], minors, k);
    PlacedAt(bs[i].minors, k, m, 0);
    PlacedAt(bs[i].minors, k, m, k);
    if k > 0 {
      PlacedAt(bs[i].minors, k, m, k - 1);
    }
    if k < |bs[i].minors| {
      PlacedAt(bs[i].minors, k, m, k + 1);
    }
  }

  /** A new block with one minor, behind the last one. */
  lemma {:induction false} AppendKeeps(bs: seq<Block>, majors: map<int, MajorHeader>, minors: map<int, MinorHeader>,
                                       offsets: map<int, int>, root: int, addr: int, req: nat)
    requires Kept(bs, majors, minors, offsets, root) && addr > 0
    requires forall i: nat :: i < |bs| ==> Apart(bs[i], Fresh(addr, req + ALIGNMENT + ALIGN_INFO, req))
    ensures var size := req + ALIGNMENT + ALIGN_INFO;
            var b := Fresh(addr, size, req);
            var m, bs' := b.minors[0], bs + [b];
            && Kept(bs', Append(majors, BlockAddr(bs, |bs| - 1), addr, b.size, MAJOR_SIZE + size + MINOR_SIZE, m.addr),
                    minors[m.addr := MinorHeader(0, 0, addr, true, size, req)],
                    offsets[UserPtr(m) - ALIGN_INFO := UserPtr(m) - m.Data()],
                    if bs == [] then addr else root)
            && InUse(bs') == InUse(bs) + size && Allocated(bs') == Allocated(bs) + b.size && UserPtr(m) > 0
  {
    var size := req + ALIGNMENT + ALIGN_INFO;
    var b := Fresh(addr, size, req);
    var m := b.minors[0];
    UserInside(m);
    hide Linked, HeapOk, Recorded, InUse, Allocated, PagesFor, Append, Laid, Total, UserPtr;
    AppendOk(bs, addr, req);
    AppendLinks(bs, majors, minors, root, b);
    AppendRecorded(bs, Addrs(bs), Heads(minors), offsets, addr, req, addr);
    AddrsAppend(bs, b);
    assert Heads(minors[m.addr := MinorHeader(0, 0, addr, true, size, req)]) ==
           Heads(minors)[m.addr := Header(true, addr)];
  }

  /** Minor k of block i is freed and others remain in the block. */
  lemma {:induction false} DropKeeps(bs: seq<Block>, majors: map<int, MajorHeader>, minors: map<int, MinorHeader>,
                                     offsets: map<int, int>, root: int, i: nat, k: nat)
    requires Kept(bs, majors, minors, offsets, root) && i < |bs| && k < |bs[i].minors| && |bs[i].minors| > 1
    ensures bs[i].addr in majors && bs[i].minors[k].addr in minors
    ensures var b := bs[i];
            var m, bs' := b.minors[k], Freed(bs, i, k);
            && Kept(bs',
                    majors[b.addr := majors[b.addr].(usage := b.Usage() - (m.size + MINOR_SIZE),
                                                     first := MinorAddr(b.minors, if k == 0 then 1 else 0))],
                    Remove(minors, m.addr), offsets, root)
            && InUse(bs') == InUse(bs) - m.size && Allocated(bs') == Allocated(bs)
  {
    var b := bs[i];
    var b' := b.(minors := Dropped(b.minors, k));
    MinorFacts(bs, majors, minors, root, i, k);
    DroppedAt(b.minors, k, 0);
    hide Linked, HeapOk, Recorded, InUse, Allocated, Remove, Laid, Dropped, Total, UserPtr;
    DropOk(bs, i, k);
    DropLinks(bs, majors, minors, root, i, k);
    DropRecorded(bs, Addrs(bs), Heads(minors), offsets, i, k);
    HeadsRemove(minors, b.minors[k].addr);
    AddrsKept(bs, i, b');
  }

  /** The only minor of block i is freed, and the block goes back to the system with what was written in it. */
  lemma {:induction false} RemoveBlockKeeps(bs: seq<Block>, majors: map<int, MajorHeader>,
                                            minors: map<int, MinorHeader>, offsets: map<int, int>, root: int, i: nat)
    requires Kept(bs, majors, minors, offsets, root) && i < |bs| && |bs[i].minors| == 1
    ensures bs[i].addr in majors
    ensures var b, bs' := bs[i], Freed(bs, i, 0);
            && Kept(bs', Outside(Unlink(majors, b.addr), b), Outside(minors, b), Outside(offsets, b),
                    if root == b.addr then majors[b.addr].next else root)
            && InUse(bs') == InUse(bs) - b.minors[0].size && Allocated(bs') == Allocated(bs) - b.size
  {
    hide Linked, HeapOk, Recorded, InUse, Allocated, Unlink, Laid, Outside, Dropped, Total, UserPtr;
    RemoveOk(bs, i);
    RemoveLinks(bs, majors, minors, root, i);
    RemoveRecorded(bs, Addrs(bs), Heads(minors), offsets, i);
    HeadsOutside(minors, bs[i]);
    AddrsDropped(bs, i);
  }

  /** What was written into a block that goes back to the system is gone. */
  lemma WritesGone(majors: map<int, MajorHeader>, minors: map<int, MinorHeader>, b: Block, a: int, h: MajorHeader)
    requires b.addr in majors && a in minors && b.addr < b.End() && b.addr <= a < b.End()
    requires h.prev == majors[b.addr].prev && h.next == majors[b.addr].next && h.prev != b.addr && h.next != b.addr
    requires h.prev == h.next ==> h.prev == 0
    requires minors[a].prev == 0 && minors[a].next == 0
    ensures Outside(Unlink(majors[b.addr := h], b.addr), b) == Outside(Unlink(majors, b.addr), b)
    ensures Outside(Remove(minors, a), b) == Outside(minors, b)
  {
  }
}
