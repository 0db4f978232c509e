/** The write-back block cache of `kernel/device/DiskDevice.cpp`, updated in place, over a raw disk. */
module DiskCache {
  import opened DiskCacheModel
  import opened LruCache
  import opened RingQueue

  const PAGE_SIZE := 4096

  class Device<B> {
    const blocks: nat                        // blocks per cache region
    var raw: seq<B>
    const cache: LRUCache<CacheRegion<B>>
    const dirty: Queue
    ghost var flat: seq<B>

    /** List and map of the cache agree, clean regions equal the raw disk, and `flat` is what a caller sees. */
    ghost predicate Valid()
      reads this, cache, dirty
    {
      && blocks > 0 && cache.Valid() && dirty.Valid() && |flat| == |raw|
      && Coherent(raw, cache.items, blocks) && Shows(raw, cache.items, blocks, flat)
    }

    constructor (raw: seq<B>, blocks: nat)
      requires blocks > 0 && |raw| % blocks == 0
      ensures Valid() && flat == this.raw == raw && this.blocks == blocks && fresh(cache) && fresh(dirty)
      ensures cache.order == [] && cache.items == map[] && dirty.Value() == Ring([], 0, 0, 0)
    {
      this.raw, this.blocks, this.flat := raw, blocks, raw;
      cache := new LRUCache();
      dirty := new Queue();
    }

    /** The regions that are dirty, and those of them that are not queued to be written back. */
    ghost function DirtySet(): set<int>
      reads cache
    {
      DirtyRegions(cache.items)
    }

    ghost function Unqueued(): set<int>
      requires dirty.Valid()
      reads cache, dirty
    {
      set k | k in DirtySet() && k !in dirty.Contents()
    }

    /** `has_block` for the region that starts at k. */
    predicate HasBlock(k: int, block: nat) {
      k <= block < k + blocks
    }
  }

  function Sum(s: seq<nat>): nat {
    if s == [] then 0 else s[0] + Sum(s[1..])
  }

  lemma {:induction false} SumUpdate(s: seq<nat>, i: nat, v: nat)
    requires i < |s|
    ensures Sum(s[i := v]) == Sum(s) - s[i] + v
  {
    if i > 0 {
      SumUpdate(s[1..], i - 1, v);
      assert s[i := v][1..] == s[1..][i - 1 := v];
    }
  }

  lemma {:induction false} SumZero(s: seq<nat>)
    ensures Sum(s) == 0 <==> forall i: nat :: i < |s| ==> s[i] == 0
  {
    if s != [] {
      SumZero(s[1..]);
      assert forall i: nat :: 0 < i < |s| ==> s[i] == s[1..][i - 1];
    }
  }

  datatype DiskOp<B> =
    | ReadOp(device: nat, start: nat, count: nat, now: int)
    | WriteOp(device: nat, start: nat, data: seq<B>, now: int)
    | WritebackOp
    | FreeOp(num: nat)

  /** The request is for blocks the device has, and a write is not empty. */
  predicate Allowed<B>(flats: seq<seq<B>>, op: DiskOp<B>) {
    match op
    case ReadOp(i, start, count, now) => i < |flats| && start + count <= |flats[i]| && now < DISTANT_FUTURE
    case WriteOp(i, start, data, now) =>
      i < |flats| && start + |data| <= |flats[i]| && |data| > 0 && now < DISTANT_FUTURE
    case WritebackOp => true
    case FreeOp(_) => true
  }

  /** Disks without a cache: only writes change them, at once. */
  function FlatStep<B>(flats: seq<seq<B>>, op: DiskOp<B>): seq<seq<B>> {
    if op.WriteOp? && Allowed(flats, op) then flats[op.device := Flushed(flats[op.device], op.start, op.data)]
    else flats
  }

  function FlatRead<B>(flats: seq<seq<B>>, op: DiskOp<B>): seq<B> {
    if op.ReadOp? && Allowed(flats, op) then flats[op.device][op.start..op.start + op.count] else []
  }

  function FlatRun<B>(flats: seq<seq<B>>, ops: seq<DiskOp<B>>): seq<seq<B>> {
    if ops == [] then flats else FlatStep(FlatRun(flats, ops[..|ops| - 1]), ops[|ops| - 1])
  }

  function FlatReads<B>(flats: seq<seq<B>>, ops: seq<DiskOp<B>>): seq<seq<B>> {
    if ops == [] then []
    else
      var before := ops[..|ops| - 1];
      var op := ops[|ops| - 1];
      FlatReads(flats, before) + if op.ReadOp? then [FlatRead(FlatRun(flats, before), op)] else []
  }

  /** Every request is for blocks its device has, in the state the requests before it lead to. */
  predicate AllowedAll<B>(flats: seq<seq<B>>, ops: seq<DiskOp<B>>) {
    ops == [] || (AllowedAll(flats, ops[..|ops| - 1]) && Allowed(FlatRun(flats, ops[..|ops| - 1]), ops[|ops| - 1]))
  }

  lemma {:induction false} AllowedAt<B>(flats: seq<seq<B>>, ops: seq<DiskOp<B>>, n: nat)
    requires AllowedAll(flats, ops) && n < |ops|
    ensures Allowed(FlatRun(flats, ops[..n]), ops[n])
    decreases |ops|
  {
    var front := ops[..|ops| - 1];
    if n + 1 < |ops| {
      AllowedAt(flats, front, n);
      assert front[..n] == ops[..n];
    }
  }

  /** What the last of the first n requests to write block b of device i wrote there; `initial` if there was none. */
  function LastWritten<B>(ops: seq<DiskOp<B>>, n: nat, i: nat, b: nat, initial: B): B
    requires n <= |ops|
  {
    if n == 0 then initial
    else
      match ops[n - 1]
      case WriteOp(d, start, data, _) =>
        if d == i && start <= b < start + |data| then data[b - start] else LastWritten(ops, n - 1, i, b, initial)
      case _ => LastWritten(ops, n - 1, i, b, initial)
  }

  /** The disks without a cache hold what was last written to them. */
  lemma {:induction false} FlatRemembers<B>(flats: seq<seq<B>>, ops: seq<DiskOp<B>>, n: nat, i: nat, b: nat)
    requires AllowedAll(flats, ops) && n <= |ops| && i < |flats| && b < |flats[i]|
    ensures var now := FlatRun(flats, ops[..n]);
            |now| == |flats| && |now[i]| == |flats[i]| && now[i][b] == LastWritten(ops, n, i, b, flats[i][b])
  {
    if n > 0 {
      FlatRemembers(flats, ops, n - 1, i, b);
      AllowedAt(flats, ops, n - 1);
      assert ops[..n][..n - 1] == ops[..n - 1];
      var before, op := FlatRun(flats, ops[..n - 1]), ops[n - 1];
      if op.WriteOp? {
        FlushedAt(before[op.device], op.start, op.data);
      }
    } else {
      assert ops[..0] == [];
    }
  }

  /** So a read returns, block by block, what was last written. */
  lemma ReadRemembers<B>(flats: seq<seq<B>>, ops: seq<DiskOp<B>>, n: nat, j: nat)
    requires AllowedAll(flats, ops) && n < |ops| && ops[n].ReadOp? && j < ops[n].count
    ensures ops[n].device < |flats| && ops[n].start + j < |flats[ops[n].device]|
    ensures var op, data := ops[n], FlatRead(FlatRun(flats, ops[..n]), ops[n]);
            && |data| == op.count
            && data[j] == LastWritten(ops, n, op.device, op.start + j, flats[op.device][op.start + j])
  {
    AllowedAt(flats, ops, n);
    FlatSizes(flats, ops, n);
    FlatRemembers(flats, ops, n, ops[n].device, ops[n].start + j);
  }

  function CountReads<B>(ops: seq<DiskOp<B>>): nat {
    if ops == [] then 0 else CountReads(ops[..|ops| - 1]) + if ops[|ops| - 1].ReadOp? then 1 else 0
  }

  /** There is one answer for each read, in the order of the reads. */
  lemma {:induction false} ReadsAre<B>(flats: seq<seq<B>>, ops: seq<DiskOp<B>>, n: nat)
    requires n < |ops| && ops[n].ReadOp?
    ensures |FlatReads(flats, ops)| == CountReads(ops) > CountReads(ops[..n])
    ensures FlatReads(flats, ops)[CountReads(ops[..n])] == FlatRead(FlatRun(flats, ops[..n]), ops[n])
    decreases |ops|
  {
    var front := ops[..|ops| - 1];
    ReadsCounted(flats, front);
    if n + 1 < |ops| {
      ReadsAre(flats, front, n);
      assert front[..n] == ops[..n];
    }
  }

  lemma {:induction false} ReadsCounted<B>(flats: seq<seq<B>>, ops: seq<DiskOp<B>>)
    ensures |FlatReads(flats, ops)| == CountReads(ops)
  {
    if ops != [] {
      ReadsCounted(flats, ops[..|ops| - 1]);
    }
  }

  lemma {:induction false} FlatSizes<B>(flats: seq<seq<B>>, ops: seq<DiskOp<B>>, n: nat)
    requires AllowedAll(flats, ops) && n <= |ops|
    ensures var now := FlatRun(flats, ops[..n]);
            |now| == |flats| && forall i: nat :: i < |flats| ==> |now[i]| == |flats[i]|
  {
    if n > 0 {
      FlatSizes(flats, ops, n - 1);
      AllowedAt(flats, ops, n - 1);
      assert ops[..n][..n - 1] == ops[..n - 1];
    } else {
      assert ops[..0] == [];
    }
  }

  /** The regions ks were used at time `now`; the others are as they were. */
  ghost predicate Touched<B>(before: map<int, CacheRegion<B>>, after: map<int, CacheRegion<B>>, ks: seq<int>,
                             now: int)
  {
    && (forall k :: k in ks ==> k in after && after[k].lastUsed == now)
    && (forall k :: k !in ks ==> (k in after <==> k in before))
    && (forall k :: k !in ks && k in before ==> after[k] == before[k])
  }

  function Members(ks: seq<int>): set<int> { set k | k in ks }

  lemma MembersNone()
    ensures Members([]) == {}
  {
  }

  lemma MembersNext(ks: seq<int>, k: int)
    ensures Members(ks + [k]) == Members(ks) + {k} && (k in ks ==> Members(ks) + {k} == Members(ks))
  {
  }

  /** The flat disk when the first i blocks of the buffer were written. */
  function Partly<B>(flat: seq<B>, start: nat, buffer: seq<B>, i: nat): seq<B>
    requires start + |buffer| <= |flat| && i <= |buffer|
  {
    flat[..start] + buffer[..i] + flat[start + i..]
  }

  lemma PartlyNext<B>(flat: seq<B>, start: nat, buffer: seq<B>, i: nat)
    requires start + |buffer| <= |flat| && i < |buffer|
    ensures |Partly(flat, start, buffer, i)| == |flat|
    ensures Partly(flat, start, buffer, i)[start + i := buffer[i]] == Partly(flat, start, buffer, i + 1)
  {
  }

  lemma PartlyAll<B>(flat: seq<B>, start: nat, buffer: seq<B>)
    requires start + |buffer| <= |flat|
    ensures Partly(flat, start, buffer, 0) == flat
    ensures Partly(flat, start, buffer, |buffer|) == Flushed(flat, start, buffer)
  {
  }

  /** What is left when the first key of the list was pruned. */
  lemma PrunedItems<V>(order: seq<int>, before: map<int, V>, after: map<int, V>)
    requires NoRepeats(order) && order != [] && forall x :: x in before ==> x in order
    requires forall x :: x in after <==> x in before && x in order[1..]
    requires forall x :: x in after ==> after[x] == before[x]
    ensures after == before - {order[0]}
  {
    HeadLeaves(order);
    var rest := before - {order[0]};
    assert forall x :: x in rest <==> x in after;
    assert forall x :: x in rest ==> rest[x] == before[x] == after[x];
    assert after == rest;
  }

  lemma SliceNext<B>(flat: seq<B>, start: nat, i: nat)
    requires start + i < |flat|
    ensures flat[start..start + i] + [flat[start + i]] == flat[start..start + i + 1]
  {
  }

  lemma NoneTouched<B>(items: map<int, CacheRegion<B>>, now: int)
    ensures Touched(items, items, [], now)
  {
  }

  lemma TouchedThen<B>(before: map<int, CacheRegion<B>>, mid: map<int, CacheRegion<B>>, after: map<int, CacheRegion<B>>,
                       ks: seq<int>, k: int, now: int)
    requires Touched(before, mid, ks, now) && Touched(mid, after, [k], now)
    ensures Touched(before, after, ks + [k], now) && (k in ks ==> Touched(before, after, ks, now))
  {
    assert forall x :: x in ks + [k] <==> x in ks || x in [k];
  }

  lemma RegionsNone(start: nat, n: nat)
    requires n > 0
    ensures RegionsOf(start, 0, n) == []
  {
  }

  /** The last region invalidated after the earlier ones. */
  lemma InvalidatedLast(r: Ring, ks: seq<int>)
    requires r.Ok()
    ensures InvalidatedAll(r, Earlier(ks)).Ok()
    ensures ks != [] ==> InvalidatedAll(r, ks) == Invalidated(InvalidatedAll(r, Earlier(ks)), ks[|ks| - 1])
  {
  }

  /** The raw disk after the regions ks of the flat disk were written to it. */
  ghost predicate WrittenTo<B>(before: seq<B>, raw: seq<B>, flat: seq<B>, n: nat, ks: seq<int>) {
    && n > 0 && |before| == |raw| == |flat|
    && forall b: nat :: b < |raw| ==> raw[b] == if RegionStart(b, n) in ks then flat[b] else before[b]
  }

  lemma NoneWritten<B>(raw: seq<B>, flat: seq<B>, n: nat)
    requires n > 0 && |raw| == |flat|
    ensures WrittenTo(raw, raw, flat, n, [])
  {
  }

  lemma WrittenNext<B>(before: seq<B>, mid: seq<B>, raw: seq<B>, flat: seq<B>, n: nat, ks: seq<int>, k: int)
    requires WrittenTo(before, mid, flat, n, ks) && 0 <= k && k % n == 0 && k + n <= |flat|
    requires raw == Flushed(mid, k, flat[k..k + n])
    ensures WrittenTo(before, raw, flat, n, ks + [k])
  {
    FlushedAt(mid, k, flat[k..k + n]);
    hide Flushed;
    forall b: nat | b < |raw| ensures raw[b] == if RegionStart(b, n) in ks + [k] then flat[b] else before[b] {
      RegionHolds(b, n, k);
    }
  }

  lemma CleanedDirty<B>(items: map<int, CacheRegion<B>>, k: int)
    requires k in items
    ensures DirtyRegions(items[k := items[k].(dirty := false)]) == DirtyRegions(items) - {k}
  {
  }

  /** All but the last. */
  function Earlier(ks: seq<int>): seq<int> { if ks == [] then [] else ks[..|ks| - 1] }

  /** What a write leaves unqueued: its regions that are passed over, and those that were so before and not written. */
  lemma UnqueuedAfter(ring: Ring, dirty: set<int>, start: nat, count: nat, n: nat, x: int)
    requires ring.Ok() && n > 0
    ensures var ks := RegionsOf(start, count, n);
            x in dirty + Members(ks) && x !in InvalidatedAll(ring, ks).Elements() <==>
              && x !in ring.Elements()
              && if x in ks then exists i: nat :: i < |ks| && ks[i] == x && PassedOver(ring, ks, i) else x in dirty
  {
    var ks := RegionsOf(start, count, n);
    RegionsOnce(start, count, n);
    hide Ring.Elements, PassedOver, RegionsOf, InvalidatedAll;
    InvalidatedAllHas(ring, ks, x);
    if i: nat :| i < |ks| && ks[i] == x {
      assert QueuedAt(ring, ks, i, x) <==> !PassedOver(ring, ks, i);
    }
  }

  /**
   A write and then a round of the writeback loop that does not give up: each block written is on the raw disk if its
   region was queued, and not passed over; otherwise the raw disk keeps what it had there.
   */
  lemma WriteReaches<B>(flat: seq<B>, before: seq<B>, raw: seq<B>, n: nat, start: nat, buffer: seq<B>, ring: Ring,
                        b: nat)
    requires n > 0 && ring.Ok() && start + |buffer| <= |flat| && start <= b < start + |buffer|
    requires WrittenTo(before, raw, Flushed(flat, start, buffer), n,
                       InvalidatedAll(ring, RegionsOf(start, |buffer|, n)).Elements())
    ensures b < |raw| == |before|
    ensures var ks, k := RegionsOf(start, |buffer|, n), RegionStart(b, n);
            raw[b] == if k in ring.Elements() || exists i: nat :: QueuedAt(ring, ks, i, k)
                      then buffer[b - start] else before[b]
  {
    hide Flushed, Ring.Elements, QueuedAt, InvalidatedAll, RegionsOf, RegionStart, Ring.Ok;
    FlushedAt(flat, start, buffer);
    InvalidatedAllHas(ring, RegionsOf(start, |buffer|, n), RegionStart(b, n));
  }

  /** The cached regions of a device, the one least recently used first. */
  datatype Cached<B> = Cached(order: seq<int>, items: map<int, CacheRegion<B>>)
  {
    /** When the first region was last used. */
    function HeadTime(): int {
      if order == [] || order[0] !in items then DISTANT_FUTURE else items[order[0]].lastUsed
    }

    function WithoutHead(): Cached<B>
      requires order != []
    {
      Cached(order[1..], items - {order[0]})
    }
  }

  /** The device to evict from: the first of those whose first region was used longest ago; -1 if nothing is cached. */
  function Pick<B>(cs: seq<Cached<B>>): (best: int)
    ensures -1 <= best < |cs|
    ensures best == -1 ==> forall j: nat :: j < |cs| ==> cs[j].HeadTime() >= DISTANT_FUTURE
    ensures best >= 0 ==> cs[best].HeadTime() < DISTANT_FUTURE
    ensures best >= 0 ==> forall j: nat :: j < |cs| ==> cs[best].HeadTime() <= cs[j].HeadTime()
    ensures best >= 0 ==> forall j: nat :: j < best ==> cs[best].HeadTime() < cs[j].HeadTime()
  {
    if cs == [] then -1
    else
      var n := |cs| - 1;
      var best := Pick(cs[..n]);
      if cs[n].HeadTime() < (if best < 0 then DISTANT_FUTURE else cs[best].HeadTime()) then n else best
  }

  /** The caches after m evictions, each from the device picked then. */
  function EvictMany<B>(cs: seq<Cached<B>>, m: nat): (r: seq<Cached<B>>)
    ensures |r| == |cs|
  {
    if m == 0 then cs
    else
      var before := EvictMany(cs, m - 1);
      var best := Pick(before);
      if best < 0 || before[best].order == [] then before else before[best := before[best].WithoutHead()]
  }

  class DiskSystem<B> {
    const devices: seq<Device<B>>
    var usedCacheMemory: int
    ghost var flats: seq<seq<B>>
    ghost var counts: seq<nat>

    ghost const caches: seq<LRUCache<CacheRegion<B>>>
    ghost const queues: seq<Queue>

    /** No two devices share anything. */
    ghost predicate Separate() {
      && |caches| == |devices| == |queues|
      && (forall i: nat :: i < |devices| ==> devices[i].cache == caches[i] && devices[i].dirty == queues[i])
      && forall i: nat, j: nat :: i < j < |devices| ==>
           devices[i] != devices[j] && caches[i] != caches[j] && queues[i] != queues[j]
    }

    /** The i-th flat disk and number of cached regions. */
    ghost predicate Tracks(i: nat)
      requires i < |devices|
      reads this, devices[i], devices[i].cache, devices[i].dirty
    {
      && |flats| == |devices| == |counts|
      && devices[i].Valid() && devices[i].flat == flats[i] && |devices[i].cache.order| == counts[i]
    }

    /** Every device is in order, and the memory counter is one page for each cached region. */
    ghost predicate Valid()
      reads this, devices, caches, queues
    {
      && Separate() && |flats| == |devices| == |counts|
      && (forall i: nat :: i < |devices| ==> Tracks(i))
      && usedCacheMemory == PAGE_SIZE * Sum(counts)
    }

    /** Devices with empty caches that share nothing. */
    constructor (devices: seq<Device<B>>)
      requires forall i: nat :: i < |devices| ==> devices[i].Valid() && devices[i].cache.order == []
      requires forall i: nat, j: nat :: i < j < |devices| ==>
                 devices[i] != devices[j] && devices[i].cache != devices[j].cache
                 && devices[i].dirty != devices[j].dirty
      ensures Valid() && this.devices == devices && usedCacheMemory == 0
      ensures forall i: nat :: i < |devices| ==> flats[i] == devices[i].flat
    {
      this.devices, usedCacheMemory := devices, 0;
      caches := seq(|devices|, i requires 0 <= i < |devices| => devices[i].cache);
      queues := seq(|devices|, i requires 0 <= i < |devices| => devices[i].dirty);
      flats := seq(|devices|, i requires 0 <= i < |devices| reads devices => devices[i].flat);
      counts := seq(|devices|, i => 0);
      SumZero(seq(|devices|, i => 0));
    }

    /** `get_cache_region`: the region that holds the block, read from the disk if it is not cached. */
    method GetCacheRegion(d: Device<B>, block: nat, now: int) returns (k: int)
      requires d.Valid() && block < |d.flat| && now < DISTANT_FUTURE
      modifies this`usedCacheMemory, d.cache
      ensures d.Valid() && k in d.cache.items && k == RegionStart(block, d.blocks) && d.HasBlock(k, block)
      ensures d.cache.order == Used(old(d.cache.order), k)
      ensures d.cache.items == if k in old(d.cache.items) then old(d.cache.items) else
                                old(d.cache.items)[k := CacheRegion(k, d.flat[k..k + d.blocks], false, now)]
      ensures usedCacheMemory - old(usedCacheMemory) == PAGE_SIZE * (|d.cache.order| - |old(d.cache.order)|)
    {
      k := RegionStart(block, d.blocks);
      RegionBounds(block, d.blocks, |d.raw|);
      PromotedKeeps(d.cache.order, k);
      var found := d.cache.Get(k);
      if found.Some? {
        return;
      }
      usedCacheMemory := usedCacheMemory + PAGE_SIZE;
      LoadKeeps(d.raw, d.cache.items, d.blocks, d.flat, k, now);
      d.cache.Insert(k, CacheRegion(k, d.raw[k..k + d.blocks], false, now));
      RegionShows(d.raw, d.cache.items, d.blocks, d.flat, k);
    }

    /** One block comes from its cached region. */
    method LoadBlock(d: Device<B>, k: int, block: nat, now: int) returns (v: B)
      requires d.Valid() && block < |d.flat| && k in d.cache.items && d.HasBlock(k, block) && now < DISTANT_FUTURE
      modifies d.cache`items
      ensures d.Valid() && v == d.flat[block] && k in d.cache.items
      ensures d.cache.items == old(d.cache.items)[k := old(d.cache.items)[k].(lastUsed := now)]
    {
      RegionShows(d.raw, d.cache.items, d.blocks, d.flat, k);
      var r := d.cache.items[k].(lastUsed := now);
      TouchKeeps(d.raw, d.cache.items, d.blocks, d.flat, k, r);
      d.cache.items := d.cache.items[k := r];
      v := r.data[block - k];
    }

    /** Region k0, if the block lies in it, or else the block's region. */
    method UseRegion(d: Device<B>, have: bool, k0: int, block: nat, now: int) returns (k: int)
      requires d.Valid() && block < |d.flat| && now < DISTANT_FUTURE && (have ==> k0 in d.cache.items)
      modifies this`usedCacheMemory, d.cache
      ensures d.Valid() && k == RegionStart(block, d.blocks) && k in d.cache.items && d.HasBlock(k, block)
      ensures d.cache.order == if have && k == k0 then old(d.cache.order) else Used(old(d.cache.order), k)
      ensures d.DirtySet() == old(d.DirtySet())
      ensures forall x :: x in d.cache.items <==> x in old(d.cache.items) || x == k
      ensures forall x :: x in old(d.cache.items) ==> d.cache.items[x] == old(d.cache.items)[x]
      ensures usedCacheMemory - old(usedCacheMemory) == PAGE_SIZE * (|d.cache.order| - |old(d.cache.order)|)
    {
      RegionAligned(d, k0);
      hide Coherent, Shows, LRUCache<CacheRegion<B>>.Valid, Used;
      if have {
        RegionHolds(block, d.blocks, k0);
      }
      if have && d.HasBlock(k0, block) {
        return k0;
      }
      k := GetCacheRegion(d, block, now);
    }

    lemma RegionAligned(d: Device<B>, k: int)
      requires d.Valid()
      ensures k in d.cache.items ==> 0 <= k && k % d.blocks == 0 && k + d.blocks <= |d.raw|
    {
      if k in d.cache.items {
        assert RegionOk(d.raw, d.cache.items[k], k, d.blocks);
      }
    }

    /** One turn of the loop of `read_blocks`. */
    method ReadStep(d: Device<B>, have: bool, k0: int, block: nat, now: int) returns (k: int, v: B)
      requires d.Valid() && block < |d.flat| && now < DISTANT_FUTURE && (have ==> k0 in d.cache.items)
      modifies this`usedCacheMemory, d.cache
      ensures d.Valid() && v == d.flat[block] && k == RegionStart(block, d.blocks) && k in d.cache.items
      ensures d.cache.order == if have && k == k0 then old(d.cache.order) else Used(old(d.cache.order), k)
      ensures Touched(old(d.cache.items), d.cache.items, [k], now) && d.DirtySet() == old(d.DirtySet())
      ensures usedCacheMemory - old(usedCacheMemory) == PAGE_SIZE * (|d.cache.order| - |old(d.cache.order)|)
    {
      hide Coherent, Shows, LRUCache<CacheRegion<B>>.Valid, Used, RegionStart;
      k := UseRegion(d, have, k0, block, now);
      v := LoadBlock(d, k, block, now);
    }

    /** `read_blocks`: the caller gets the flat disk, and the regions read are the last ones used. */
    method ReadBlocks(d: Device<B>, start: nat, count: nat, now: int) returns (buffer: seq<B>)
      requires d.Valid() && start + count <= |d.flat| && now < DISTANT_FUTURE
      modifies this`usedCacheMemory, d.cache
      ensures d.Valid() && buffer == d.flat[start..start + count]
      ensures var ks := RegionsOf(start, count, d.blocks);
              && d.cache.order == UsedAll(old(d.cache.order), ks)
              && Touched(old(d.cache.items), d.cache.items, ks, now) && d.DirtySet() == old(d.DirtySet())
      ensures usedCacheMemory - old(usedCacheMemory) == PAGE_SIZE * (|d.cache.order| - |old(d.cache.order)|)
    {
      hide Coherent, Shows, LRUCache<CacheRegion<B>>.Valid, Used, RegionStart, Touched, DirtyRegions, RegionsOf;
      buffer := [];
      var have, k := false, 0;
      ghost var items, order := d.cache.items, d.cache.order;
      NoneTouched(items, now);
      RegionsNone(start, d.blocks);
      for i := 0 to count
        invariant d.Valid() && buffer == d.flat[start..start + i] && (i > 0 <==> have)
        invariant have ==> k in d.cache.items && k == RegionStart(start + i - 1, d.blocks)
        invariant d.cache.order == UsedAll(order, RegionsOf(start, i, d.blocks))
        invariant Touched(items, d.cache.items, RegionsOf(start, i, d.blocks), now)
        invariant d.DirtySet() == old(d.DirtySet())
        invariant usedCacheMemory - old(usedCacheMemory) == PAGE_SIZE * (|d.cache.order| - |old(d.cache.order)|)
      {
        ghost var ks, before := RegionsOf(start, i, d.blocks), d.cache.items;
        RegionsNext(start, i, d.blocks);
        SliceNext(d.flat, start, i);
        var v;
        k, v := ReadStep(d, have, k, start + i, now);
        have := true;
        buffer := buffer + [v];
        TouchedThen(items, before, d.cache.items, ks, k, now);
        UsedNext(order, ks, k);
      }
    }

    /** The region's start is put on the queue of regions to write back, unless the scan of the queue finds it. */
    method Invalidate(d: Device<B>, k: int)
      requires d.dirty.Valid()
      modifies d.dirty
      ensures d.dirty.Valid() && d.dirty.Value() == Invalidated(old(d.dirty.Value()), k)
    {
      var c := d.dirty.Contains(k);
      if c {
        return;
      }
      d.dirty.PushBack(k);
    }

    /** One block goes into its cached region, which is dirty then. */
    method StoreBlock(d: Device<B>, k: int, block: nat, v: B, now: int)
      requires d.Valid() && block < |d.flat| && k in d.cache.items && d.HasBlock(k, block) && now < DISTANT_FUTURE
      modifies d`flat, d.cache`items
      ensures d.Valid() && d.flat == old(d.flat)[block := v] && k in d.cache.items
      ensures d.DirtySet() == old(d.DirtySet()) + {k}
      ensures d.cache.items.Keys == old(d.cache.items.Keys) && d.cache.items[k].lastUsed == now
      ensures forall x :: x in d.cache.items && x != k ==> d.cache.items[x] == old(d.cache.items)[x]
    {
      RegionShows(d.raw, d.cache.items, d.blocks, d.flat, k);
      StoreKeeps(d.raw, d.cache.items, d.blocks, d.flat, k, block, v, now);
      var r := d.cache.items[k];
      d.cache.items := d.cache.items[k := r.(data := r.data[block - k := v], dirty := true, lastUsed := now)];
      d.flat := d.flat[block := v];
    }

    /** One turn of the loop of `write_blocks`: a region that was left is put on the queue. */
    method WriteStep(d: Device<B>, have: bool, k0: int, block: nat, v: B, now: int) returns (k: int)
      requires d.Valid() && block < |d.flat| && now < DISTANT_FUTURE && (have ==> k0 in d.cache.items)
      modifies this`usedCacheMemory, d`flat, d.cache, d.dirty
      ensures d.Valid() && d.flat == old(d.flat)[block := v] && k == RegionStart(block, d.blocks) && k in d.cache.items
      ensures d.cache.order == if have && k == k0 then old(d.cache.order) else Used(old(d.cache.order), k)
      ensures Touched(old(d.cache.items), d.cache.items, [k], now) && d.DirtySet() == old(d.DirtySet()) + {k}
      ensures d.dirty.Value() == if have && k != k0 then Invalidated(old(d.dirty.Value()), k0) else old(d.dirty.Value())
      ensures usedCacheMemory - old(usedCacheMemory) == PAGE_SIZE * (|d.cache.order| - |old(d.cache.order)|)
    {
      if have {
        RegionAligned(d, k0);
        RegionHolds(block, d.blocks, k0);
      }
      hide Coherent, Shows, LRUCache<CacheRegion<B>>.Valid, Used, RegionStart, Invalidated, DirtyRegions;
      if have && !d.HasBlock(k0, block) {
        Invalidate(d, k0);
      }
      k := UseRegion(d, have, k0, block, now);
      StoreBlock(d, k, block, v, now);
    }

    /**
     `write_blocks`: exactly the blocks written change on the flat disk. The regions written are dirty, and each is put
     on the queue unless the scan of the queue finds it. Writing none leaves no region to queue, and the kernel faults
     on the missing one (`crashed`).
     */
    method WriteBlocks(d: Device<B>, start: nat, buffer: seq<B>, now: int) returns (crashed: bool)
      requires d.Valid() && start + |buffer| <= |d.flat| && now < DISTANT_FUTURE
      modifies this`usedCacheMemory, d`flat, d.cache, d.dirty
      ensures crashed <==> buffer == []
      ensures d.Valid() && d.flat == Flushed(old(d.flat), start, buffer)
      ensures var ks := RegionsOf(start, |buffer|, d.blocks);
              && d.cache.order == UsedAll(old(d.cache.order), ks)
              && Touched(old(d.cache.items), d.cache.items, ks, now)
              && d.DirtySet() == old(d.DirtySet()) + Members(ks)
              && d.dirty.Value() == InvalidatedAll(old(d.dirty.Value()), ks)
      ensures usedCacheMemory - old(usedCacheMemory) == PAGE_SIZE * (|d.cache.order| - |old(d.cache.order)|)
    {
      hide Coherent, Shows, LRUCache<CacheRegion<B>>.Valid, Used, RegionStart, Touched, DirtyRegions, RegionsOf;
      hide Invalidated, Ring.Ok, Partly, Flushed, Members;
      MembersNone();
      ghost var flat := d.flat;
      ghost var items, order, ring := d.cache.items, d.cache.order, d.dirty.Value();
      var have, k := false, 0;
      NoneTouched(items, now);
      RegionsNone(start, d.blocks);
      PartlyAll(flat, start, buffer);
      for i := 0 to |buffer|
        invariant d.Valid() && d.flat == Partly(flat, start, buffer, i) && (i > 0 <==> have)
        invariant have ==> k in d.cache.items && k == RegionStart(start + i - 1, d.blocks)
        invariant d.cache.order == UsedAll(order, RegionsOf(start, i, d.blocks))
        invariant Touched(items, d.cache.items, RegionsOf(start, i, d.blocks), now)
        invariant d.DirtySet() == old(d.DirtySet()) + Members(RegionsOf(start, i, d.blocks))
        invariant d.dirty.Value() == InvalidatedAll(ring, Earlier(RegionsOf(start, i, d.blocks)))
        invariant usedCacheMemory - old(usedCacheMemory) == PAGE_SIZE * (|d.cache.order| - |old(d.cache.order)|)
      {
        ghost var ks, before := RegionsOf(start, i, d.blocks), d.cache.items;
        RegionsNext(start, i, d.blocks);
        InvalidatedLast(ring, ks);
        PartlyNext(flat, start, buffer, i);
        k := WriteStep(d, have, k, start + i, buffer[i], now);
        have := true;
        TouchedThen(items, before, d.cache.items, ks, k, now);
        UsedNext(order, ks, k);
        MembersNext(ks, k);
        assert Earlier(ks + [k]) == ks;
      }
      crashed := !have;
      if have {
        ghost var ks := RegionsOf(start, |buffer|, d.blocks);
        RegionsLast(start, |buffer|, d.blocks);
        InvalidatedLast(ring, ks);
        Invalidate(d, k);
      }
    }

    /** The raw disk takes the region's blocks and the region is clean. */
    method WriteBack(d: Device<B>, k: int)
      requires d.Valid() && k in d.cache.items
      modifies d`raw, d.cache`items
      ensures d.Valid() && 0 <= k && k + d.blocks <= |d.raw| == |old(d.raw)|
      ensures d.raw == Flushed(old(d.raw), k, d.flat[k..k + d.blocks])
      ensures d.cache.items == old(d.cache.items)[k := old(d.cache.items)[k].(dirty := false)]
    {
      RegionShows(d.raw, d.cache.items, d.blocks, d.flat, k);
      FlushKeeps(d.raw, d.cache.items, d.blocks, d.flat, k);
      d.raw := Flushed(d.raw, k, d.cache.items[k].data);
      d.cache.items := d.cache.items[k := d.cache.items[k].(dirty := false)];
    }

    /** One turn of the writeback loop, on the region queued first. */
    method WritebackNext(d: Device<B>) returns (ok: bool)
      requires d.Valid() && d.dirty.size > 0
      modifies d`raw, d.cache, d.dirty
      ensures d.Valid() && d.dirty.Contents() == old(d.dirty.Contents())[1..]
      ensures var k := old(d.dirty.Contents())[0];
              && (ok <==> k in old(d.cache.items)) && d.cache.order == Promoted(old(d.cache.order), k)
              && |d.cache.order| == |old(d.cache.order)|
              && d.cache.items ==
                   (if ok then old(d.cache.items)[k := old(d.cache.items)[k].(dirty := false)] else old(d.cache.items))
              && (ok ==> 0 <= k && k + d.blocks <= |d.raw| == |old(d.raw)|
                         && d.raw == Flushed(old(d.raw), k, d.flat[k..k + d.blocks]))
              && (!ok ==> d.raw == old(d.raw))
    {
      hide Coherent, Shows, Flushed;
      var k := d.dirty.PopFront();
      PromotedKeeps(d.cache.order, k);
      var found := d.cache.Get(k);
      ok := found.Some?;
      if ok {
        WriteBack(d, k);
      }
    }

    /**
     The writeback loop for one device: every region queued, up to the first that is no longer cached, is written to the
     raw disk and clean then, and nothing else changes there. It gives up, for good, exactly when there is such a one.
     */
    method WritebackDevice(d: Device<B>) returns (stopped: bool, ghost n: nat)
      requires d.Valid()
      modifies d`raw, d.cache, d.dirty
      ensures d.Valid() && |d.cache.order| == |old(d.cache.order)| && d.cache.items.Keys == old(d.cache.items.Keys)
      ensures var queued := old(d.dirty.Contents());
              && n <= |queued| && (stopped <==> n < |queued|) && (n < |queued| ==> queued[n] !in d.cache.items)
              && (forall i: nat :: i < n ==> queued[i] in d.cache.items)
              && d.dirty.Contents() == (if stopped then queued[n + 1..] else [])
              && d.DirtySet() == old(d.DirtySet()) - Members(queued[..n])
              && WrittenTo(old(d.raw), d.raw, d.flat, d.blocks, queued[..n])
    {
      hide Coherent, Shows, LRUCache<CacheRegion<B>>.Valid, Flushed, WrittenTo, DirtyRegions;
      ghost var queued, raw := d.dirty.Contents(), d.raw;
      n := 0;
      NoneWritten(raw, d.flat, d.blocks);
      assert queued[..0] == [];
      while d.dirty.size > 0
        invariant d.Valid() && |d.cache.order| == |old(d.cache.order)| && d.cache.items.Keys == old(d.cache.items.Keys)
        invariant 0 <= n <= |queued| && d.dirty.Contents() == queued[n..]
        invariant forall i: nat :: i < n ==> queued[i] in d.cache.items
        invariant d.DirtySet() == old(d.DirtySet()) - Members(queued[..n])
        invariant WrittenTo(raw, d.raw, d.flat, d.blocks, queued[..n])
        decreases d.dirty.size
      {
        ghost var before, items := d.raw, d.cache.items;
        RegionAligned(d, queued[n]);
        var ok := WritebackNext(d);
        if !ok {
          return true, n;
        }
        assert queued[..n + 1] == queued[..n] + [queued[n]];
        WrittenNext(raw, before, d.raw, d.flat, d.blocks, queued[..n], queued[n]);
        CleanedDirty(items, queued[n]);
        n := n + 1;
      }
      stopped := false;
    }

    /** Reads, writes, writebacks and evictions, on the flat disks of all devices. */
    method Read(i: nat, start: nat, count: nat, now: int) returns (buffer: seq<B>)
      requires Valid() && i < |devices| && start + count <= |flats[i]| && now < DISTANT_FUTURE
      modifies this, devices, caches, queues
      ensures Valid() && flats == old(flats) && buffer == flats[i][start..start + count]
    {
      hide Coherent, Shows;
      assert Tracks(i);
      buffer := ReadBlocks(devices[i], start, count, now);
      SumUpdate(counts, i, |devices[i].cache.order|);
      counts := counts[i := |devices[i].cache.order|];
      forall j: nat | j < |devices| ensures Tracks(j) {
        assert old(Tracks(j));
      }
    }

    method Write(i: nat, start: nat, buffer: seq<B>, now: int)
      requires Valid() && i < |devices| && start + |buffer| <= |flats[i]| && |buffer| > 0 && now < DISTANT_FUTURE
      modifies this, devices, caches, queues
      ensures Valid() && flats == old(flats)[i := Flushed(old(flats)[i], start, buffer)]
      ensures devices[i].blocks > 0 && old(queues[i].Valid())
      ensures var ks := RegionsOf(start, |buffer|, devices[i].blocks);
              && devices[i].DirtySet() == old(devices[i].DirtySet()) + Members(ks)
              && queues[i].Value() == InvalidatedAll(old(queues[i].Value()), ks)
    {
      hide Coherent, Shows, Flushed;
      assert Tracks(i);
      var crashed := WriteBlocks(devices[i], start, buffer, now);
      SumUpdate(counts, i, |devices[i].cache.order|);
      counts := counts[i := |devices[i].cache.order|];
      flats := flats[i := devices[i].flat];
      forall j: nat | j < |devices| ensures Tracks(j) {
        assert old(Tracks(j));
      }
    }

    /** The regions queued on device i are on its raw disk and clean; no other was written, and none is queued. */
    twostate predicate Written(i: nat)
      requires Separate() && i < |devices|
      reads devices[i], caches[i], queues[i]
    {
      && old(queues[i].Valid())
      && queues[i].size == 0 && devices[i].DirtySet() == old(devices[i].Unqueued())
      && devices[i].flat == old(devices[i].flat)
      && WrittenTo(old(devices[i].raw), devices[i].raw, devices[i].flat, devices[i].blocks, old(queues[i].Contents()))
    }

    method WritebackAt(i: nat) returns (stopped: bool)
      requires Valid() && i < |devices|
      modifies devices[i], caches[i], queues[i]
      ensures Valid() && (!stopped ==> Written(i))
    {
      hide Coherent, Shows;
      assert Tracks(i);
      ghost var n;
      stopped, n := WritebackDevice(devices[i]);
      forall j: nat | j < |devices| ensures Tracks(j) {
        assert old(Tracks(j));
      }
    }

    /** One round of `cache_writeback_task_entry` over all devices; it returns early when a device's loop gives up. */
    method Writeback() returns (stopped: bool)
      requires Valid()
      modifies this, devices, caches, queues
      ensures Valid() && flats == old(flats)
      ensures !stopped ==> forall i: nat :: i < |devices| ==> Written(i)
    {
      hide Tracks;
      for i := 0 to |devices|
        invariant Valid() && flats == old(flats)
        invariant forall j: nat :: j < i ==> Written(j)
        invariant forall j: nat :: i <= j < |devices| ==>
                    unchanged(devices[j]) && unchanged(caches[j]) && unchanged(queues[j])
      {
        stopped := WritebackAt(i);
        if stopped {
          return;
        }
      }
      return false;
    }

    ghost function CachedAt(i: nat): Cached<B>
      requires i < |caches|
      reads caches[i]
    {
      Cached(caches[i].order, caches[i].items)
    }

    /** What all devices have cached. */
    ghost function AllCached(): seq<Cached<B>>
      reads caches
    {
      seq(|caches|, i requires 0 <= i < |caches| reads caches => CachedAt(i))
    }

    /** The search of `free_pages`. */
    method OldestDevice() returns (best: int)
      requires Valid()
      ensures -1 <= best < |devices| && best == Pick(AllCached()) && (best == -1 <==> Sum(counts) == 0)
      ensures best >= 0 ==> caches[best].order != []
    {
      hide Coherent, Shows, Cached<B>.HeadTime, LRUCache<CacheRegion<B>>.Valid;
      best := -1;
      var time := DISTANT_FUTURE;
      ghost var all := AllCached();
      for i := 0 to |devices|
        invariant -1 <= best < i && best == Pick(all[..i]) && (best >= 0 ==> caches[best].order != [])
        invariant time == if best == -1 then DISTANT_FUTURE else all[best].HeadTime()
        invariant best == -1 ==> forall j: nat :: j < i ==> counts[j] == 0
      {
        assert Tracks(i);
        assert all[..i + 1][..i] == all[..i] && all[i] == CachedAt(i);
        HeadIs(i);
        if devices[i].cache.order != [] {
          var k, r := devices[i].cache.LruUnsafe();
          if r.lastUsed < time {
            best, time := i, r.lastUsed;
          }
        }
      }
      assert all[..|devices|] == all;
      SumZero(counts);
      assert best >= 0 ==> Tracks(best);
    }

    lemma HeadIs(i: nat)
      requires Valid() && i < |devices|
      ensures caches[i].order == [] ==> CachedAt(i).HeadTime() == DISTANT_FUTURE
      ensures caches[i].order != [] ==>
                var k := caches[i].order[0];
                k in caches[i].items && CachedAt(i).HeadTime() == caches[i].items[k].lastUsed < DISTANT_FUTURE
    {
      assert Tracks(i);
      if caches[i].order != [] {
        var k := caches[i].order[0];
        assert k in caches[i].items;
        assert RegionOk(devices[i].raw, caches[i].items[k], k, devices[i].blocks);
      }
    }

    /**
     The oldest region of a device is written back if it is dirty and dropped: the region pruned is the one flushed.
     */
    method EvictOldest(d: Device<B>)
      requires d.Valid() && d.cache.order != []
      modifies d`raw, d.cache
      ensures d.Valid() && d.cache.order == old(d.cache.order)[1..]
      ensures d.cache.items == old(d.cache.items) - {old(d.cache.order)[0]}
      ensures var k := old(d.cache.order)[0];
              && 0 <= k && k + d.blocks <= |d.raw| == |old(d.raw)|
              && d.raw == if k in old(d.DirtySet()) then Flushed(old(d.raw), k, d.flat[k..k + d.blocks]) else old(d.raw)
    {
      hide Coherent, Shows, Flushed, DirtyRegions;
      ghost var items, order := d.cache.items, d.cache.order;
      var k, r := d.cache.LruUnsafe();
      EvictKeeps(d.raw, items, d.blocks, d.flat, k);
      HeadRegion(d.raw, items, d.blocks, d.flat, k);
      FlushedSize(d.raw, k, r.data);
      if r.dirty {
        d.raw := Flushed(d.raw, k, r.data);
      }
      d.cache.Prune(1);
      assert d.cache.order == order[1..];
      PrunedItems(order, items, d.cache.items);
    }

    lemma HeadRegion(raw: seq<B>, items: map<int, CacheRegion<B>>, n: nat, flat: seq<B>, k: int)
      requires Coherent(raw, items, n) && Shows(raw, items, n, flat) && k in items
      ensures 0 <= k && k + n <= |raw| == |flat| && items[k].data == flat[k..k + n] && |items[k].data| == n
      ensures k in DirtyRegions(items) <==> items[k].dirty
    {
      RegionShows(raw, items, n, flat, k);
    }

    lemma FlushedSize(raw: seq<B>, k: nat, data: seq<B>)
      requires k + |data| <= |raw|
      ensures |Flushed(raw, k, data)| == |raw|
    {
    }

    method EvictFrom(i: nat)
      requires Valid() && i < |devices| && caches[i].order != []
      modifies this, devices, caches
      ensures Valid() && flats == old(flats) && old(counts)[i] > 0 && counts == old(counts)[i := old(counts)[i] - 1]
      ensures AllCached() == old(AllCached())[i := old(CachedAt(i)).WithoutHead()]
    {
      hide Coherent, Shows;
      assert Tracks(i);
      EvictOldest(devices[i]);
      usedCacheMemory := usedCacheMemory - PAGE_SIZE;
      SumUpdate(counts, i, counts[i] - 1);
      counts := counts[i := counts[i] - 1];
      forall j: nat | j < |devices| ensures Tracks(j) {
        assert old(Tracks(j));
      }
      assert forall j: nat :: j < |devices| && j != i ==> CachedAt(j) == old(CachedAt(j));
    }

    /** `free_pages`: as many regions as asked for, or all there are, oldest first; no flat disk changes. */
    method FreePages(num: nat) returns (freed: nat)
      requires Valid()
      modifies this, devices, caches
      ensures Valid() && flats == old(flats)
      ensures freed == if num < Sum(old(counts)) then num else Sum(old(counts))
      ensures Sum(counts) == Sum(old(counts)) - freed && AllCached() == EvictMany(old(AllCached()), freed)
    {
      hide Tracks, Separate, Pick, Sum, Cached<B>.WithoutHead, CachedAt;
      freed := 0;
      while freed < num
        invariant Valid() && flats == old(flats) && freed <= num && Sum(counts) == Sum(old(counts)) - freed
        invariant AllCached() == EvictMany(old(AllCached()), freed)
      {
        var best := OldestDevice();
        if best < 0 {
          break;
        }
        SumUpdate(counts, best, if counts[best] > 0 then counts[best] - 1 else 0);
        EvictFrom(best);
        freed := freed + 1;
      }
    }

    /** Any run returns for each read what the flat disks, written directly, would return. */
    method Run(ops: seq<DiskOp<B>>) returns (outs: seq<seq<B>>)
      requires Valid() && AllowedAll(flats, ops)
      modifies this, devices, caches, queues
      ensures Valid() && flats == FlatRun(old(flats), ops) && outs == FlatReads(old(flats), ops)
    {
      hide Tracks, Separate, Allowed, FlatStep;
      outs := [];
      ghost var flats0 := flats;
      assert ops[..0] == [];
      for n := 0 to |ops|
        invariant Valid() && flats == FlatRun(flats0, ops[..n]) && outs == FlatReads(flats0, ops[..n])
      {
        assert ops[..n + 1][..n] == ops[..n];
        AllowedAt(flats0, ops, n);
        var out := Perform(ops[n]);
        if ops[n].ReadOp? {
          outs := outs + [out];
        }
      }
      assert ops[..|ops|] == ops;
    }

    method Perform(op: DiskOp<B>) returns (out: seq<B>)
      requires Valid() && Allowed(flats, op)
      modifies this, devices, caches, queues
      ensures Valid() && flats == FlatStep(old(flats), op)
      ensures op.ReadOp? ==> out == FlatRead(old(flats), op)
    {
      hide Tracks, Separate;
      out := [];
      match op
      case ReadOp(i, start, count, now) => out := Read(i, start, count, now);
      case WriteOp(i, start, data, now) => Write(i, start, data, now);
      case WritebackOp => var stopped := Writeback();
      case FreeOp(num) => var freed := FreePages(num);
    }
  }

  // ---------- A write that never reaches the disk ----------

  /** A request for one block comes to one region. */
  lemma OneRegion(b: nat, r: Ring)
    requires b % 8 == 0 && r.Ok()
    ensures RegionsOf(b, 1, 8) == [b] && InvalidatedAll(r, [b]) == Invalidated(r, b)
  {
    RegionStartIs(b, 8, b);
    RegionsNext(b, 0, 8);
    InvalidatedNext(r, [], b);
    assert [] + [b] == [b];
  }

  lemma FirstQueued()
    ensures Invalidated(Ring([], 0, 0, 0), 8) == Ring([8], 1, 0, 0)
  {
    assert Ring([], 0, 0, 0).Elements() == [];
  }

  lemma SecondQueued()
    ensures Ring([8], 1, 0, 0).Ok() && Invalidated(Ring([8], 1, 0, 0), 16) == Ring([8, 16], 2, 0, 1)
  {
    var r := Ring([8], 1, 0, 0);
    assert r.Elements() == [8] && r.ScanLength() == 1 && r.Slot(0) == 8;
    assert !r.Finds(16);
  }

  /** The third region makes the buffer grow to four slots. */
  lemma ThirdQueued()
    ensures Ring([8, 16], 2, 0, 1).Ok() && Invalidated(Ring([8, 16], 2, 0, 1), 24) == Ring([8, 16, 24, 0], 3, 0, 2)
  {
    var r := Ring([8, 16], 2, 0, 1);
    assert r.Elements() == [8, 16] && r.ScanLength() == 2 && r.Slot(0) == 8 && r.Slot(1) == 16;
    assert !r.Finds(24);
    assert seq(1, _ => 0) == [0];
  }

  /** Region 0 is then taken to be queued, for the slot that was never used holds a 0. */
  lemma FourthPassedOver()
    ensures var r := Ring([8, 16, 24, 0], 3, 0, 2);
            r.Ok() && r.Misled(0) && Invalidated(r, 0) == r && r.Elements() == [8, 16, 24]
  {
    var r := Ring([8, 16, 24, 0], 3, 0, 2);
    assert r.ScanLength() == 4 && r.Slot(3) == 0;
  }

  /** One block that starts a region is written to a device that shows nothing but zeros there. */
  method WriteOne(system: DiskSystem<int>, d: Device<int>, b: nat, v: int)
    requires d.Valid() && d.blocks == 8 && b % 8 == 0 && b < |d.flat|
    modifies system`usedCacheMemory, d`flat, d.cache, d.dirty
    ensures d.Valid() && d.flat == old(d.flat)[b := v] && d.DirtySet() == old(d.DirtySet()) + {b}
    ensures d.dirty.Value() == Invalidated(old(d.dirty.Value()), b)
  {
    hide Coherent, Shows, LRUCache<CacheRegion<int>>.Valid, Invalidated, InvalidatedAll, RegionsOf, Ring.Ok, UsedAll;
    OneRegion(b, d.dirty.Value());
    var crashed := system.WriteBlocks(d, b, [v], 0);
    assert d.flat == old(d.flat)[b := v];
  }

  method WriteFour(system: DiskSystem<int>, d: Device<int>)
    requires d.Valid() && d.blocks == 8 && |d.flat| == 32 && d.cache.items == map[]
    requires d.dirty.Value() == Ring([], 0, 0, 0)
    modifies system`usedCacheMemory, d`flat, d.cache, d.dirty
    ensures |d.flat| == 32 && d.flat[0] == 7
    ensures d.DirtySet() == {8, 16, 24, 0} && d.dirty.Value() == Ring([8, 16, 24, 0], 3, 0, 2)
    ensures d.Valid()
  {
    hide Coherent, Shows, LRUCache<CacheRegion<int>>.Valid, Invalidated, Ring.Ok, Ring.Misled, Ring.Elements;
    FirstQueued();
    SecondQueued();
    ThirdQueued();
    FourthPassedOver();
    WriteOne(system, d, 8, 1);
    WriteOne(system, d, 16, 2);
    WriteOne(system, d, 24, 3);
    WriteOne(system, d, 0, 7);
  }

  /**
   Regions 8, 16 and 24 of a new device are written, then block 0. The writeback that follows does not give up and
   leaves the queue empty, but block 0 is not on the disk.
   */
  method LostWrite() returns (d: Device<int>, stopped: bool)
    ensures !stopped && d.Valid() && d.dirty.size == 0 && d.DirtySet() == {0}
    ensures |d.raw| == 32 && d.flat[0] == 7 && d.raw[0] == 0
  {
    hide Coherent, Shows, LRUCache<CacheRegion<int>>.Valid, Ring.Ok, WrittenTo;
    d := new Device(seq(32, _ => 0), 8);
    var system := new DiskSystem([d]);
    WriteFour(system, d);
    FourthPassedOver();
    ghost var raw, queued := d.raw, d.dirty.Contents();
    ghost var n;
    stopped, n := system.WritebackDevice(d);
    assert queued == [8, 16, 24] && 8 in d.cache.items && 16 in d.cache.items && 24 in d.cache.items;
    assert queued[..3] == [8, 16, 24];
    ZeroStays(raw, d.raw, d.flat);
  }

  lemma ZeroStays(before: seq<int>, raw: seq<int>, flat: seq<int>)
    requires WrittenTo(before, raw, flat, 8, [8, 16, 24]) && |raw| > 0
    ensures raw[0] == before[0]
  {
    RegionStartIs(0, 8, 0);
  }
}
