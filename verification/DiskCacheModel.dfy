/**
 The contents of a disk behind its write-back cache (`kernel/device/DiskDevice.cpp`), as values: the raw
 blocks, the cached regions over them, and the flat disk a caller sees.
 */
module DiskCacheModel {
  import opened RingQueue
  import opened LruCache

  /** One page of consecutive blocks held in memory. */
  datatype CacheRegion<B> = CacheRegion(start: nat, data: seq<B>, dirty: bool, lastUsed: int)

  /** `Time::distant_future()`: later than any clock reading. */
  const DISTANT_FUTURE := 0x7FFF_FFFF_FFFF_FFFF

  /** `block_cache_region_start`, for n blocks per region. */
  function RegionStart(block: nat, n: nat): (s: int)
    requires n > 0
  {
    block - block % n
  }

  lemma RegionStartIs(block: nat, n: nat, s: nat)
    requires n > 0 && s % n == 0 && s <= block < s + n
    ensures RegionStart(block, n) == s
  {
    ModUnique(block, n, s / n, block - s);
  }

  /** A block lies in the region that starts at a boundary k exactly if that is its region's start. */
  lemma RegionHolds(block: nat, n: nat, k: nat)
    requires n > 0 && k % n == 0
    ensures k <= block < k + n <==> RegionStart(block, n) == k
  {
    if k <= block < k + n {
      RegionStartIs(block, n, k);
    }
  }

  lemma Difference(q: int, k: int, n: int)
    ensures (k - q) * n == k * n - q * n
  {
  }

  /** A multiple of n that is at most x, which is less than another, is at least n below that one. */
  lemma Multiples(q: nat, k: nat, n: nat, x: nat)
    requires n > 0 && q * n <= x < k * n
    ensures q * n + n <= k * n
  {
    var d, p := k - q, (k - q) * n;
    Difference(q, k, n);
    MulAtLeast(d, n);
    assert d == 0 ==> p == 0;
  }

  /** A region lies on a boundary, holds the block, and ends inside a disk of whole regions. */
  lemma RegionBounds(block: nat, n: nat, size: nat)
    requires n > 0 && size % n == 0 && block < size
    ensures var s := RegionStart(block, n); 0 <= s <= block < s + n && s % n == 0 && s + n <= size
  {
    var s, q, k := RegionStart(block, n), block / n, size / n;
    assert s == q * n && size == k * n && block == q * n + block % n;
    ModUnique(s, n, q, 0);
    Multiples(q, k, n, block);
  }

  /** Regions are aligned, whole and inside the disk; a clean region equals the raw blocks. */
  ghost predicate RegionOk<B>(raw: seq<B>, r: CacheRegion<B>, k: int, n: nat)
    requires n > 0
  {
    && 0 <= k && k % n == 0 && k + n <= |raw| && r.start == k && |r.data| == n && r.lastUsed < DISTANT_FUTURE
    && (!r.dirty ==> r.data == raw[k..k + n])
  }

  ghost predicate Coherent<B>(raw: seq<B>, regions: map<int, CacheRegion<B>>, n: nat) {
    n > 0 && |raw| % n == 0 && forall k :: k in regions ==> RegionOk(raw, regions[k], k, n)
  }

  /** What a reader of a block gets: the cached copy if there is one. */
  ghost function ViewAt<B>(raw: seq<B>, regions: map<int, CacheRegion<B>>, n: nat, b: nat): B
    requires Coherent(raw, regions, n) && b < |raw|
  {
    RegionBounds(b, n, |raw|);
    var s := RegionStart(b, n);
    if s in regions then
      assert RegionOk(raw, regions[s], s, n);
      regions[s].data[b - s]
    else raw[b]
  }

  ghost predicate Shows<B>(raw: seq<B>, regions: map<int, CacheRegion<B>>, n: nat, flat: seq<B>)
    requires Coherent(raw, regions, n)
  {
    |flat| == |raw| && forall b: nat :: b < |raw| ==> flat[b] == ViewAt(raw, regions, n, b)
  }

  /** The cached copy of region k is the flat disk there. */
  lemma RegionShows<B>(raw: seq<B>, regions: map<int, CacheRegion<B>>, n: nat, flat: seq<B>, k: int)
    requires Coherent(raw, regions, n) && Shows(raw, regions, n, flat) && k in regions
    ensures RegionOk(raw, regions[k], k, n) && regions[k].data == flat[k..k + n]
  {
    var r := regions[k];
    assert RegionOk(raw, r, k, n);
    forall i: nat | i < n ensures r.data[i] == flat[k..k + n][i] {
      RegionStartIs(k + i, n, k);
      assert flat[k + i] == ViewAt(raw, regions, n, k + i);
    }
  }

  /** Reading a region in, or dropping a clean one: no block changes. */
  lemma LoadKeeps<B>(raw: seq<B>, regions: map<int, CacheRegion<B>>, n: nat, flat: seq<B>, k: nat, now: int)
    requires Coherent(raw, regions, n) && Shows(raw, regions, n, flat)
    requires k !in regions && k % n == 0 && k + n <= |raw| && now < DISTANT_FUTURE
    ensures var after := regions[k := CacheRegion(k, raw[k..k + n], false, now)];
            Coherent(raw, after, n) && Shows(raw, after, n, flat)
  {
    var after := regions[k := CacheRegion(k, raw[k..k + n], false, now)];
    assert Coherent(raw, after, n);
    forall b: nat | b < |raw| ensures ViewAt(raw, after, n, b) == ViewAt(raw, regions, n, b) {
      RegionBounds(b, n, |raw|);
    }
  }

  /** Replacing a region by one with the same blocks that is still in order. */
  lemma TouchKeeps<B>(raw: seq<B>, regions: map<int, CacheRegion<B>>, n: nat, flat: seq<B>, k: int, r: CacheRegion<B>)
    requires Coherent(raw, regions, n) && Shows(raw, regions, n, flat)
    requires k in regions && RegionOk(raw, r, k, n) && r.data == regions[k].data
    ensures Coherent(raw, regions[k := r], n) && Shows(raw, regions[k := r], n, flat)
  {
    var after := regions[k := r];
    assert Coherent(raw, after, n);
    forall b: nat | b < |raw| ensures ViewAt(raw, after, n, b) == ViewAt(raw, regions, n, b) {
      RegionBounds(b, n, |raw|);
    }
  }

  /** Writing a block of a cached region changes that block of the flat disk and no other. */
  lemma StoreKeeps<B>(raw: seq<B>, regions: map<int, CacheRegion<B>>, n: nat, flat: seq<B>, k: int, b: nat, v: B,
                      now: int)
    requires Coherent(raw, regions, n) && Shows(raw, regions, n, flat) && now < DISTANT_FUTURE
    requires k in regions && k <= b < k + n && b < |raw| && |regions[k].data| == n
    ensures var r := regions[k];
            var after := regions[k := r.(data := r.data[b - k := v], dirty := true, lastUsed := now)];
            Coherent(raw, after, n) && Shows(raw, after, n, flat[b := v])
  {
    var r := regions[k];
    var r' := r.(data := r.data[b - k := v], dirty := true, lastUsed := now);
    var after := regions[k := r'];
    assert RegionOk(raw, r, k, n);
    assert RegionOk(raw, r', k, n);
    assert Coherent(raw, after, n);
    RegionStartIs(b, n, k);
    forall c: nat | c < |raw| ensures ViewAt(raw, after, n, c) == flat[b := v][c] {
      RegionBounds(c, n, |raw|);
      assert flat[c] == ViewAt(raw, regions, n, c);
    }
  }

  /** The raw disk after region k was written to it. */
  function Flushed<B>(raw: seq<B>, k: nat, data: seq<B>): seq<B>
    requires k + |data| <= |raw|
  {
    raw[..k] + data + raw[k + |data|..]
  }

  lemma FlushedAt<B>(raw: seq<B>, k: nat, data: seq<B>)
    requires k + |data| <= |raw|
    ensures var f := Flushed(raw, k, data);
            && |f| == |raw| && f[k..k + |data|] == data
            && (forall b: nat :: b < |raw| ==> f[b] == if k <= b < k + |data| then data[b - k] else raw[b])
  {
  }

  lemma FlushedElsewhere<B>(raw: seq<B>, k: nat, data: seq<B>, j: nat)
    requires k + |data| <= |raw| && j + |data| <= |raw| && (j + |data| <= k || k + |data| <= j)
    ensures |Flushed(raw, k, data)| == |raw| && Flushed(raw, k, data)[j..j + |data|] == raw[j..j + |data|]
  {
  }

  lemma FlushCoherent<B>(raw: seq<B>, regions: map<int, CacheRegion<B>>, n: nat, k: int)
    requires Coherent(raw, regions, n) && k in regions && 0 <= k && k + |regions[k].data| <= |raw|
    ensures Coherent(Flushed(raw, k, regions[k].data), regions[k := regions[k].(dirty := false)], n)
  {
    hide Flushed;
    var r := regions[k];
    var raw' := Flushed(raw, k, r.data);
    var after := regions[k := r.(dirty := false)];
    assert RegionOk(raw, r, k, n);
    FlushedAt(raw, k, r.data);
    forall j | j in after ensures RegionOk(raw', after[j], j, n) {
      assert RegionOk(raw, regions[j], j, n);
      if j != k {
        Apart(j, k, n);
        FlushedElsewhere(raw, k, r.data, j);
      }
    }
  }

  /** Writing a region back makes it clean and changes no block of the flat disk. */
  lemma FlushKeeps<B>(raw: seq<B>, regions: map<int, CacheRegion<B>>, n: nat, flat: seq<B>, k: int)
    requires Coherent(raw, regions, n) && Shows(raw, regions, n, flat) && k in regions && 0 <= k
             && k + |regions[k].data| <= |raw|
    ensures var raw' := Flushed(raw, k, regions[k].data);
            var after := regions[k := regions[k].(dirty := false)];
            Coherent(raw', after, n) && Shows(raw', after, n, flat)
  {
    var r := regions[k];
    var raw' := Flushed(raw, k, r.data);
    var after := regions[k := r.(dirty := false)];
    assert RegionOk(raw, r, k, n);
    FlushCoherent(raw, regions, n, k);
    FlushedAt(raw, k, r.data);
    hide Flushed;
    forall b: nat | b < |raw| ensures ViewAt(raw', after, n, b) == flat[b] {
      RegionBounds(b, n, |raw|);
      assert flat[b] == ViewAt(raw, regions, n, b);
      if k <= b < k + n { RegionStartIs(b, n, k); }
    }
  }

  /** Two different region boundaries are at least a region apart. */
  lemma Apart(j: nat, k: nat, n: nat)
    requires n > 0 && j % n == 0 && k % n == 0 && j != k
    ensures j + n <= k || k + n <= j
  {
    if j < k < j + n { RegionStartIs(k, n, j); RegionStartIs(k, n, k); }
    if k < j < k + n { RegionStartIs(j, n, k); RegionStartIs(j, n, j); }
  }

  /** Dropping a clean region changes no block of the flat disk. */
  lemma DropKeeps<B>(raw: seq<B>, regions: map<int, CacheRegion<B>>, n: nat, flat: seq<B>, k: int)
    requires Coherent(raw, regions, n) && Shows(raw, regions, n, flat) && k in regions && !regions[k].dirty
    ensures Coherent(raw, regions - {k}, n) && Shows(raw, regions - {k}, n, flat)
  {
    assert RegionOk(raw, regions[k], k, n);
    assert Coherent(raw, regions - {k}, n);
    forall b: nat | b < |raw| ensures ViewAt(raw, regions - {k}, n, b) == flat[b] {
      RegionBounds(b, n, |raw|);
      assert flat[b] == ViewAt(raw, regions, n, b);
    }
  }

  /** Flushing a region if it is dirty and dropping it changes no block of the flat disk. */
  lemma EvictKeeps<B>(raw: seq<B>, regions: map<int, CacheRegion<B>>, n: nat, flat: seq<B>, k: int)
    requires Coherent(raw, regions, n) && Shows(raw, regions, n, flat) && k in regions
    ensures 0 <= k && k + |regions[k].data| <= |raw|
    ensures var raw' := if regions[k].dirty then Flushed(raw, k, regions[k].data) else raw;
            Coherent(raw', regions - {k}, n) && Shows(raw', regions - {k}, n, flat)
  {
    assert RegionOk(raw, regions[k], k, n);
    if regions[k].dirty {
      FlushKeeps(raw, regions, n, flat, k);
      var after := regions[k := regions[k].(dirty := false)];
      DropKeeps(Flushed(raw, k, regions[k].data), after, n, flat, k);
      assert after - {k} == regions - {k};
    } else {
      DropKeeps(raw, regions, n, flat, k);
    }
  }

  // ---------- Which regions a request touches ----------

  /** The regions of blocks start..start + count, in the order in which a request comes to them. */
  function RegionsOf(start: nat, count: nat, n: nat): seq<int>
    requires n > 0
  {
    if count == 0 then []
    else
      var ks, k := RegionsOf(start, count - 1, n), RegionStart(start + count - 1, n);
      if ks != [] && ks[|ks| - 1] == k then ks else ks + [k]
  }

  lemma {:induction false} RegionsLast(start: nat, count: nat, n: nat)
    requires n > 0 && count > 0
    ensures var ks := RegionsOf(start, count, n); ks != [] && ks[|ks| - 1] == RegionStart(start + count - 1, n)
  {
  }

  /** One block more: it lies in the last region, or in a new one. */
  lemma RegionsNext(start: nat, i: nat, n: nat)
    requires n > 0
    ensures var b, ks := start + i, RegionsOf(start, i, n);
            && (i > 0 ==>
                  var k := RegionStart(b - 1, n);
                  ks != [] && ks[|ks| - 1] == k && (k <= b < k + n <==> RegionStart(b, n) == k))
            && RegionsOf(start, i + 1, n) ==
                 if i > 0 && RegionStart(b, n) == RegionStart(b - 1, n) then ks else ks + [RegionStart(b, n)]
  {
    if i > 0 {
      RegionsLast(start, i, n);
      SameRegion(start + i, n);
    }
    hide RegionStart;
  }

  /** A block lies in the region of the block before it, or starts a new one. */
  lemma SameRegion(b: nat, n: nat)
    requires n > 0 && b > 0
    ensures var k := RegionStart(b - 1, n); k <= b < k + n <==> RegionStart(b, n) == k
  {
    var k := RegionStart(b - 1, n);
    ModUnique(k, n, (b - 1) / n, 0);
    if k <= b < k + n {
      RegionStartIs(b, n, k);
    }
  }

  lemma RegionStartMonotone(a: nat, b: nat, n: nat)
    requires n > 0 && a <= b
    ensures RegionStart(a, n) <= RegionStart(b, n)
  {
    var s, t := RegionStart(a, n), RegionStart(b, n);
    if t < s {
      ModUnique(s, n, a / n, 0);
      RegionStartIs(b, n, s);
    }
  }

  /** Some block of the request lies in region k. */
  ghost predicate Meets(start: nat, count: nat, n: nat, k: int)
    requires n > 0
  {
    exists b: nat :: start <= b < start + count && RegionStart(b, n) == k
  }

  /** They are exactly the regions of those blocks. */
  lemma {:induction false} RegionsAre(start: nat, count: nat, n: nat, k: int)
    requires n > 0
    ensures k in RegionsOf(start, count, n) <==> Meets(start, count, n, k)
  {
    hide RegionStart;
    if count > 0 {
      RegionsAre(start, count - 1, n, k);
      var last := start + count - 1;
      if Meets(start, count - 1, n, k) {
        var b: nat :| start <= b < last && RegionStart(b, n) == k;
        assert start <= b < start + count;
      }
      if Meets(start, count, n, k) && k != RegionStart(last, n) {
        var b: nat :| start <= b < start + count && RegionStart(b, n) == k;
        assert b < last;
      }
    }
  }

  /** They come in ascending order, so each comes once. */
  lemma {:induction false} RegionsAscend(start: nat, count: nat, n: nat, i: nat, j: nat)
    requires n > 0 && i < j < |RegionsOf(start, count, n)|
    ensures RegionsOf(start, count, n)[i] < RegionsOf(start, count, n)[j]
  {
    hide RegionStart, Meets;
    var ks := RegionsOf(start, count - 1, n);
    if j < |ks| {
      RegionsAscend(start, count - 1, n, i, j);
    } else {
      if i + 1 < |ks| {
        RegionsAscend(start, count - 1, n, i, |ks| - 1);
      }
      RegionsBelow(start, count - 1, n, |ks| - 1);
    }
  }

  lemma RegionsOnce(start: nat, count: nat, n: nat)
    requires n > 0
    ensures NoRepeats(RegionsOf(start, count, n))
  {
    var ks := RegionsOf(start, count, n);
    forall i: nat, j: nat | i < j < |ks| ensures ks[i] != ks[j] {
      RegionsAscend(start, count, n, i, j);
    }
  }

  lemma RegionsBelow(start: nat, count: nat, n: nat, i: nat)
    requires n > 0 && i < |RegionsOf(start, count, n)|
    ensures RegionsOf(start, count, n)[i] <= RegionStart(start + count, n)
  {
    hide RegionStart;
    var k := RegionsOf(start, count, n)[i];
    RegionsAre(start, count, n, k);
    var b: nat :| start <= b < start + count && RegionStart(b, n) == k;
    RegionStartMonotone(b, start + count, n);
  }

  // ---------- The queue of regions to be written back ----------

  /** `invalidate_cache_region`: the region is queued unless the scan of the queue finds it. */
  ghost function Invalidated(r: Ring, k: int): (q: Ring)
    requires r.Ok()
    ensures q.Ok()
  {
    PushedElements(r, k);
    if r.Finds(k) then r else Pushed(r, k)
  }

  ghost function InvalidatedAll(r: Ring, ks: seq<int>): (q: Ring)
    requires r.Ok()
    ensures q.Ok()
  {
    if ks == [] then r else Invalidated(InvalidatedAll(r, ks[..|ks| - 1]), ks[|ks| - 1])
  }

  /** A region is queued afterwards exactly if it was, or if the scan was not misled about it. */
  lemma InvalidatedHas(r: Ring, k: int, x: int)
    requires r.Ok()
    ensures x in Invalidated(r, k).Elements() <==> x in r.Elements() || (x == k && !r.Misled(k))
  {
    PushedElements(r, k);
    FindsElements(r, k);
  }

  /** Region ks[i] is passed over: when its turn comes the scan takes a vacated slot for it. */
  ghost predicate PassedOver(r: Ring, ks: seq<int>, i: nat)
    requires r.Ok() && i < |ks|
  {
    InvalidatedAll(r, ks[..i]).Misled(ks[i])
  }

  ghost predicate QueuedAt(r: Ring, ks: seq<int>, i: nat, x: int)
    requires r.Ok()
  {
    i < |ks| && ks[i] == x && !PassedOver(r, ks, i)
  }

  lemma {:induction false} InvalidatedAllHas(r: Ring, ks: seq<int>, x: int)
    requires r.Ok()
    ensures x in InvalidatedAll(r, ks).Elements() <==> x in r.Elements() || exists i: nat :: QueuedAt(r, ks, i, x)
  {
    hide Invalidated, Ring.Misled, Ring.Elements, Ring.Ok;
    if ks != [] {
      var n := |ks| - 1;
      var front := ks[..n];
      InvalidatedAllHas(r, front, x);
      InvalidatedHas(InvalidatedAll(r, front), ks[n], x);
      forall i: nat ensures QueuedAt(r, ks, i, x) <==> QueuedAt(r, front, i, x) || (i == n && QueuedAt(r, ks, n, x)) {
        assert i < n ==> front[..i] == ks[..i] && front[i] == ks[i];
      }
      assert InvalidatedAll(r, ks) == Invalidated(InvalidatedAll(r, front), ks[n]);
      assert QueuedAt(r, ks, n, x) <==> ks[n] == x && !InvalidatedAll(r, front).Misled(ks[n]);
      if i: nat :| QueuedAt(r, front, i, x) {
        assert QueuedAt(r, ks, i, x);
      }
    } else {
      assert forall i: nat :: !QueuedAt(r, ks, i, x);
    }
  }

  /** A single region goes on an empty queue whatever its vacated slots hold. */
  lemma EmptyTakesOne(r: Ring, k: int)
    requires r.Ok() && r.size == 0
    ensures InvalidatedAll(r, [k]).Elements() == [k]
  {
    assert [k][..0] == [];
    PushedElements(r, k);
  }

  /** The dirty regions. */
  ghost function DirtyRegions<B>(regions: map<int, CacheRegion<B>>): set<int> {
    set k | k in regions && regions[k].dirty
  }

  /** Outside the dirty regions the raw disk is the flat disk. */
  lemma CleanIsRaw<B>(raw: seq<B>, regions: map<int, CacheRegion<B>>, n: nat, flat: seq<B>, b: nat)
    requires Coherent(raw, regions, n) && Shows(raw, regions, n, flat) && b < |raw|
    requires RegionStart(b, n) !in DirtyRegions(regions)
    ensures raw[b] == flat[b]
  {
    RegionBounds(b, n, |raw|);
    assert flat[b] == ViewAt(raw, regions, n, b);
    var s := RegionStart(b, n);
    if s in regions {
      assert RegionOk(raw, regions[s], s, n);
      assert raw[s..s + n][b - s] == raw[b];
    }
  }

  // ---------- The order of last use ----------

  /** Key k becomes the one most recently used. */
  function Used(order: seq<int>, k: int): seq<int> {
    if k in order then Promoted(order, k) else order + [k]
  }

  function UsedAll(order: seq<int>, ks: seq<int>): seq<int> {
    if ks == [] then order else Used(UsedAll(order, ks[..|ks| - 1]), ks[|ks| - 1])
  }

  /** The keys of the list without those of another, in their order. */
  function Others(order: seq<int>, ks: seq<int>): seq<int> {
    if ks == [] then order else Without(Others(order, ks[..|ks| - 1]), ks[|ks| - 1])
  }

  /** Different keys used one after the other are the last of the list, in that order, and the rest is as it was. */
  lemma {:induction false} UsedAllIs(order: seq<int>, ks: seq<int>)
    requires NoRepeats(order) && NoRepeats(ks)
    ensures UsedAll(order, ks) == Others(order, ks) + ks && NoRepeats(UsedAll(order, ks))
    ensures NoRepeats(Others(order, ks)) && forall x :: x in Others(order, ks) <==> x in order && x !in ks
  {
    if ks != [] {
      var front, k := ks[..|ks| - 1], ks[|ks| - 1];
      UsedAllIs(order, front);
      var o := Others(order, front);
      WithoutKeeps(o, k);
      WithoutKeeps(o + front, k);
      PromotedKeeps(o + front, k);
      WithoutConcat(o, front, k);
      assert k !in front;
      assert front + [k] == ks;
      assert Others(order, ks) + ks == Without(o, k) + front + [k];
      if k !in o {
        WithoutAbsent(o, k);
      }
    }
  }

  lemma {:induction false} WithoutConcat(a: seq<int>, b: seq<int>, k: int)
    requires k !in b
    ensures Without(a + b, k) == Without(a, k) + b
  {
    if a == [] {
      assert a + b == b;
      WithoutAbsent(b, k);
    } else {
      assert (a + b)[1..] == a[1..] + b;
      WithoutConcat(a[1..], b, k);
    }
  }

  lemma UsedNext(order: seq<int>, ks: seq<int>, k: int)
    ensures UsedAll(order, ks + [k]) == Used(UsedAll(order, ks), k)
  {
    assert (ks + [k])[..|ks|] == ks;
  }

  lemma InvalidatedNext(r: Ring, ks: seq<int>, k: int)
    requires r.Ok()
    ensures InvalidatedAll(r, ks + [k]) == Invalidated(InvalidatedAll(r, ks), k)
  {
    assert (ks + [k])[..|ks|] == ks;
  }
}
