/**
 The region list of an address space as a sequence of pieces: what the allocation and release steps of
 `kernel/memory/VMSpace.cpp` do to it, and what they keep.
 */
module RegionModel {

  /** One `VMSpaceRegion`; `mapped` says that a VMRegion is attached. */
  datatype Piece = Piece(start: int, size: int, used: bool, mapped: bool) {
    function End(): int { start + size }
    predicate Contains(address: int) { start <= address < End() }
    predicate Fits(n: int) { !used && size >= n }
  }

  // ---------- What every list satisfies ----------

  /** The pieces cover lo..hi from left to right without gaps or overlaps. */
  predicate Tiles(ps: seq<Piece>, lo: int, hi: int) {
    if ps == [] then lo == hi
    else ps[0].start == lo && ps[0].size >= 0 && Tiles(ps[1..], ps[0].End(), hi)
  }

  predicate NoFreePair(ps: seq<Piece>) {
    forall i: nat, j: nat :: i + 1 == j < |ps| ==> ps[i].used || ps[j].used
  }

  predicate FreeUnmapped(ps: seq<Piece>) {
    forall i: nat :: i < |ps| ==> ps[i].mapped ==> ps[i].used
  }

  predicate Ok(ps: seq<Piece>, lo: int, hi: int) {
    ps != [] && Tiles(ps, lo, hi) && NoFreePair(ps) && FreeUnmapped(ps)
  }

  /** The bytes in used pieces. */
  function UsedTotal(ps: seq<Piece>): int {
    if ps == [] then 0 else (if ps[0].used then ps[0].size else 0) + UsedTotal(ps[1..])
  }

  lemma {:induction false} TilesConcat(a: seq<Piece>, b: seq<Piece>, lo: int, mid: int, hi: int)
    requires Tiles(a, lo, mid) && Tiles(b, mid, hi)
    ensures Tiles(a + b, lo, hi)
  {
    if a == [] {
      assert a + b == b;
    } else {
      TilesConcat(a[1..], b, a[0].End(), mid, hi);
      assert (a + b)[1..] == a[1..] + b;
    }
  }

  /** A tiling cut anywhere is two tilings. */
  lemma {:induction false} TilesSplit(ps: seq<Piece>, i: nat, lo: int, hi: int)
    requires Tiles(ps, lo, hi) && i < |ps|
    ensures Tiles(ps[..i], lo, ps[i].start) && Tiles(ps[i + 1..], ps[i].End(), hi) && ps[i].size >= 0
    ensures lo <= ps[i].start && ps[i].End() <= hi
  {
    if i > 0 {
      TilesSplit(ps[1..], i - 1, ps[0].End(), hi);
      assert ps[..i][1..] == ps[1..][..i - 1];
      assert ps[i + 1..] == ps[1..][i..];
    } else {
      TilesOrdered(ps[1..], ps[0].End(), hi);
    }
  }

  lemma {:induction false} TilesOrdered(ps: seq<Piece>, lo: int, hi: int)
    requires Tiles(ps, lo, hi)
    ensures lo <= hi
  {
    if ps != [] {
      TilesOrdered(ps[1..], ps[0].End(), hi);
    }
  }

  lemma {:induction false} UsedConcat(a: seq<Piece>, b: seq<Piece>)
    ensures UsedTotal(a + b) == UsedTotal(a) + UsedTotal(b)
  {
    if a == [] {
      assert a + b == b;
    } else {
      UsedConcat(a[1..], b);
      assert (a + b)[1..] == a[1..] + b;
    }
  }

  lemma Single(p: Piece)
    ensures UsedTotal([p]) == if p.used then p.size else 0
    ensures p.size >= 0 ==> Tiles([p], p.start, p.End())
  {
    assert [p][1..] == [];
  }

  // ---------- Replacing one piece ----------

  function Replace(ps: seq<Piece>, i: nat, parts: seq<Piece>): seq<Piece>
    requires i < |ps|
  {
    ps[..i] + parts + ps[i + 1..]
  }

  /** Replacing a piece by a tiling of its range: a free end of the new pieces must not touch a free neighbour. */
  lemma ReplaceOk(ps: seq<Piece>, i: nat, parts: seq<Piece>, lo: int, hi: int)
    requires Ok(ps, lo, hi) && i < |ps|
    requires parts != [] && Tiles(parts, ps[i].start, ps[i].End()) && NoFreePair(parts) && FreeUnmapped(parts)
    requires i > 0 && !ps[i - 1].used ==> parts[0].used
    requires i + 1 < |ps| && !ps[i + 1].used ==> parts[|parts| - 1].used
    ensures Ok(Replace(ps, i, parts), lo, hi)
    ensures UsedTotal(Replace(ps, i, parts)) == UsedTotal(ps) - UsedTotal([ps[i]]) + UsedTotal(parts)
  {
    hide Tiles, UsedTotal;
    TilesSplit(ps, i, lo, hi);
    CutAt(ps, i);
    TilesConcat(ps[..i], parts, lo, ps[i].start, ps[i].End());
    TilesConcat(ps[..i] + parts, ps[i + 1..], lo, ps[i].End(), hi);
    UsedConcat(ps[..i], parts);
    UsedConcat(ps[..i] + parts, ps[i + 1..]);
    UsedConcat(ps[..i], [ps[i]]);
    UsedConcat(ps[..i] + [ps[i]], ps[i + 1..]);
    ReplaceEdges(ps, i, parts);
    hide NoFreePair, FreeUnmapped;
  }

  lemma ReplaceEdges(ps: seq<Piece>, i: nat, parts: seq<Piece>)
    requires NoFreePair(ps) && FreeUnmapped(ps) && i < |ps| && parts != [] && NoFreePair(parts) && FreeUnmapped(parts)
    requires i > 0 && !ps[i - 1].used ==> parts[0].used
    requires i + 1 < |ps| && !ps[i + 1].used ==> parts[|parts| - 1].used
    ensures NoFreePair(Replace(ps, i, parts)) && FreeUnmapped(Replace(ps, i, parts))
  {
  }

  // ---------- Allocation ----------

  /** The first free piece of at least `size` bytes. */
  function FirstFit(ps: seq<Piece>, size: int): (i: nat)
    ensures i <= |ps| && (i < |ps| ==> ps[i].Fits(size)) && forall j: nat :: j < i ==> !ps[j].Fits(size)
  {
    if ps == [] then 0
    else if ps[0].Fits(size) then 0
    else
      var k := FirstFit(ps[1..], size);
      assert forall j: nat :: 0 < j < k + 1 ==> ps[j] == ps[1..][j - 1];
      k + 1
  }

  /** A free piece after its first `size` bytes were taken. */
  function TakeFront(p: Piece, size: int): seq<Piece> {
    if p.size == size then [p.(used := true)]
    else [Piece(p.start, size, true, false), p.(start := p.start + size, size := p.size - size)]
  }

  /** `alloc_space`; no free piece fits: nothing changes. */
  function AllocSpace(ps: seq<Piece>, size: int): seq<Piece> {
    var i := FirstFit(ps, size);
    if i == |ps| then ps else Replace(ps, i, TakeFront(ps[i], size))
  }

  /** The piece that contains the address. */
  function Containing(ps: seq<Piece>, address: int): (i: nat)
    ensures i <= |ps| && (i < |ps| ==> ps[i].Contains(address)) && forall j: nat :: j < i ==> !ps[j].Contains(address)
  {
    if ps == [] then 0
    else if ps[0].Contains(address) then 0
    else
      var k := Containing(ps[1..], address);
      assert forall j: nat :: 0 < j < k + 1 ==> ps[j] == ps[1..][j - 1];
      k + 1
  }

  /** A free piece of exactly `size` bytes is taken whole, wherever the address lies in it. */
  predicate Room(p: Piece, size: int, address: int) {
    !p.used && (p.size == size || p.size - (address - p.start) >= size)
  }

  function Carve(p: Piece, size: int, address: int): seq<Piece> {
    if p.size == size then [p.(used := true)]
    else
      (if p.start < address then [Piece(p.start, address - p.start, false, false)] else [])
      + [p.(start := address, size := size, used := true)]
      + (if p.End() > address + size then [Piece(address + size, p.End() - (address + size), false, false)] else [])
  }

  /** `alloc_space_at`; no room at the address: nothing changes. */
  function AllocSpaceAt(ps: seq<Piece>, size: int, address: int): seq<Piece> {
    var i := Containing(ps, address);
    if i == |ps| || !Room(ps[i], size, address) then ps else Replace(ps, i, Carve(ps[i], size, address))
  }

  lemma TakeFrontTiles(p: Piece, size: nat)
    requires p.Fits(size) && !p.mapped
    ensures var parts := TakeFront(p, size);
            parts != [] && Tiles(parts, p.start, p.End()) && NoFreePair(parts) && FreeUnmapped(parts)
            && UsedTotal(parts) == size
  {
    var parts := TakeFront(p, size);
    Single(parts[|parts| - 1]);
    assert |parts| == 2 ==> parts[1..] == [parts[1]];
  }

  lemma AllocSpaceKeeps(ps: seq<Piece>, size: nat, lo: int, hi: int)
    requires Ok(ps, lo, hi)
    ensures Ok(AllocSpace(ps, size), lo, hi)
    ensures UsedTotal(AllocSpace(ps, size)) == UsedTotal(ps) + if FirstFit(ps, size) < |ps| then size else 0
  {
    var i := FirstFit(ps, size);
    if i < |ps| {
      TilesSplit(ps, i, lo, hi);
      TakeFrontTiles(ps[i], size);
      ReplaceOk(ps, i, TakeFront(ps[i], size), lo, hi);
      Single(ps[i]);
    }
  }

  lemma CarveTiles(p: Piece, size: nat, address: int)
    requires p.Contains(address) && Room(p, size, address) && !p.mapped
    ensures var parts := Carve(p, size, address);
            parts != [] && Tiles(parts, p.start, p.End()) && NoFreePair(parts) && FreeUnmapped(parts)
            && UsedTotal(parts) == size
  {
    if p.size != size {
      var mid := p.(start := address, size := size, used := true);
      var a := if p.start < address then [Piece(p.start, address - p.start, false, false)] else [];
      var b := if p.End() > address + size then [Piece(address + size, p.End() - (address + size), false, false)]
               else [];
      if a != [] { Single(a[0]); }
      if b != [] { Single(b[0]); }
      Single(mid);
      TilesConcat(a, [mid], p.start, address, address + size);
      TilesConcat(a + [mid], b, p.start, address + size, p.End());
      UsedConcat(a, [mid]);
      UsedConcat(a + [mid], b);
    }
  }

  lemma AllocSpaceAtKeeps(ps: seq<Piece>, size: nat, address: int, lo: int, hi: int)
    requires Ok(ps, lo, hi)
    ensures Ok(AllocSpaceAt(ps, size, address), lo, hi)
    ensures var i := Containing(ps, address);
            UsedTotal(AllocSpaceAt(ps, size, address)) ==
              UsedTotal(ps) + if i < |ps| && Room(ps[i], size, address) then size else 0
  {
    var i := Containing(ps, address);
    if i < |ps| && Room(ps[i], size, address) {
      CarveTiles(ps[i], size, address);
      ReplaceOk(ps, i, Carve(ps[i], size, address), lo, hi);
    }
  }

  // ---------- Release ----------

  /** The first and the last piece that `free_region` merges into piece i. */
  function First(ps: seq<Piece>, i: nat): (j: nat)
    requires i < |ps|
    ensures j <= i <= j + 1
  {
    if i > 0 && !ps[i - 1].used then i - 1 else i
  }

  function Last(ps: seq<Piece>, i: nat): (k: nat)
    requires i < |ps|
    ensures i <= k <= i + 1 && k < |ps|
  {
    if i + 1 < |ps| && !ps[i + 1].used then i + 1 else i
  }

  function Merged(ps: seq<Piece>, i: nat): Piece
    requires i < |ps|
  {
    var front := if First(ps, i) < i then ps[i - 1].size else 0;
    var back := if i < Last(ps, i) then ps[i + 1].size else 0;
    Piece(ps[i].start - front, ps[i].size + front + back, false, false)
  }

  /** `free_region` on piece i: it becomes free and takes in its free neighbours. */
  function FreePiece(ps: seq<Piece>, i: nat): seq<Piece>
    requires i < |ps|
  {
    ps[..First(ps, i)] + [Merged(ps, i)] + ps[Last(ps, i) + 1..]
  }

  lemma FreeKeeps(ps: seq<Piece>, i: nat, lo: int, hi: int)
    requires Ok(ps, lo, hi) && i < |ps| && ps[i].used
    ensures Ok(FreePiece(ps, i), lo, hi)
    ensures UsedTotal(FreePiece(ps, i)) == UsedTotal(ps) - ps[i].size
  {
    var j, m, k := First(ps, i), Merged(ps, i), Last(ps, i);
    MergeTiles(ps, j, i, k, lo, hi);
    MergeEdges(ps, j, m, k);
    hide Tiles, NoFreePair, FreeUnmapped, UsedTotal;
    TilesAround(ps[..j], m, ps[k + 1..], lo, hi);
  }

  lemma TilesAround(a: seq<Piece>, m: Piece, b: seq<Piece>, lo: int, hi: int)
    requires Tiles(a, lo, m.start) && m.size >= 0 && Tiles(b, m.End(), hi)
    ensures Tiles(a + [m] + b, lo, hi)
    ensures UsedTotal(a + [m] + b) == UsedTotal(a) + (if m.used then m.size else 0) + UsedTotal(b)
  {
    hide Tiles, UsedTotal;
    Single(m);
    TilesConcat(a, [m], lo, m.start, m.End());
    TilesConcat(a + [m], b, lo, m.End(), hi);
    UsedConcat(a, [m]);
    UsedConcat(a + [m], b);
  }

  lemma MergeEdges(ps: seq<Piece>, j: nat, m: Piece, k: nat)
    requires NoFreePair(ps) && FreeUnmapped(ps) && j <= k < |ps| && !m.mapped
    requires (j > 0 ==> ps[j - 1].used) && (k + 1 < |ps| ==> ps[k + 1].used)
    ensures NoFreePair(ps[..j] + [m] + ps[k + 1..]) && FreeUnmapped(ps[..j] + [m] + ps[k + 1..])
  {
  }

  /** Pieces j..k around the used piece i, each of its neighbours free or absent. */
  lemma MergeTiles(ps: seq<Piece>, j: nat, i: nat, k: nat, lo: int, hi: int)
    requires Tiles(ps, lo, hi) && j <= i <= k < |ps| && ps[i].used && i - 1 <= j && k <= i + 1
    requires (j < i ==> !ps[j].used) && (i < k ==> !ps[k].used)
    ensures Tiles(ps[..j], lo, ps[j].start) && Tiles(ps[k + 1..], ps[k].End(), hi)
    ensures ps[j].start <= ps[k].End()
    ensures j < i ==> ps[i].start == ps[j].End()
    ensures i < k ==> ps[k].start == ps[i].End()
    ensures UsedTotal(ps) == UsedTotal(ps[..j]) + ps[i].size + UsedTotal(ps[k + 1..])
  {
    TilesSplit(ps, i, lo, hi);
    TilesSplit(ps, j, lo, hi);
    TilesSplit(ps, k, lo, hi);
    if j < i { assert ps[j + 1..][0] == ps[i]; }
    if i < k { assert ps[i + 1..][0] == ps[k]; }
    hide Tiles, UsedTotal;
    MergeUsed(ps, j, i, k);
  }

  lemma MergeUsed(ps: seq<Piece>, j: nat, i: nat, k: nat)
    requires j <= i <= k < |ps| && ps[i].used && i - 1 <= j && k <= i + 1
    requires (j < i ==> !ps[j].used) && (i < k ==> !ps[k].used)
    ensures UsedTotal(ps) == UsedTotal(ps[..j]) + ps[i].size + UsedTotal(ps[k + 1..])
  {
    hide UsedTotal;
    CutAt(ps, i);
    UsedConcat(ps[..i], [ps[i]]);
    UsedConcat(ps[..i] + [ps[i]], ps[i + 1..]);
    Single(ps[i]);
    if j < i {
      UsedConcat(ps[..j], [ps[j]]);
      Single(ps[j]);
      assert ps[..i] == ps[..j] + [ps[j]];
    }
    if i < k {
      UsedConcat([ps[k]], ps[k + 1..]);
      Single(ps[k]);
      assert ps[i + 1..] == [ps[k]] + ps[k + 1..];
    }
  }

  // ---------- Release undoes allocation ----------

  lemma FreeUndoesAllocSpace(ps: seq<Piece>, size: nat, lo: int, hi: int)
    requires Ok(ps, lo, hi) && FirstFit(ps, size) < |ps|
    ensures FreePiece(AllocSpace(ps, size), FirstFit(ps, size)) == ps
  {
    var i := FirstFit(ps, size);
    TakeFrontTiles(ps[i], size);
    FreeUndoesReplace(ps, i, TakeFront(ps[i], size), 0);
  }

  /** Taking one used piece, with free ones at most left and right of it, out of a free piece, and putting it back. */
  lemma FreeUndoesReplace(ps: seq<Piece>, i: nat, parts: seq<Piece>, k: nat)
    requires NoFreePair(ps) && FreeUnmapped(ps) && i < |ps| && !ps[i].used
    requires k < |parts| && parts[k].used && k <= 1 && |parts| <= k + 2 && Tiles(parts, ps[i].start, ps[i].End())
    requires forall j: nat :: j < |parts| && j != k ==> !parts[j].used
    ensures FreePiece(Replace(ps, i, parts), i + k) == ps
  {
    hide NoFreePair, FreeUnmapped, Tiles, FreePiece, Merged;
    UsedAround(ps, i);
    CutAt(ps, i);
    MergedBack(parts, k, ps[i].start, ps[i].End());
    MergedInside(ps[..i], parts, ps[i + 1..], k);
  }

  lemma UsedAround(ps: seq<Piece>, i: nat)
    requires NoFreePair(ps) && FreeUnmapped(ps) && i < |ps| && !ps[i].used
    ensures (ps[..i] != [] ==> ps[..i][i - 1].used) && (ps[i + 1..] != [] ==> ps[i + 1..][0].used)
    ensures ps[i] == Piece(ps[i].start, ps[i].End() - ps[i].start, false, false)
  {
  }

  lemma CutAt(ps: seq<Piece>, i: nat)
    requires i < |ps|
    ensures ps == ps[..i] + [ps[i]] + ps[i + 1..]
  {
  }

  /** Between used pieces, a merge stays inside the pieces given. */
  lemma MergedInside(a: seq<Piece>, parts: seq<Piece>, b: seq<Piece>, k: nat)
    requires k < |parts| && k <= 1 && |parts| <= k + 2
    requires forall j: nat :: j < |parts| && j != k ==> !parts[j].used
    requires (a != [] ==> a[|a| - 1].used) && (b != [] ==> b[0].used)
    ensures FreePiece(a + parts + b, |a| + k) == a + [Merged(parts, k)] + b
  {
    var qs := a + parts + b;
    assert qs[|a| + k] == parts[k];
    assert k > 0 ==> qs[|a| + k - 1] == parts[0];
    assert k + 1 < |parts| ==> qs[|a| + k + 1] == parts[k + 1];
    assert First(qs, |a| + k) == |a| && Last(qs, |a| + k) + 1 == |a| + |parts|;
    assert qs[..|a|] == a && qs[|a| + |parts|..] == b;
  }

  lemma MergedBack(parts: seq<Piece>, k: nat, lo: int, hi: int)
    requires k < |parts| && parts[k].used && k <= 1 && |parts| <= k + 2 && Tiles(parts, lo, hi)
    requires forall j: nat :: j < |parts| && j != k ==> !parts[j].used
    ensures Merged(parts, k) == Piece(lo, hi - lo, false, false)
  {
    TilesSplit(parts, k, lo, hi);
    if k == 1 { assert parts[..1] == [parts[0]]; assert parts[..1][1..] == []; }
    if k + 1 < |parts| { assert parts[k + 1..] == [parts[k + 1]]; assert parts[k + 1..][1..] == []; }
  }

  /** Where the piece taken by `alloc_space_at` stands among those that replace piece p. */
  function Middle(p: Piece, size: int, address: int): nat {
    if p.size != size && p.start < address then 1 else 0
  }

  lemma CarveShape(p: Piece, size: nat, address: int)
    requires p.Contains(address) && Room(p, size, address)
    ensures var parts, k := Carve(p, size, address), Middle(p, size, address);
            k < |parts| <= k + 2 && parts[k].used && forall j: nat :: j < |parts| && j != k ==> !parts[j].used
  {
  }

  lemma FreeUndoesAllocSpaceAt(ps: seq<Piece>, size: nat, address: int, lo: int, hi: int)
    requires Ok(ps, lo, hi)
    requires var i := Containing(ps, address); i < |ps| && Room(ps[i], size, address)
    ensures var i := Containing(ps, address);
            FreePiece(AllocSpaceAt(ps, size, address), i + Middle(ps[i], size, address)) == ps
  {
    var i := Containing(ps, address);
    CarveTiles(ps[i], size, address);
    CarveShape(ps[i], size, address);
    hide Carve, Tiles, NoFreePair, FreeUnmapped;
    FreeUndoesReplace(ps, i, Carve(ps[i], size, address), Middle(ps[i], size, address));
  }

  // ---------- What is allocated, address by address ----------

  predicate InUse(ps: seq<Piece>, x: int) {
    ps != [] && ((ps[0].used && ps[0].Contains(x)) || InUse(ps[1..], x))
  }

  lemma {:induction false} InUseConcat(a: seq<Piece>, b: seq<Piece>, x: int)
    ensures InUse(a + b, x) <==> InUse(a, x) || InUse(b, x)
  {
    if a == [] {
      assert a + b == b;
    } else {
      InUseConcat(a[1..], b, x);
      assert (a + b)[1..] == a[1..] + b;
    }
  }

  lemma {:induction false} InUseWithin(ps: seq<Piece>, x: int, lo: int, hi: int)
    requires Tiles(ps, lo, hi) && InUse(ps, x)
    ensures lo <= x < hi
  {
    TilesOrdered(ps[1..], ps[0].End(), hi);
    if InUse(ps[1..], x) {
      InUseWithin(ps[1..], x, ps[0].End(), hi);
    }
  }

  lemma {:induction false} InUseAt(ps: seq<Piece>, i: nat, x: int)
    requires i < |ps| && ps[i].used && ps[i].Contains(x)
    ensures InUse(ps, x)
  {
    if i > 0 {
      InUseAt(ps[1..], i - 1, x);
    }
  }

  lemma InUseOne(p: Piece, x: int)
    ensures InUse([p], x) <==> p.used && p.Contains(x)
  {
    assert [p][1..] == [];
  }

  /** Replacing a piece changes what is in use only inside that piece. */
  lemma InUseReplace(ps: seq<Piece>, i: nat, parts: seq<Piece>, x: int, lo: int, hi: int)
    requires Tiles(ps, lo, hi) && i < |ps| && Tiles(parts, ps[i].start, ps[i].End())
    ensures InUse(Replace(ps, i, parts), x) <==> if ps[i].Contains(x) then InUse(parts, x) else InUse(ps, x)
    ensures ps[i].Contains(x) ==> (InUse(ps, x) <==> ps[i].used)
  {
    TilesSplit(ps, i, lo, hi);
    var a, b := ps[..i], ps[i + 1..];
    assert ps == a + [ps[i]] + b;
    InUseConcat(a + [ps[i]], b, x);
    InUseConcat(a, [ps[i]], x);
    InUseOne(ps[i], x);
    InUseConcat(a + parts, b, x);
    InUseConcat(a, parts, x);
    if InUse(a, x) { InUseWithin(a, x, lo, ps[i].start); }
    if InUse(b, x) { InUseWithin(b, x, ps[i].End(), hi); }
    if InUse(parts, x) { InUseWithin(parts, x, ps[i].start, ps[i].End()); }
  }

  /** `alloc_space` takes `size` free bytes, and only those, from the start of the first piece that fits. */
  lemma AllocSpaceTakes(ps: seq<Piece>, size: nat, x: int, lo: int, hi: int)
    requires Ok(ps, lo, hi) && FirstFit(ps, size) < |ps|
    ensures var a := ps[FirstFit(ps, size)].start;
            && lo <= a && a + size <= hi
            && (InUse(AllocSpace(ps, size), x) <==> InUse(ps, x) || a <= x < a + size)
            && (a <= x < a + size ==> !InUse(ps, x))
  {
    var i := FirstFit(ps, size);
    var parts := TakeFront(ps[i], size);
    TilesSplit(ps, i, lo, hi);
    assert |parts| == 2 ==> parts[1..] == [parts[1]];
    Single(parts[|parts| - 1]);
    InUseOne(parts[|parts| - 1], x);
    InUseReplace(ps, i, parts, x, lo, hi);
  }

  /** The address at which `alloc_space_at` places a request. */
  function PlacedAt(p: Piece, size: int, address: int): int {
    if p.size == size then p.start else address
  }

  /** It is the requested one unless the piece is exactly as large as the request and starts elsewhere. */
  lemma PlacedExactly(p: Piece, size: int, address: int)
    requires p.Contains(address) && Room(p, size, address)
    ensures PlacedAt(p, size, address) == address <==> !(p.size == size && p.start != address)
    ensures Carve(p, size, address)[Middle(p, size, address)] ==
              p.(start := PlacedAt(p, size, address), size := size, used := true)
  {
  }

  lemma CarveInUse(p: Piece, size: nat, address: int, x: int)
    requires p.Contains(address) && Room(p, size, address)
    ensures var a := PlacedAt(p, size, address); InUse(Carve(p, size, address), x) <==> a <= x < a + size
  {
    var parts := Carve(p, size, address);
    var k := Middle(p, size, address);
    assert parts == parts[..k] + [parts[k]] + parts[k + 1..];
    InUseConcat(parts[..k] + [parts[k]], parts[k + 1..], x);
    InUseConcat(parts[..k], [parts[k]], x);
    InUseOne(parts[k], x);
    if k == 1 { assert parts[..k] == [parts[0]]; InUseOne(parts[0], x); }
    if k + 1 < |parts| { assert parts[k + 1..] == [parts[k + 1]]; InUseOne(parts[k + 1], x); }
  }

  lemma AllocSpaceAtTakes(ps: seq<Piece>, size: nat, address: int, x: int, lo: int, hi: int)
    requires Ok(ps, lo, hi)
    requires var i := Containing(ps, address); i < |ps| && Room(ps[i], size, address)
    ensures var a := PlacedAt(ps[Containing(ps, address)], size, address);
            && (InUse(AllocSpaceAt(ps, size, address), x) <==> InUse(ps, x) || a <= x < a + size)
            && (a <= x < a + size ==> lo <= x < hi && !InUse(ps, x))
  {
    var i := Containing(ps, address);
    TilesSplit(ps, i, lo, hi);
    CarveTiles(ps[i], size, address);
    CarveInUse(ps[i], size, address, x);
    InUseReplace(ps, i, Carve(ps[i], size, address), x, lo, hi);
  }

  /** `free_region` gives back exactly the bytes of the region. */
  lemma FreeGives(ps: seq<Piece>, i: nat, x: int, lo: int, hi: int)
    requires Ok(ps, lo, hi) && i < |ps| && ps[i].used
    ensures InUse(FreePiece(ps, i), x) <==> InUse(ps, x) && !ps[i].Contains(x)
  {
    var j, m, k := First(ps, i), Merged(ps, i), Last(ps, i);
    InUseConcat(ps[..j] + [m], ps[k + 1..], x);
    InUseConcat(ps[..j], [m], x);
    InUseOne(m, x);
    InUseAround(ps, j, i, k, x);
    TilesSplit(ps, i, lo, hi);
    if InUse(ps[..i], x) { InUseWithin(ps[..i], x, lo, ps[i].start); }
    if InUse(ps[i + 1..], x) { InUseWithin(ps[i + 1..], x, ps[i].End(), hi); }
  }

  lemma InUseAround(ps: seq<Piece>, j: nat, i: nat, k: nat, x: int)
    requires j <= i <= k < |ps| && i - 1 <= j && k <= i + 1
    requires (j < i ==> !ps[j].used) && (i < k ==> !ps[k].used)
    ensures InUse(ps[..i], x) <==> InUse(ps[..j], x)
    ensures InUse(ps[i + 1..], x) <==> InUse(ps[k + 1..], x)
    ensures InUse(ps, x) <==> InUse(ps[..i], x) || (ps[i].used && ps[i].Contains(x)) || InUse(ps[i + 1..], x)
  {
    assert ps == ps[..i] + [ps[i]] + ps[i + 1..];
    InUseConcat(ps[..i] + [ps[i]], ps[i + 1..], x);
    InUseConcat(ps[..i], [ps[i]], x);
    InUseOne(ps[i], x);
    if j < i {
      assert ps[..i] == ps[..j] + [ps[j]];
      InUseConcat(ps[..j], [ps[j]], x);
      InUseOne(ps[j], x);
    }
    if i < k {
      assert ps[i + 1..] == [ps[k]] + ps[k + 1..];
      InUseConcat([ps[k]], ps[k + 1..], x);
      InUseOne(ps[k], x);
    }
  }

  // ---------- The choice of a piece ----------

  /** Every address of the space is in one piece. */
  lemma {:induction false} Covered(ps: seq<Piece>, x: int, lo: int, hi: int)
    requires Tiles(ps, lo, hi) && lo <= x < hi
    ensures Containing(ps, x) < |ps|
  {
    if !ps[0].Contains(x) {
      Covered(ps[1..], x, ps[0].End(), hi);
    }
  }

  lemma ContainedOnce(ps: seq<Piece>, i: nat, x: int, lo: int, hi: int)
    requires Tiles(ps, lo, hi) && i < |ps| && ps[i].Contains(x)
    ensures Containing(ps, x) == i
  {
    TilesSplit(ps, i, lo, hi);
    var j := Containing(ps, x);
    if j < i {
      assert ps[..i][j] == ps[j];
      TilesSplit(ps[..i], j, lo, ps[i].start);
    }
  }

  /**
   `find_free_space` is the start of FirstFit. Asking for the range there does what `alloc_space` does exactly when
   the piece found is not empty, which it always is for a range that is not.
   */
  lemma FoundIsAccepted(ps: seq<Piece>, size: nat, lo: int, hi: int)
    requires Ok(ps, lo, hi) && FirstFit(ps, size) < |ps|
    ensures var i := FirstFit(ps, size); var a := ps[i].start;
            && (AllocSpaceAt(ps, size, a) == AllocSpace(ps, size) <==> ps[i].size > 0)
            && (ps[i].size > 0 ==> Containing(ps, a) == i && Room(ps[i], size, a))
            && (size > 0 ==> ps[i].size > 0)
  {
    var i := FirstFit(ps, size);
    var a := ps[i].start;
    TilesSplit(ps, i, lo, hi);
    if ps[i].size > 0 {
      ContainedOnce(ps, i, a, lo, hi);
    } else {
      forall j: nat | j < i ensures ps[j].size >= 0 && ps[j].End() <= a {
        assert ps[..i][j] == ps[j];
        TilesSplit(ps[..i], j, lo, a);
      }
      EmptyNotTaken(ps, i, size, a);
    }
  }

  /** The piece that contains the address is not the empty one, which `alloc_space` marks as used. */
  lemma EmptyNotTaken(ps: seq<Piece>, i: nat, size: nat, a: int)
    requires i == FirstFit(ps, size) < |ps| && ps[i].size == 0 && ps[i].start == a
    requires forall j: nat :: j < i ==> ps[j].size >= 0 && ps[j].End() <= a
    ensures AllocSpaceAt(ps, size, a) != AllocSpace(ps, size)
  {
    var k := Containing(ps, a);
    assert AllocSpace(ps, size)[i] == ps[i].(used := true);
    assert k > i;
    assert AllocSpaceAt(ps, size, a)[i] == ps[i];
  }

  predicate NoEmptyUsed(ps: seq<Piece>) {
    forall i: nat :: i < |ps| && ps[i].used ==> ps[i].size > 0
  }

  predicate FreeRun(ps: seq<Piece>, a: int, size: int, lo: int, hi: int) {
    lo <= a && a + size <= hi && forall x :: a <= x < a + size ==> !InUse(ps, x)
  }

  /** With no empty used pieces, `alloc_space` succeeds exactly when somewhere `size` consecutive bytes are free. */
  lemma AllocSpaceComplete(ps: seq<Piece>, size: nat, lo: int, hi: int)
    requires Ok(ps, lo, hi) && NoEmptyUsed(ps) && size > 0
    ensures FirstFit(ps, size) < |ps| <==> exists a :: FreeRun(ps, a, size, lo, hi)
  {
    var i := FirstFit(ps, size);
    if i < |ps| {
      var a := ps[i].start;
      forall x | a <= x < a + size ensures !InUse(ps, x) {
        AllocSpaceTakes(ps, size, x, lo, hi);
      }
      AllocSpaceTakes(ps, size, a, lo, hi);
      assert FreeRun(ps, a, size, lo, hi);
    }
    if a :| FreeRun(ps, a, size, lo, hi) {
      RunFits(ps, a, size, lo, hi);
    }
  }

  /** A free run lies in one piece, since the pieces next to a free one are used and not empty. */
  lemma RunFits(ps: seq<Piece>, a: int, size: nat, lo: int, hi: int)
    requires Ok(ps, lo, hi) && NoEmptyUsed(ps) && size > 0 && FreeRun(ps, a, size, lo, hi)
    ensures FirstFit(ps, size) < |ps|
  {
    Covered(ps, a, lo, hi);
    var k := Containing(ps, a);
    assert !InUse(ps, a);
    if ps[k].used { InUseAt(ps, k, a); }
    var e := ps[k].End();
    TilesSplit(ps, k, lo, hi);
    assert e < a + size ==> !InUse(ps, e);
    if e < a + size {
      assert ps[k + 1..] != [] && ps[k + 1..][0] == ps[k + 1];
      assert ps[k + 1].used;
      InUseAt(ps, k + 1, e);
    }
    assert ps[k].Fits(size);
  }

  // ---------- Whole runs ----------

  datatype SpaceOp =
    | MapObject(size: nat, address: int)
    | MapStack(size: nat)
    | Reserve(size: nat, address: int)
    | Unmap(address: int)

  /** A VMRegion is attached to piece i. */
  function Attach(ps: seq<Piece>, i: nat): seq<Piece>
    requires i < |ps|
  {
    Replace(ps, i, [ps[i].(mapped := true)])
  }

  /** `map_object`: at the address, or anywhere for address 0. */
  function MapPiece(ps: seq<Piece>, size: nat, address: int): seq<Piece> {
    if address != 0 then
      var i := Containing(ps, address);
      if i == |ps| || !Room(ps[i], size, address) then ps
      else
        CarveShape(ps[i], size, address);
        Attach(AllocSpaceAt(ps, size, address), i + Middle(ps[i], size, address))
    else
      var i := FirstFit(ps, size);
      if i == |ps| then ps else Attach(AllocSpace(ps, size), i)
  }

  /** There is room for a mapping: at the address, or anywhere for address 0. */
  predicate MapRoom(ps: seq<Piece>, size: nat, address: int) {
    if address != 0 then var i := Containing(ps, address); i < |ps| && Room(ps[i], size, address)
    else FirstFit(ps, size) < |ps|
  }

  /** Where the mapping starts, and its place in the list that `map_object` leaves. */
  function MapStart(ps: seq<Piece>, size: nat, address: int): int
    requires MapRoom(ps, size, address)
  {
    if address != 0 then PlacedAt(ps[Containing(ps, address)], size, address) else ps[FirstFit(ps, size)].start
  }

  function MapIndex(ps: seq<Piece>, size: nat, address: int): nat
    requires MapRoom(ps, size, address)
  {
    if address != 0 then Containing(ps, address) + Middle(ps[Containing(ps, address)], size, address)
    else FirstFit(ps, size)
  }

  /** The last free piece of at least `size` bytes. */
  function LastFit(ps: seq<Piece>, size: int): (i: int)
    ensures -1 <= i < |ps| && (i >= 0 ==> ps[i].Fits(size)) && forall j: nat :: i < j < |ps| ==> !ps[j].Fits(size)
  {
    if ps == [] then -1
    else if ps[|ps| - 1].Fits(size) then |ps| - 1
    else LastFit(ps[..|ps| - 1], size)
  }

  function StartingAt(ps: seq<Piece>, address: int): (i: nat)
    ensures i <= |ps| && (i < |ps| ==> ps[i].start == address) && forall j: nat :: j < i ==> ps[j].start != address
  {
    if ps == [] then 0
    else if ps[0].start == address then 0
    else
      var k := StartingAt(ps[1..], address);
      assert forall j: nat :: 0 < j < k + 1 ==> ps[j] == ps[1..][j - 1];
      k + 1
  }

  function Step(ps: seq<Piece>, op: SpaceOp): seq<Piece> {
    match op
    case MapObject(size, address) => MapPiece(ps, size, address)
    case MapStack(size) =>
      var i := LastFit(ps, size);
      if i < 0 then ps else MapPiece(ps, size, ps[i].End() - size)
    case Reserve(size, address) => AllocSpaceAt(ps, size, address)
    case Unmap(address) =>
      var i := StartingAt(ps, address);
      if i < |ps| && ps[i].mapped then FreePiece(ps, i) else ps
  }

  function Steps(ps: seq<Piece>, ops: seq<SpaceOp>): seq<Piece> {
    if ops == [] then ps else Step(Steps(ps, ops[..|ops| - 1]), ops[|ops| - 1])
  }

  lemma AttachKeeps(ps: seq<Piece>, i: nat, lo: int, hi: int)
    requires Ok(ps, lo, hi) && i < |ps| && ps[i].used
    ensures Ok(Attach(ps, i), lo, hi) && UsedTotal(Attach(ps, i)) == UsedTotal(ps)
  {
    TilesSplit(ps, i, lo, hi);
    Single(ps[i]);
    Single(ps[i].(mapped := true));
    ReplaceOk(ps, i, [ps[i].(mapped := true)], lo, hi);
  }

  lemma TakenAt(ps: seq<Piece>, size: nat, address: int)
    ensures FirstFit(ps, size) < |ps| ==>
              var i := FirstFit(ps, size); i < |AllocSpace(ps, size)| && AllocSpace(ps, size)[i].used
    ensures var i := Containing(ps, address);
            i < |ps| && Room(ps[i], size, address) ==>
              var k := i + Middle(ps[i], size, address);
              k < |AllocSpaceAt(ps, size, address)| && AllocSpaceAt(ps, size, address)[k].used
  {
    var i := Containing(ps, address);
    if i < |ps| && Room(ps[i], size, address) {
      CarveShape(ps[i], size, address);
    }
  }

  lemma MapKeeps(ps: seq<Piece>, size: nat, address: int, lo: int, hi: int)
    requires Ok(ps, lo, hi)
    ensures Ok(MapPiece(ps, size, address), lo, hi)
  {
    hide Ok, Attach, AllocSpace, AllocSpaceAt, Middle, Room;
    TakenAt(ps, size, address);
    AllocSpaceKeeps(ps, size, lo, hi);
    AllocSpaceAtKeeps(ps, size, address, lo, hi);
    var i := Containing(ps, address);
    if address != 0 && i < |ps| && Room(ps[i], size, address) {
      AttachKeeps(AllocSpaceAt(ps, size, address), i + Middle(ps[i], size, address), lo, hi);
    } else if address == 0 && FirstFit(ps, size) < |ps| {
      AttachKeeps(AllocSpace(ps, size), FirstFit(ps, size), lo, hi);
    }
  }

  lemma StepKeeps(ps: seq<Piece>, op: SpaceOp, lo: int, hi: int)
    requires Ok(ps, lo, hi)
    ensures Ok(Step(ps, op), lo, hi)
  {
    hide Ok, MapPiece, AllocSpaceAt, FreePiece;
    match op
    case MapObject(size, address) => MapKeeps(ps, size, address, lo, hi);
    case MapStack(size) =>
      if LastFit(ps, size) >= 0 { MapKeeps(ps, size, ps[LastFit(ps, size)].End() - size, lo, hi); }
    case Reserve(size, address) => AllocSpaceAtKeeps(ps, size, address, lo, hi);
    case Unmap(address) =>
      var i := StartingAt(ps, address);
      if i < |ps| && ps[i].mapped {
        MappedUsed(ps, i, lo, hi);
        FreeKeeps(ps, i, lo, hi);
      }
  }

  lemma MappedUsed(ps: seq<Piece>, i: nat, lo: int, hi: int)
    requires Ok(ps, lo, hi) && i < |ps| && ps[i].mapped
    ensures ps[i].used
  {
  }

  /** Every run from one free piece keeps an exact tiling without free neighbours. */
  lemma {:induction false} StepsKeep(lo: int, hi: int, ops: seq<SpaceOp>)
    requires lo <= hi
    ensures Ok(Steps([Piece(lo, hi - lo, false, false)], ops), lo, hi)
  {
    if ops == [] {
      Single(Piece(lo, hi - lo, false, false));
    } else {
      StepsKeep(lo, hi, ops[..|ops| - 1]);
      StepKeeps(Steps([Piece(lo, hi - lo, false, false)], ops[..|ops| - 1]), ops[|ops| - 1], lo, hi);
    }
  }

  lemma AttachInUse(ps: seq<Piece>, i: nat, x: int, lo: int, hi: int)
    requires Ok(ps, lo, hi) && i < |ps|
    ensures InUse(Attach(ps, i), x) <==> InUse(ps, x)
  {
    var q := ps[i].(mapped := true);
    TilesSplit(ps, i, lo, hi);
    Single(q);
    InUseOne(q, x);
    InUseReplace(ps, i, [q], x, lo, hi);
  }

  /** A mapping puts into use exactly `size` bytes that were free, as one mapped piece. */
  lemma MapTakes(ps: seq<Piece>, size: nat, address: int, x: int, lo: int, hi: int)
    requires Ok(ps, lo, hi) && MapRoom(ps, size, address)
    ensures var a := MapStart(ps, size, address);
            && (InUse(MapPiece(ps, size, address), x) <==> InUse(ps, x) || a <= x < a + size)
            && (a <= x < a + size ==> lo <= x < hi && !InUse(ps, x))
  {
    hide Attach, InUse, Ok, Tiles, AllocSpace, AllocSpaceAt;
    TakenAt(ps, size, address);
    if address != 0 {
      var i := Containing(ps, address);
      AllocSpaceAtKeeps(ps, size, address, lo, hi);
      AllocSpaceAtTakes(ps, size, address, x, lo, hi);
      AttachInUse(AllocSpaceAt(ps, size, address), i + Middle(ps[i], size, address), x, lo, hi);
    } else {
      AllocSpaceKeeps(ps, size, lo, hi);
      AllocSpaceTakes(ps, size, x, lo, hi);
      AttachInUse(AllocSpace(ps, size), FirstFit(ps, size), x, lo, hi);
    }
  }

  lemma MappedPiece(ps: seq<Piece>, size: nat, address: int)
    requires MapRoom(ps, size, address)
    ensures var k := MapIndex(ps, size, address);
            && k < |MapPiece(ps, size, address)|
            && MapPiece(ps, size, address)[k] == Piece(MapStart(ps, size, address), size, true, true)
  {
    TakenAt(ps, size, address);
    if address != 0 {
      var p := ps[Containing(ps, address)];
      PlacedExactly(p, size, address);
      CarveShape(p, size, address);
    }
  }

  /** The end of the last piece that fits has room for a stack, unless the stack is empty. */
  lemma StackRoom(ps: seq<Piece>, size: nat, lo: int, hi: int)
    requires Ok(ps, lo, hi) && size > 0 && LastFit(ps, size) >= 0
    ensures var end := ps[LastFit(ps, size)].End();
            && FirstFit(ps, size) < |ps| && MapRoom(ps, size, end - size)
            && MapStart(ps, size, end - size) == if end != size then end - size else ps[FirstFit(ps, size)].start
  {
    var i := LastFit(ps, size);
    ContainedOnce(ps, i, ps[i].End() - size, lo, hi);
  }

  /**
   `map_stack` takes the last `size` bytes of the last piece that fits, and no others. Only when those start at
   address 0, which `map_object` takes to mean any address, does it take the front of the first piece that fits.
   */
  lemma StackAtEnd(ps: seq<Piece>, size: nat, x: int, lo: int, hi: int)
    requires Ok(ps, lo, hi) && size > 0 && LastFit(ps, size) >= 0
    ensures FirstFit(ps, size) < |ps|
    ensures var end := ps[LastFit(ps, size)].End();
            var a := if end != size then end - size else ps[FirstFit(ps, size)].start;
            && (InUse(Step(ps, MapStack(size)), x) <==> InUse(ps, x) || a <= x < a + size)
            && (a <= x < a + size ==> !InUse(ps, x))
  {
    hide InUse, MapPiece, MapStart;
    StackRoom(ps, size, lo, hi);
    MapTakes(ps, size, ps[LastFit(ps, size)].End() - size, x, lo, hi);
  }

  // ---------- Runs without empty requests ----------

  lemma AllocSpaceNoEmpty(ps: seq<Piece>, size: nat)
    requires NoEmptyUsed(ps) && size > 0
    ensures NoEmptyUsed(AllocSpace(ps, size))
  {
    var j := FirstFit(ps, size);
    if j < |ps| { NoEmptyReplace(ps, j, TakeFront(ps[j], size)); }
  }

  lemma AllocSpaceAtNoEmpty(ps: seq<Piece>, size: nat, address: int)
    requires NoEmptyUsed(ps) && size > 0
    ensures NoEmptyUsed(AllocSpaceAt(ps, size, address))
  {
    var k := Containing(ps, address);
    if k < |ps| && Room(ps[k], size, address) { NoEmptyReplace(ps, k, Carve(ps[k], size, address)); }
  }

  lemma FreeNoEmpty(ps: seq<Piece>, i: nat)
    requires NoEmptyUsed(ps) && i < |ps|
    ensures NoEmptyUsed(FreePiece(ps, i))
  {
    assert !Merged(ps, i).used;
  }

  lemma NoEmptyReplace(ps: seq<Piece>, i: nat, parts: seq<Piece>)
    requires NoEmptyUsed(ps) && NoEmptyUsed(parts) && i < |ps|
    ensures NoEmptyUsed(Replace(ps, i, parts))
  {
  }

  lemma MapNoEmpty(ps: seq<Piece>, size: nat, address: int)
    requires NoEmptyUsed(ps) && size > 0
    ensures NoEmptyUsed(MapPiece(ps, size, address))
  {
    hide NoEmptyUsed, Attach, AllocSpace, AllocSpaceAt, Middle, Room;
    TakenAt(ps, size, address);
    AllocSpaceNoEmpty(ps, size);
    AllocSpaceAtNoEmpty(ps, size, address);
    var i := Containing(ps, address);
    if address != 0 && i < |ps| && Room(ps[i], size, address) {
      AttachNoEmpty(AllocSpaceAt(ps, size, address), i + Middle(ps[i], size, address));
    } else if address == 0 && FirstFit(ps, size) < |ps| {
      AttachNoEmpty(AllocSpace(ps, size), FirstFit(ps, size));
    }
  }

  lemma AttachNoEmpty(ps: seq<Piece>, i: nat)
    requires NoEmptyUsed(ps) && i < |ps|
    ensures NoEmptyUsed(Attach(ps, i))
  {
    NoEmptyReplace(ps, i, [ps[i].(mapped := true)]);
  }

  predicate NotEmpty(op: SpaceOp) {
    match op
    case MapObject(size, _) => size > 0
    case MapStack(size) => size > 0
    case Reserve(size, _) => size > 0
    case Unmap(_) => true
  }

  lemma StepNoEmpty(ps: seq<Piece>, op: SpaceOp)
    requires NoEmptyUsed(ps) && NotEmpty(op)
    ensures NoEmptyUsed(Step(ps, op))
  {
    hide NoEmptyUsed;
    match op
    case MapObject(size, address) => MapNoEmpty(ps, size, address);
    case MapStack(size) =>
      if LastFit(ps, size) >= 0 { MapNoEmpty(ps, size, ps[LastFit(ps, size)].End() - size); }
    case Reserve(size, address) => AllocSpaceAtNoEmpty(ps, size, address);
    case Unmap(address) =>
      var i := StartingAt(ps, address);
      if i < |ps| && ps[i].mapped { FreeNoEmpty(ps, i); }
  }

  lemma {:induction false} StepsNoEmpty(lo: int, hi: int, ops: seq<SpaceOp>)
    requires forall i: nat :: i < |ops| ==> NotEmpty(ops[i])
    ensures NoEmptyUsed(Steps([Piece(lo, hi - lo, false, false)], ops))
  {
    if ops != [] {
      StepsNoEmpty(lo, hi, ops[..|ops| - 1]);
      StepNoEmpty(Steps([Piece(lo, hi - lo, false, false)], ops[..|ops| - 1]), ops[|ops| - 1]);
    }
  }

  /**
   In every list that non-empty requests can lead to, a non-empty request succeeds exactly when somewhere that many
   consecutive bytes are free.
   */
  lemma ReachableComplete(lo: int, hi: int, ops: seq<SpaceOp>, size: nat)
    requires lo <= hi && size > 0 && forall i: nat :: i < |ops| ==> NotEmpty(ops[i])
    ensures var ps := Steps([Piece(lo, hi - lo, false, false)], ops);
            FirstFit(ps, size) < |ps| <==> exists a :: FreeRun(ps, a, size, lo, hi)
  {
    StepsKeep(lo, hi, ops);
    StepsNoEmpty(lo, hi, ops);
    AllocSpaceComplete(Steps([Piece(lo, hi - lo, false, false)], ops), size, lo, hi);
  }

  // ---------- What empty requests and equal sizes lead to ----------

  lemma StepsOne(ps: seq<Piece>, op: SpaceOp)
    ensures Steps(ps, [op]) == Step(ps, op)
  {
    assert [op][..0] == [];
    assert Steps(ps, [op][..0]) == ps;
  }

  lemma StepsNext(ps: seq<Piece>, ops: seq<SpaceOp>, op: SpaceOp)
    ensures Steps(ps, ops + [op]) == Step(Steps(ps, ops), op)
  {
    assert (ops + [op])[..|ops|] == ops;
  }

  /** A request for all eight bytes of a space, at an address in its middle, is placed at the start of the space. */
  lemma Misplaced()
    ensures Steps([Piece(8, 8, false, false)], [MapObject(8, 12)]) == [Piece(8, 8, true, true)]
  {
    StepsOne([Piece(8, 8, false, false)], MapObject(8, 12));
  }

  /** Mapping nothing at 12 leaves an empty used piece between two free ones, and a run that no piece can serve. */
  lemma EmptyUsedSplitsRun()
    ensures var ps := Steps([Piece(8, 8, false, false)], [MapObject(0, 12)]);
            && ps == [Piece(8, 4, false, false), Piece(12, 0, true, true), Piece(12, 4, false, false)]
            && FreeRun(ps, 8, 8, 8, 16) && FirstFit(ps, 8) == |ps|
  {
    StepsOne([Piece(8, 8, false, false)], MapObject(0, 12));
    var a, b, c := Piece(8, 4, false, false), Piece(12, 0, true, true), Piece(12, 4, false, false);
    var ps := [a, b, c];
    assert Carve(Piece(8, 8, false, false), 0, 12) == [a, b.(mapped := false), c];
    assert Attach([a, b.(mapped := false), c], 1) == ps;
    assert ps == [a] + [b] + [c];
    forall x ensures !InUse(ps, x) {
      hide InUse;
      InUseConcat([a] + [b], [c], x);
      InUseConcat([a], [b], x);
      InUseOne(a, x);
      InUseOne(b, x);
      InUseOne(c, x);
    }
    assert !a.Fits(8) && !b.Fits(8) && !c.Fits(8);
  }

  /** Unmapping an empty region between used ones leaves an empty free piece, at whose start nothing can be had. */
  lemma FoundEmptyIsRefused()
    ensures var ps := Steps([Piece(8, 4, false, false)], [MapObject(0, 8), MapObject(4, 8), Unmap(8)]);
            && ps == [Piece(8, 0, false, false), Piece(8, 4, true, true)]
            && FirstFit(ps, 0) == 0 && AllocSpaceAt(ps, 0, ps[0].start) == ps != AllocSpace(ps, 0)
  {
    var p0 := [Piece(8, 4, false, false)];
    var e, f := Piece(8, 0, true, true), Piece(8, 4, false, false);
    StepsOne(p0, MapObject(0, 8));
    assert Carve(f, 0, 8) == [e.(mapped := false), f];
    assert Step(p0, MapObject(0, 8)) == [e, f];
    StepsNext(p0, [MapObject(0, 8)], MapObject(4, 8));
    assert [MapObject(0, 8)] + [MapObject(4, 8)] == [MapObject(0, 8), MapObject(4, 8)];
    assert [e, f][1..] == [f];
    assert Containing([f], 8) == 0;
    assert Step([e, f], MapObject(4, 8)) == [e, Piece(8, 4, true, true)];
    StepsNext(p0, [MapObject(0, 8), MapObject(4, 8)], Unmap(8));
    assert [MapObject(0, 8), MapObject(4, 8)] + [Unmap(8)] == [MapObject(0, 8), MapObject(4, 8), Unmap(8)];
    assert Step([e, Piece(8, 4, true, true)], Unmap(8)) == [Piece(8, 0, false, false), Piece(8, 4, true, true)];
    var ps := [Piece(8, 0, false, false), Piece(8, 4, true, true)];
    assert ps[1..] == [Piece(8, 4, true, true)];
    assert Containing(ps[1..], 8) == 0;
  }
}
