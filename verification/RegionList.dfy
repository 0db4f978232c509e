/**
 The doubly linked region list of `kernel/memory/VMSpace.cpp`, updated in place, against the pieces of
 RegionModel.
 */
module RegionList {
  import opened RegionModel

  class Region {
    var start: int
    var size: int
    var used: bool
    var mapped: bool
    var next: Region?
    var prev: Region?

    constructor (start: int, size: int, used: bool)
      ensures this.start == start && this.size == size && this.used == used && !mapped && next == null && prev == null
    {
      this.start, this.size, this.used, this.mapped, this.next, this.prev := start, size, used, false, null, null;
    }

    function AsPiece(): Piece
      reads this
    {
      Piece(start, size, used, mapped)
    }
  }

  function NextIn(list: seq<Region>, i: nat): Region? {
    if i + 1 < |list| then list[i + 1] else null
  }

  function PrevIn(list: seq<Region>, i: nat): Region?
    requires i <= |list|
  {
    if i > 0 then list[i - 1] else null
  }

  /** The links of the i-th region of the list lead to its neighbours. */
  ghost predicate LinkedAt(list: seq<Region>, i: nat)
    requires i < |list|
    reads list[i]
  {
    list[i].next == NextIn(list, i) && list[i].prev == PrevIn(list, i)
  }

  ghost predicate NoRepeats(list: seq<Region>) {
    forall i: nat, j: nat :: i < j < |list| ==> list[i] != list[j]
  }

  /** Replacing again inside what replaced piece i. */
  lemma ReplaceInside(ps: seq<Piece>, i: nat, x: seq<Piece>, q: Piece, y: seq<Piece>, z: seq<Piece>)
    requires i < |ps|
    ensures var rs := Replace(ps, i, x + [q] + y);
            i + |x| < |rs| && rs[i + |x|] == q && Replace(rs, i + |x|, z) == Replace(ps, i, x + z + y)
  {
    var rs := Replace(ps, i, x + [q] + y);
    assert rs[..i + |x|] == ps[..i] + x;
    assert rs[i + |x| + 1..] == y + ps[i + 1..];
    assert ps[..i] + x + z + (y + ps[i + 1..]) == ps[..i] + (x + z + y) + ps[i + 1..];
  }

  lemma InsertIs(ps: seq<Piece>, i: nat, q: Piece)
    requires i < |ps|
    ensures ps[..i] + [q] + ps[i..] == Replace(ps, i, [q, ps[i]])
    ensures ps[..i + 1] + [q] + ps[i + 1..] == Replace(ps, i, [ps[i], q])
  {
  }

  lemma ReplaceAt(ps: seq<Piece>, i: nat, q: Piece)
    requires i < |ps|
    ensures |Replace(ps, i, [q])| == |ps|
    ensures forall j: nat :: j < |ps| ==> Replace(ps, i, [q])[j] == if j == i then q else ps[j]
  {
  }

  lemma ReplaceSame(ps: seq<Piece>, i: nat)
    requires i < |ps|
    ensures Replace(ps, i, [ps[i]]) == ps
  {
  }

  /** Piece i after it took in a free piece before it, or behind it. */
  function AbsorbFront(ps: seq<Piece>, i: nat): seq<Piece>
    requires i < |ps|
  {
    if i > 0 && !ps[i - 1].used then
      ps[..i - 1] + [ps[i].(start := ps[i].start - ps[i - 1].size, size := ps[i].size + ps[i - 1].size)] + ps[i + 1..]
    else ps
  }

  function AbsorbBack(ps: seq<Piece>, i: nat): seq<Piece>
    requires i < |ps|
  {
    if i + 1 < |ps| && !ps[i + 1].used then ps[..i] + [ps[i].(size := ps[i].size + ps[i + 1].size)] + ps[i + 2..]
    else ps
  }

  lemma AbsorbFrontIs(ps: seq<Piece>, i: nat)
    requires 0 < i < |ps| && !ps[i - 1].used
    ensures var qs := ps[..i - 1] + ps[i..];
            i <= |qs|
            && AbsorbFront(ps, i) ==
                 Replace(qs, i - 1,
                         [ps[i].(start := ps[i].start - ps[i - 1].size, size := ps[i].size + ps[i - 1].size)])
  {
    var qs := ps[..i - 1] + ps[i..];
    assert qs[..i - 1] == ps[..i - 1] && qs[i..] == ps[i + 1..];
  }

  lemma AbsorbBackIs(ps: seq<Piece>, i: nat)
    requires i + 1 < |ps| && !ps[i + 1].used
    ensures var qs := ps[..i + 1] + ps[i + 2..];
            i < |qs| && AbsorbBack(ps, i) == Replace(qs, i, [ps[i].(size := ps[i].size + ps[i + 1].size)])
  {
    var qs := ps[..i + 1] + ps[i + 2..];
    assert qs[..i] == ps[..i] && qs[i + 1..] == ps[i + 2..];
  }

  lemma FrontIs(a: seq<Piece>, p: Piece, b: seq<Piece>)
    ensures a != [] && !a[|a| - 1].used ==>
              var f := a[|a| - 1];
              AbsorbFront(a + [p] + b, |a|) ==
                a[..|a| - 1] + [p.(start := p.start - f.size, size := p.size + f.size)] + b
    ensures a == [] || a[|a| - 1].used ==> AbsorbFront(a + [p] + b, |a|) == a + [p] + b
  {
    var ps := a + [p] + b;
    assert ps[|a|] == p && ps[|a| + 1..] == b;
    if a != [] {
      assert ps[|a| - 1] == a[|a| - 1] && ps[..|a| - 1] == a[..|a| - 1];
    }
  }

  lemma BackIs(a: seq<Piece>, p: Piece, b: seq<Piece>)
    ensures b != [] && !b[0].used ==> AbsorbBack(a + [p] + b, |a|) == a + [p.(size := p.size + b[0].size)] + b[1..]
    ensures b == [] || b[0].used ==> AbsorbBack(a + [p] + b, |a|) == a + [p] + b
  {
    var ps := a + [p] + b;
    assert ps[|a|] == p && ps[..|a|] == a;
    if b != [] {
      assert ps[|a| + 1] == b[0] && ps[|a| + 2..] == b[1..];
    }
  }

  /** Freeing piece i, then merging it with what is before it and with what is behind it, is FreePiece. */
  lemma MergedSteps(ps: seq<Piece>, i: nat)
    requires i < |ps|
    ensures var q := AbsorbFront(Replace(ps, i, [ps[i].(used := false, mapped := false)]), i);
            First(ps, i) < |q| && AbsorbBack(q, First(ps, i)) == FreePiece(ps, i)
  {
    var p := ps[i].(used := false, mapped := false);
    var a, b := ps[..i], ps[i + 1..];
    var f := if a != [] && !a[|a| - 1].used then 1 else 0;
    var p2 := if f == 1 then p.(start := p.start - a[|a| - 1].size, size := p.size + a[|a| - 1].size) else p;
    FrontIs(a, p, b);
    assert First(ps, i) == i - f && a[..i - f] == ps[..i - f];
    assert AbsorbFront(a + [p] + b, i) == a[..i - f] + [p2] + b;
    hide AbsorbFront, AbsorbBack;
    BackIs(a[..i - f], p2, b);
    assert b != [] ==> b[0] == ps[i + 1] && b[1..] == ps[i + 2..];
  }

  lemma FirstSame(ps: seq<Piece>, i: nat, q: Piece)
    requires i < |ps|
    ensures |Replace(ps, i, [q])| == |ps| && First(Replace(ps, i, [q]), i) == First(ps, i)
  {
  }

  /** The i-th copy has the data of the i-th piece and is linked to the copies around it. */
  ghost predicate CopiedAt(copies: seq<Region>, ps: seq<Piece>, i: nat)
    requires i < |copies| == |ps|
    reads copies[i]
  {
    && copies[i].AsPiece() == ps[i] && copies[i].prev == PrevIn(copies, i)
    && (i + 1 < |copies| ==> copies[i].next == copies[i + 1])
  }

  /** Copies of the first regions of a list, of which the last still points to the original that comes next. */
  ghost predicate Copied(copies: seq<Region>, ps: seq<Piece>, next: Region?)
    reads copies
  {
    && NoRepeats(copies) && |copies| == |ps| && (forall i: nat :: i < |copies| ==> CopiedAt(copies, ps, i))
    && (copies != [] ==> copies[|copies| - 1].next == next)
  }

  /** One more copy, linked behind the last one. */
  method CloneRegion(cur: Region, prev: Region?, ghost copies: seq<Region>, ghost ps: seq<Piece>) returns (copy: Region)
    requires Copied(copies, ps, cur) && prev == PrevIn(copies, |copies|) && cur !in copies
    modifies prev
    ensures fresh(copy) && Copied(copies + [copy], ps + [cur.AsPiece()], cur.next)
  {
    copy := new Region(cur.start, cur.size, cur.used);
    copy.mapped, copy.next, copy.prev := cur.mapped, cur.next, prev;
    if prev != null {
      prev.next := copy;
    }
    forall i: nat | i < |copies| + 1 ensures CopiedAt(copies + [copy], ps + [cur.AsPiece()], i) {
      assert i < |copies| ==> old(CopiedAt(copies, ps, i)) && (i + 1 < |copies| ==> copies[i] != prev);
    }
  }

  class AddressSpace {
    const start: int
    const size: nat
    var regionMap: Region
    var used: int
    ghost var list: seq<Region>
    ghost var pieces: seq<Piece>

    ghost predicate Linked()
      reads this`regionMap, this`list, list
    {
      list != [] && regionMap == list[0] && NoRepeats(list) && forall i: nat :: i < |list| ==> LinkedAt(list, i)
    }

    /** The list is well linked and its regions are the pieces. */
    ghost predicate Chained()
      reads this`regionMap, this`list, this`pieces, list
    {
      Linked() && |pieces| == |list| && forall i: nat :: i < |list| ==> list[i].AsPiece() == pieces[i]
    }

    /** The regions tile the space, no two free ones are neighbours, and `used` is the total size of the used ones. */
    ghost predicate Valid()
      reads this, list
    {
      Chained() && Ok(pieces, start, start + size) && used == UsedTotal(pieces)
    }

    constructor (start: int, size: nat)
      ensures Valid() && fresh(list) && this.start == start && this.size == size
      ensures pieces == [Piece(start, size, false, false)] && used == 0
    {
      var r := new Region(start, size, false);
      this.start, this.size, regionMap, used := start, size, r, 0;
      list, pieces := [r], [Piece(start, size, false, false)];
      Single(Piece(start, size, false, false));
    }

    /** New bounds and state for a region of the list. */
    method Reshape(cur: Region, start: int, size: int, used: bool, mapped: bool, ghost i: nat)
      requires Chained() && i < |list| && list[i] == cur
      modifies cur, this`pieces
      ensures Chained() && pieces == Replace(old(pieces), i, [Piece(start, size, used, mapped)])
      ensures cur.AsPiece() == Piece(start, size, used, mapped)
    {
      cur.start, cur.size, cur.used, cur.mapped := start, size, used, mapped;
      assert forall j: nat :: j < |list| ==> old(LinkedAt(list, j)) ==> LinkedAt(list, j);
      assert Linked();
      hide Linked;
      assert forall j: nat :: j < |list| && j != i ==> list[j] != cur;
      ReplaceAt(pieces, i, Piece(start, size, used, mapped));
      hide Replace;
      pieces := Replace(pieces, i, [Piece(start, size, used, mapped)]);
    }

    /** Region n goes into the list before `cur`. */
    method LinkBefore(cur: Region, n: Region, ghost i: nat)
      requires Linked() && i < |list| && list[i] == cur && n !in list
      modifies this`regionMap, this`list, list, n
      ensures Linked() && list == old(list)[..i] + [n] + old(list)[i..]
      ensures forall r :: r in list ==> r.AsPiece() == old(r.AsPiece())
    {
      assert LinkedAt(list, i) && (i > 0 ==> LinkedAt(list, i - 1));
      n.next, n.prev := cur, cur.prev;
      if cur.prev != null {
        cur.prev.next := n;
      }
      cur.prev := n;
      if regionMap == cur {
        regionMap := n;
      }
      list := list[..i] + [n] + list[i..];
      forall j: nat | j < |list| ensures LinkedAt(list, j) {
        assert j < i ==> old(LinkedAt(list, j));
        assert i < j ==> old(LinkedAt(list, j - 1));
      }
    }

    /** Region n goes into the list after `cur`. */
    method LinkAfter(cur: Region, n: Region, ghost i: nat)
      requires Linked() && i < |list| && list[i] == cur && n !in list
      modifies this`list, list, n
      ensures Linked() && list == old(list)[..i + 1] + [n] + old(list)[i + 1..]
      ensures forall r :: r in list ==> r.AsPiece() == old(r.AsPiece())
    {
      assert LinkedAt(list, i) && (i + 1 < |list| ==> LinkedAt(list, i + 1));
      n.next, n.prev := cur.next, cur;
      if cur.next != null {
        cur.next.prev := n;
      }
      cur.next := n;
      list := list[..i + 1] + [n] + list[i + 1..];
      forall j: nat | j < |list| ensures LinkedAt(list, j) {
        assert j <= i ==> old(LinkedAt(list, j));
        assert i + 1 < j ==> old(LinkedAt(list, j - 1));
      }
    }

    /** The region before `cur` leaves the list. */
    method UnlinkBefore(cur: Region, ghost i: nat)
      requires Linked() && 0 < i < |list| && list[i] == cur
      modifies this`regionMap, this`list, list
      ensures Linked() && list == old(list)[..i - 1] + old(list)[i..]
      ensures forall r :: r in old(list) ==> r.AsPiece() == old(r.AsPiece())
    {
      assert LinkedAt(list, i) && LinkedAt(list, i - 1);
      var gone := cur.prev;
      cur.prev := gone.prev;
      if gone.prev != null {
        gone.prev.next := cur;
      }
      if regionMap == gone {
        regionMap := cur;
      }
      list := list[..i - 1] + list[i..];
      forall j: nat | j < |list| ensures LinkedAt(list, j) {
        assert j < i - 1 ==> old(LinkedAt(list, j));
        assert i - 1 <= j ==> old(LinkedAt(list, j + 1));
      }
    }

    /** The region after `cur` leaves the list. */
    method UnlinkAfter(cur: Region, ghost i: nat)
      requires Linked() && i + 1 < |list| && list[i] == cur
      modifies this`list, list
      ensures Linked() && list == old(list)[..i + 1] + old(list)[i + 2..]
      ensures forall r :: r in old(list) ==> r.AsPiece() == old(r.AsPiece())
    {
      assert LinkedAt(list, i) && LinkedAt(list, i + 1);
      var gone := cur.next;
      cur.next := gone.next;
      if gone.next != null {
        gone.next.prev := cur;
      }
      list := list[..i + 1] + list[i + 2..];
      forall j: nat | j < |list| ensures LinkedAt(list, j) {
        assert j <= i ==> old(LinkedAt(list, j));
        assert i < j ==> old(LinkedAt(list, j + 1));
      }
    }

    /** The new region n stands before, or behind, `cur`. */
    method InsertBefore(cur: Region, n: Region, ghost i: nat)
      requires Chained() && i < |list| && list[i] == cur && n !in list
      modifies this`regionMap, this`list, this`pieces, list, n
      ensures Chained() && list == old(list)[..i] + [n] + old(list)[i..]
      ensures pieces == Replace(old(pieces), i, [old(n.AsPiece()), old(pieces)[i]])
    {
      hide Linked;
      InsertIs(pieces, i, n.AsPiece());
      pieces := pieces[..i] + [n.AsPiece()] + pieces[i..];
      LinkBefore(cur, n, i);
    }

    method InsertAfter(cur: Region, n: Region, ghost i: nat)
      requires Chained() && i < |list| && list[i] == cur && n !in list
      modifies this`list, this`pieces, list, n
      ensures Chained() && list == old(list)[..i + 1] + [n] + old(list)[i + 1..]
      ensures pieces == Replace(old(pieces), i, [old(pieces)[i], old(n.AsPiece())])
    {
      hide Linked;
      InsertIs(pieces, i, n.AsPiece());
      pieces := pieces[..i + 1] + [n.AsPiece()] + pieces[i + 1..];
      LinkAfter(cur, n, i);
    }

    /** The region before, or behind, `cur` is gone. */
    method RemoveBefore(cur: Region, ghost i: nat)
      requires Chained() && 0 < i < |list| && list[i] == cur
      modifies this`regionMap, this`list, this`pieces, list
      ensures Chained() && list == old(list)[..i - 1] + old(list)[i..] && cur.AsPiece() == old(cur.AsPiece())
      ensures pieces == old(pieces)[..i - 1] + old(pieces)[i..]
    {
      hide Linked;
      pieces := pieces[..i - 1] + pieces[i..];
      UnlinkBefore(cur, i);
    }

    method RemoveAfter(cur: Region, ghost i: nat)
      requires Chained() && i + 1 < |list| && list[i] == cur
      modifies this`list, this`pieces, list
      ensures Chained() && list == old(list)[..i + 1] + old(list)[i + 2..] && cur.AsPiece() == old(cur.AsPiece())
      ensures pieces == old(pieces)[..i + 1] + old(pieces)[i + 2..]
    {
      hide Linked;
      pieces := pieces[..i + 1] + pieces[i + 2..];
      UnlinkAfter(cur, i);
    }

    /** The search loop of `alloc_space` and `find_free_space`. */
    method FindFit(size: nat) returns (cur: Region?, ghost i: nat)
      requires Valid()
      ensures i == FirstFit(pieces, size) && cur == if i < |list| then list[i] else null
    {
      cur, i := regionMap, 0;
      while cur != null && (cur.used || cur.size < size)
        invariant i <= |list| && cur == if i < |list| then list[i] else null
        invariant forall j: nat :: j < i ==> !pieces[j].Fits(size)
        decreases |list| - i
      {
        assert LinkedAt(list, i);
        cur, i := cur.next, i + 1;
      }
    }

    /** `find_free_space`. */
    method FindFreeSpace(size: nat) returns (found: bool, address: int)
      requires Valid()
      ensures found <==> FirstFit(pieces, size) < |pieces|
      ensures found ==> address == pieces[FirstFit(pieces, size)].start
    {
      var cur, i := FindFit(size);
      found, address := cur != null, if cur != null then cur.start else 0;
    }

    /** The first `size` bytes of a free region are taken: the whole region, or region n put before it. */
    method TakeFromFront(cur: Region, n: Region, size: nat, ghost i: nat) returns (r: Region)
      requires Chained() && i < |list| && list[i] == cur && n !in list && !n.mapped
      modifies this`regionMap, this`list, this`pieces, list, n
      ensures Chained() && pieces == Replace(old(pieces), i, TakeFront(old(pieces)[i], size))
      ensures i < |list| && list[i] == r && forall k: nat :: k < |list| ==> list[k] in old(list) || list[k] == n
    {
      hide Linked, Replace;
      ghost var ps := pieces;
      var p := cur.AsPiece();
      assert p == ps[i];
      if cur.size == size {
        r := cur;
        Reshape(cur, p.start, p.size, true, p.mapped, i);
      } else {
        r := n;
        n.start, n.size, n.used := p.start, size, true;
        ghost var a, b := n.AsPiece(), p.(start := p.start + size, size := p.size - size);
        ReplaceInside(ps, i, [a], p, [], [b]);
        assert [a] + [p] + [] == [a, p] && [a] + [b] + [] == TakeFront(p, size);
        InsertBefore(cur, n, i);
        Reshape(cur, p.start + size, p.size - size, p.used, p.mapped, i + 1);
      }
    }

    /** `alloc_space`: first fit, splitting the region if it is larger; null for ENOMEM. */
    method AllocSpace(size: nat) returns (r: Region?)
      requires Valid()
      modifies this, list
      ensures Valid() && pieces == RegionModel.AllocSpace(old(pieces), size)
      ensures r == null <==> FirstFit(old(pieces), size) == |old(pieces)|
      ensures r == null ==> unchanged(this) && unchanged(old(list))
      ensures r != null ==> list[FirstFit(old(pieces), size)] == r && used == old(used) + size
      ensures forall k: nat :: k < |list| ==> list[k] in old(list) || fresh(list[k])
    {
      hide Linked, Ok, UsedTotal, Replace;
      var n := new Region(0, 0, false);
      var cur, i := FindFit(size);
      AllocSpaceKeeps(pieces, size, start, start + this.size);
      if cur == null {
        return null;
      }
      r := TakeFromFront(cur, n, size, i);
      used := used + size;
    }

    /** The search loop of `alloc_space_at`. */
    method FindContaining(address: int) returns (cur: Region?, ghost i: nat)
      requires Valid()
      ensures i == Containing(pieces, address) && cur == if i < |list| then list[i] else null
    {
      cur, i := regionMap, 0;
      while cur != null && !(cur.start <= address && cur.start + cur.size > address)
        invariant i <= |list| && cur == if i < |list| then list[i] else null
        invariant forall j: nat :: j < i ==> !pieces[j].Contains(address)
        decreases |list| - i
      {
        assert LinkedAt(list, i);
        cur, i := cur.next, i + 1;
      }
    }

    /** A region in front of `cur` for the bytes below the address, if there are any. */
    method CutBefore(cur: Region, n: Region, address: int, ghost i: nat) returns (ghost k: nat)
      requires Chained() && i < |list| && list[i] == cur && n !in list && !n.mapped
      modifies this`regionMap, this`list, this`pieces, list, n
      ensures Chained() && i <= k < |list| && list[k] == cur
      ensures forall j: nat :: j < |list| ==> list[j] in old(list) || list[j] == n
      ensures var p := old(pieces)[i];
              var b := if p.start < address then [Piece(p.start, address - p.start, false, false)] else [];
              k == i + |b| && pieces == Replace(old(pieces), i, b + [p] + [])
    {
      hide Linked, Replace;
      ghost var p := pieces[i];
      ReplaceSame(pieces, i);
      assert [] + [p] + [] == [p];
      k := i;
      if cur.start < address {
        k := i + 1;
        n.start, n.size, n.used := cur.start, address - cur.start, false;
        assert [n.AsPiece()] + [p] + [] == [n.AsPiece(), p];
        InsertBefore(cur, n, i);
      }
    }

    /** A region behind `cur` for the bytes from `end` on, if there are any. */
    method CutAfter(cur: Region, n: Region, end: int, ghost k: nat)
      requires Chained() && k < |list| && list[k] == cur && n !in list && !n.mapped
      modifies this`list, this`pieces, list, n
      ensures Chained() && k < |list| && list[k] == cur
      ensures forall j: nat :: j < |list| ==> list[j] in old(list) || list[j] == n
      ensures var p := old(pieces)[k];
              var rest := if p.End() > end then [Piece(end, p.End() - end, false, false)] else [];
              pieces == Replace(old(pieces), k, [p] + rest)
    {
      hide Linked, Replace;
      ghost var p := pieces[k];
      ReplaceSame(pieces, k);
      assert [p] + [] == [p];
      if cur.start + cur.size > end {
        n.start, n.size, n.used := end, cur.start + cur.size - end, false;
        assert [p] + [n.AsPiece()] == [p, n.AsPiece()];
        InsertAfter(cur, n, k);
      }
    }

    /** The bytes at the address are cut out of a free region with room for them. */
    method TakeAt(cur: Region, before: Region, after: Region, size: nat, address: int, ghost i: nat)
      requires Chained() && i < |list| && list[i] == cur && before !in list && after !in list && before != after
               && !before.mapped && !after.mapped
      modifies this`regionMap, this`list, this`pieces, list, before, after
      ensures var p := old(pieces)[i];
              && Chained() && pieces == Replace(old(pieces), i, Carve(p, size, address))
              && i + Middle(p, size, address) < |list| && list[i + Middle(p, size, address)] == cur
              && cur.start == PlacedAt(p, size, address) && cur.size == size
      ensures forall k: nat :: k < |list| ==> list[k] in old(list) || list[k] == before || list[k] == after
    {
      hide Linked, Replace;
      ghost var ps := pieces;
      var p := cur.AsPiece();
      assert p == ps[i];
      if cur.size == size {
        Reshape(cur, p.start, p.size, true, p.mapped, i);
      } else {
        ghost var b := if p.start < address then [Piece(p.start, address - p.start, false, false)] else [];
        ghost var a :=
          if p.End() > address + size then [Piece(address + size, p.End() - (address + size), false, false)] else [];
        ghost var mid := p.(start := address, size := size, used := true);
        ReplaceInside(ps, i, b, p, [], [p] + a);
        assert b + ([p] + a) + [] == b + [p] + a;
        ReplaceInside(ps, i, b, p, a, [mid]);
        assert Carve(p, size, address) == b + [mid] + a;
        hide Carve;
        ghost var k := CutBefore(cur, before, address, i);
        CutAfter(cur, after, address + size, k);
        Reshape(cur, address, size, true, cur.mapped, k);
      }
    }

    lemma SameLength()
      requires Chained()
      ensures |list| == |pieces|
    {
    }

    lemma AtPiece(i: nat)
      requires Chained() && i < |list|
      ensures i < |pieces| && list[i].AsPiece() == pieces[i] && list[i] in list
    {
    }

    /** `alloc_space_at`: the region at the address, cut to size; null for ENOMEM. */
    method AllocSpaceAt(size: nat, address: int) returns (r: Region?)
      requires Valid()
      modifies this, list
      ensures Valid() && pieces == RegionModel.AllocSpaceAt(old(pieces), size, address)
      ensures var ps := old(pieces); var i := Containing(ps, address);
              && (r == null <==> i == |ps| || !Room(ps[i], size, address))
              && (r != null ==> r.start == PlacedAt(ps[i], size, address) && r.size == size && used == old(used) + size
                                && i + Middle(ps[i], size, address) < |list|
                                && list[i + Middle(ps[i], size, address)] == r)
      ensures r == null ==> unchanged(this) && unchanged(old(list))
      ensures forall k: nat :: k < |list| ==> list[k] in old(list) || fresh(list[k])
    {
      hide Carve, Ok, UsedTotal, Chained, Replace, PlacedAt, Middle;
      var before := new Region(0, 0, false);
      var after := new Region(0, 0, false);
      var cur, i := FindContaining(address);
      SameLength();
      AllocSpaceAtKeeps(pieces, size, address, start, start + this.size);
      if cur == null {
        return null;
      }
      AtPiece(i);
      if cur.used {
        return null;
      }
      if cur.size == size || cur.size - (address - cur.start) >= size {
        TakeAt(cur, before, after, size, address, i);
        used := used + size;
        r := cur;
      } else {
        r := null;
      }
    }

    /** The free region before `region` is merged into it. */
    method AbsorbPrev(region: Region, gone: int, ghost i: nat)
      requires Chained() && 0 < i < |list| && list[i] == region && !pieces[i - 1].used && gone == pieces[i - 1].size
      modifies this`regionMap, this`list, this`pieces, list
      ensures Chained() && list == old(list)[..i - 1] + old(list)[i..]
      ensures pieces == AbsorbFront(old(pieces), i)
    {
      assert list[i].AsPiece() == pieces[i];
      hide Chained, AbsorbFront, Replace;
      AbsorbFrontIs(pieces, i);
      RemoveBefore(region, i);
      Reshape(region, region.start - gone, region.size + gone, region.used, region.mapped, i - 1);
    }

    /** A free region before `region` is merged into it. */
    method MergePrev(region: Region, ghost i: nat)
      requires Chained() && i < |list| && list[i] == region
      modifies this`regionMap, this`list, this`pieces, list
      ensures Chained() && pieces == AbsorbFront(old(pieces), i)
      ensures First(old(pieces), i) < |list| && list[First(old(pieces), i)] == region
      ensures forall k: nat :: k < |list| ==> list[k] in old(list)
    {
      assert LinkedAt(list, i);
      hide Linked;
      if region.prev != null && !region.prev.used {
        assert list[i - 1].AsPiece() == pieces[i - 1];
        AbsorbPrev(region, region.prev.size, i);
      }
    }

    /** A free region behind `region` is merged into it. */
    method MergeNext(region: Region, ghost i: nat)
      requires Chained() && i < |list| && list[i] == region
      modifies this`list, this`pieces, list
      ensures Chained() && pieces == AbsorbBack(old(pieces), i)
      ensures forall k: nat :: k < |list| ==> list[k] in old(list)
    {
      assert LinkedAt(list, i);
      hide Linked, Replace;
      if region.next != null && !region.next.used {
        var gone := region.next.size;
        assert list[i + 1].AsPiece() == pieces[i + 1] && list[i].AsPiece() == pieces[i];
        hide Chained, AbsorbBack;
        AbsorbBackIs(pieces, i);
        RemoveAfter(region, i);
        Reshape(region, region.start, region.size + gone, region.used, region.mapped, i);
      }
    }

    /** A region becomes free and takes in its free neighbours. */
    method Release(region: Region, ghost i: nat)
      requires Chained() && i < |list| && list[i] == region
      modifies this`regionMap, this`list, this`pieces, list
      ensures Chained() && pieces == FreePiece(old(pieces), i)
      ensures forall k: nat :: k < |list| ==> list[k] in old(list)
    {
      ghost var ps := pieces;
      var p := region.AsPiece();
      assert p == ps[i];
      MergedSteps(ps, i);
      FirstSame(ps, i, p.(used := false, mapped := false));
      hide Chained, AbsorbFront, AbsorbBack, Replace, FreePiece, First;
      Reshape(region, p.start, p.size, false, false, i);
      MergePrev(region, i);
      MergeNext(region, First(ps, i));
    }

    /** `free_region`. */
    method FreeRegion(region: Region, ghost i: nat)
      requires Valid() && i < |list| && list[i] == region && region.used
      modifies this, list
      ensures Valid() && pieces == FreePiece(old(pieces), i) && used == old(used) - old(region.size)
      ensures forall k: nat :: k < |list| ==> list[k] in old(list)
    {
      assert region.AsPiece() == pieces[i];
      FreeKeeps(pieces, i, start, start + size);
      hide Linked, Ok, UsedTotal, FreePiece;
      used := used - region.size;
      Release(region, i);
    }

    /** A VMRegion is attached to a used region. */
    method AttachTo(r: Region, ghost i: nat)
      requires Valid() && i < |list| && list[i] == r && r.used
      modifies r, this`pieces
      ensures Valid() && pieces == Attach(old(pieces), i)
    {
      AttachKeeps(pieces, i, start, start + size);
      hide Ok, UsedTotal, Linked;
      Reshape(r, r.start, r.size, r.used, true, i);
    }

    /** `map_object`. */
    method Map(size: nat, address: int) returns (r: Region?)
      requires Valid()
      modifies this, list
      ensures Valid() && pieces == MapPiece(old(pieces), size, address)
      ensures forall k: nat :: k < |list| ==> list[k] in old(list) || fresh(list[k])
      ensures r == null <==> !MapRoom(old(pieces), size, address)
      ensures r == null ==> unchanged(this) && unchanged(old(list))
      ensures r != null ==> MappedAs(old(pieces), r, size, MapStart(old(pieces), size, address))
    {
      hide Ok, UsedTotal, Linked, Attach, RegionModel.AllocSpace, RegionModel.AllocSpaceAt, MappedAs;
      TakenAt(pieces, size, address);
      ghost var ps := pieces;
      if address != 0 {
        r := AllocSpaceAt(size, address);
        if r == null {
          return;
        }
        AttachTo(r, Containing(ps, address) + Middle(ps[Containing(ps, address)], size, address));
      } else {
        r := AllocSpace(size);
        if r == null {
          return;
        }
        AttachTo(r, FirstFit(ps, size));
      }
      MappedHere(ps, r, size, address);
    }

    /** Region r of the list is a mapping of `size` bytes at a, all of which were free among the pieces before. */
    ghost predicate MappedAs(before: seq<Piece>, r: Region, size: nat, a: int)
      reads this, list
    {
      && r in list && r.AsPiece() == Piece(a, size, true, true)
      && forall x :: a <= x < a + size ==> Gained(before, x)
    }

    /** Address x of the space was free before and is in use now. */
    ghost predicate Gained(before: seq<Piece>, x: int)
      reads this
    {
      start <= x < start + size && !InUse(before, x) && InUse(pieces, x)
    }

    lemma MappedHere(before: seq<Piece>, r: Region, size: nat, address: int)
      requires Ok(before, start, start + this.size) && MapRoom(before, size, address)
      requires Valid() && pieces == MapPiece(before, size, address)
      requires MapIndex(before, size, address) < |list| && list[MapIndex(before, size, address)] == r
      ensures MappedAs(before, r, size, MapStart(before, size, address))
    {
      hide Ok, MapPiece, MapStart, MapIndex, UsedTotal, Linked;
      MappedPiece(before, size, address);
      var k := MapIndex(before, size, address);
      assert list[k] in list && list[k].AsPiece() == pieces[k];
      var a := MapStart(before, size, address);
      forall x | a <= x < a + size ensures Gained(before, x) {
        MapTakes(before, size, address, x, start, start + this.size);
      }
    }

    /** The search of `map_stack`, from the last region back. */
    method FindLastFit(size: nat) returns (cur: Region?, ghost i: int)
      requires Valid()
      ensures i == LastFit(pieces, size) && cur == if i >= 0 then list[i] else null
      ensures cur != null ==> cur.AsPiece() == pieces[i]
    {
      cur, i := regionMap, 0;
      while cur.next != null
        invariant 0 <= i < |list| && cur == list[i]
        decreases |list| - i
      {
        assert LinkedAt(list, i);
        cur, i := cur.next, i + 1;
      }
      assert LinkedAt(list, i);
      while cur != null && (cur.used || cur.size < size)
        invariant -1 <= i < |list| && cur == if i >= 0 then list[i] else null
        invariant forall j: nat :: i < j < |list| ==> !pieces[j].Fits(size)
        decreases i
      {
        assert LinkedAt(list, i);
        cur, i := cur.prev, i - 1;
      }
      ghost var l := LastFit(pieces, size);
      assert l >= 0 ==> pieces[l].Fits(size);
    }

    lemma StackFacts(size: nat)
      requires Valid()
      ensures LastFit(pieces, size) < 0 <==> forall i: nat :: i < |pieces| ==> !pieces[i].Fits(size)
      ensures var l := LastFit(pieces, size);
              && (l < 0 ==> Step(pieces, SpaceOp.MapStack(size)) == pieces)
              && (l >= 0 ==>
                    && Step(pieces, SpaceOp.MapStack(size)) == MapPiece(pieces, size, pieces[l].End() - size)
                    && (size > 0 ==> MapRoom(pieces, size, pieces[l].End() - size)))
    {
      hide MapPiece, MapStart;
      if size > 0 && LastFit(pieces, size) >= 0 {
        StackRoom(pieces, size, start, start + this.size);
      }
    }

    /**
     `map_stack`. Its second loop reads through the pointer before testing it, so when no region fits
     it faults (`crashed`) and never returns ENOMEM.
     */
    method MapStack(size: nat) returns (crashed: bool, r: Region?)
      requires Valid()
      modifies this, list
      ensures Valid() && pieces == Step(old(pieces), SpaceOp.MapStack(size))
      ensures crashed <==> forall i: nat :: i < |old(pieces)| ==> !old(pieces)[i].Fits(size)
      ensures r == null ==> unchanged(this) && unchanged(old(list))
      ensures crashed ==> r == null
      ensures !crashed ==>
                var ps := old(pieces);
                && LastFit(ps, size) >= 0 && (size > 0 ==> r != null)
                && var a := ps[LastFit(ps, size)].End() - size;
                && (r == null <==> !MapRoom(ps, size, a))
                && (r != null ==> MappedAs(ps, r, size, MapStart(ps, size, a)))
      ensures forall k: nat :: k < |list| ==> list[k] in old(list) || fresh(list[k])
    {
      StackFacts(size);
      hide Valid, Step, MapRoom, MapStart, MappedAs, LastFit;
      var cur, i := FindLastFit(size);
      if cur == null {
        return true, null;
      }
      crashed := false;
      r := Map(size, cur.start + cur.size - size);
    }

    /** `unmap_region`, by address. */
    method Unmap(address: int) returns (ok: bool)
      requires Valid()
      modifies this, list
      ensures Valid() && pieces == Step(old(pieces), SpaceOp.Unmap(address))
      ensures var i := StartingAt(old(pieces), address); ok <==> i < |old(pieces)| && old(pieces)[i].mapped
      ensures !ok ==> unchanged(this) && unchanged(old(list))
      ensures forall k: nat :: k < |list| ==> list[k] in old(list)
    {
      var cur, i := FindStart(address);
      hide Ok, UsedTotal, Linked, FreePiece;
      if cur == null {
        return false;
      }
      assert pieces[i] == cur.AsPiece();
      if !cur.mapped {
        return false;
      }
      MappedUsed(pieces, i, start, start + size);
      FreeRegion(cur, i);
      ok := true;
    }

    method FindStart(address: int) returns (cur: Region?, ghost i: nat)
      requires Valid()
      ensures i == StartingAt(pieces, address) && cur == if i < |list| then list[i] else null
    {
      cur, i := regionMap, 0;
      while cur != null && cur.start != address
        invariant i <= |list| && cur == if i < |list| then list[i] else null
        invariant forall j: nat :: j < i ==> pieces[j].start != address
        decreases |list| - i
      {
        assert LinkedAt(list, i);
        cur, i := cur.next, i + 1;
      }
    }

    /** The list of regions that `fork` builds for the child: the same pieces and used count, linked anew. */
    method CloneList() returns (child: AddressSpace)
      requires Valid()
      ensures fresh(child) && fresh(child.list) && child.Valid()
      ensures child.start == start && child.size == size && child.pieces == pieces && child.used == used
    {
      hide Ok, UsedTotal, CopiedAt;
      child := new AddressSpace(start, size);
      child.used := used;
      var cur: Region?, prev: Region? := regionMap, null;
      ghost var copies: seq<Region>, i := [], 0;
      while cur != null
        invariant i <= |list| && cur == (if i < |list| then list[i] else null) && |copies| == i
        invariant Copied(copies, pieces[..i], cur) && prev == PrevIn(copies, i) && fresh(copies)
        invariant fresh(child) && child.used == used && (i > 0 ==> child.regionMap == copies[0])
        decreases |list| - i
      {
        assert LinkedAt(list, i) && list[i].AsPiece() == pieces[i];
        assert pieces[..i + 1] == pieces[..i] + [pieces[i]];
        var copy := CloneRegion(cur, prev, copies, pieces[..i]);
        if cur == regionMap {
          child.regionMap := copy;
        }
        copies, prev := copies + [copy], copy;
        cur, i := cur.next, i + 1;
      }
      assert pieces[..i] == pieces;
      child.list, child.pieces := copies, pieces;
      child.CopiedIsChained(copies, pieces);
    }

    lemma CopiedIsChained(copies: seq<Region>, ps: seq<Piece>)
      requires Copied(copies, ps, null) && copies != [] && list == copies && pieces == ps && regionMap == copies[0]
      ensures Chained()
    {
      forall j: nat | j < |list| ensures LinkedAt(list, j) && list[j].AsPiece() == pieces[j] {
        assert CopiedAt(copies, ps, j);
      }
    }

    method Perform(op: SpaceOp)
      requires Valid()
      modifies this, list
      ensures Valid() && pieces == Step(old(pieces), op)
      ensures forall k: nat :: k < |list| ==> list[k] in old(list) || fresh(list[k])
    {
      match op
      case MapObject(size, address) => var r := Map(size, address);
      case MapStack(size) => var crashed, r := MapStack(size);
      case Reserve(size, address) => var r := AllocSpaceAt(size, address);
      case Unmap(address) => var ok := Unmap(address);
    }

    /** Any run keeps the list an exact tiling with exact links and an exact count of used bytes. */
    method Run(ops: seq<SpaceOp>)
      requires Valid()
      modifies this, list
      ensures Valid() && pieces == Steps(old(pieces), ops)
      ensures forall k: nat :: k < |list| ==> list[k] in old(list) || fresh(list[k])
    {
      hide Valid, Step;
      for n := 0 to |ops|
        invariant Valid() && pieces == Steps(old(pieces), ops[..n])
        invariant forall k: nat :: k < |list| ==> list[k] in old(list) || fresh(list[k])
      {
        Perform(ops[n]);
        assert ops[..n + 1][..n] == ops[..n];
      }
      assert ops[..|ops|] == ops;
    }
  }
}
