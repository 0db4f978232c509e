/**
 Values behind the copy-on-write memory of `kernel/memory`: physical pages with their
 reference counts, objects with their page slots and CoW bits, address spaces with their
 regions and page-table entries; the invariant that ties them together, and the reference
 model in which fork copies every page at once.
 */
module CowState {

  const PAGE_SIZE: nat := 4096

  type Byte = b: int | 0 <= b < 256

  type Page = s: seq<Byte> | |s| == PAGE_SIZE witness seq(4096, _ => 0)

  function ZeroPage(): Page { seq(PAGE_SIZE, _ => 0) }

  datatype VMProt = VMProt(read: bool, write: bool, execute: bool)

  /** `pages[i]` is the physical page in slot i (0: not committed); `cow[i]` is its CoW bit. */
  datatype Object = Object(pages: seq<nat>, cow: seq<bool>)

  /** A region maps the first `size` pages of an object at virtual page `start`. */
  datatype Region = Region(start: nat, size: nat, id: nat, prot: VMProt)
  {
    predicate Contains(v: nat) { start <= v < start + size }
  }

  datatype Entry = Entry(page: nat, write: bool)

  datatype Space = Space(regions: seq<Region>, entries: map<nat, Entry>)

  /**
   The physical side: counts of the pages in use, contents of every page, the free pages, the pages whose reserved flag
   is set, and the pages right before a zone of the allocator, whose flag a request for another page may set.
   */
  datatype Memory =
    Memory(refs: map<nat, nat>, frames: map<nat, Page>, free: set<nat>, reserved: set<nat>, edges: set<nat>)
  {
    /** The pages that nobody holds and that will never be free again. */
    ghost function Leaked(): set<nat> { reserved - refs.Keys }
  }

  datatype State = State(mem: Memory, objects: seq<Object>, spaces: seq<Space>)

  // ---------- Counting the slots that hold a page ----------

  /** How many slots of one object hold page p. */
  ghost function Occurs(pages: seq<nat>, p: nat): nat {
    if pages == [] then 0
    else Occurs(pages[..|pages| - 1], p) + if pages[|pages| - 1] == p then 1 else 0
  }

  /** How many slots of all objects hold page p. */
  ghost function Holders(objects: seq<Object>, p: nat): nat {
    if objects == [] then 0
    else Holders(objects[..|objects| - 1], p) + Occurs(objects[|objects| - 1].pages, p)
  }

  lemma {:induction false} OccursUpdate(pages: seq<nat>, i: nat, x: nat, p: nat)
    requires i < |pages|
    ensures Occurs(pages[i := x], p) + (if pages[i] == p then 1 else 0) == Occurs(pages, p) + (if x == p then 1 else 0)
  {
    var n := |pages| - 1;
    if i == n {
      assert pages[i := x][..n] == pages[..n];
    } else {
      assert pages[i := x][..n] == pages[..n][i := x];
      OccursUpdate(pages[..n], i, x, p);
    }
  }

  lemma {:induction false} OccursAt(pages: seq<nat>, i: nat)
    requires i < |pages|
    ensures Occurs(pages, pages[i]) >= 1
  {
    OccursUpdate(pages, i, pages[i] + 1, pages[i]);
  }

  lemma {:induction false} OccursTwice(pages: seq<nat>, i: nat, j: nat)
    requires i < |pages| && j < |pages| && i != j && pages[i] == pages[j]
    ensures Occurs(pages, pages[i]) >= 2
  {
    OccursUpdate(pages, i, pages[i] + 1, pages[i]);
    OccursAt(pages[i := pages[i] + 1], j);
  }

  /** A page counted in an object sits in one of its slots. */
  lemma {:induction false} OccursWitness(pages: seq<nat>, p: nat) returns (i: nat)
    requires Occurs(pages, p) > 0
    ensures i < |pages| && pages[i] == p
  {
    var n := |pages| - 1;
    if pages[n] == p {
      i := n;
    } else {
      i := OccursWitness(pages[..n], p);
    }
  }

  lemma {:induction false} HoldersAppend(objects: seq<Object>, o: Object, p: nat)
    ensures Holders(objects + [o], p) == Holders(objects, p) + Occurs(o.pages, p)
  {
    assert (objects + [o])[..|objects|] == objects;
  }

  lemma {:induction false} HoldersUpdate(objects: seq<Object>, k: nat, o: Object, p: nat)
    requires k < |objects|
    ensures Holders(objects[k := o], p) + Occurs(objects[k].pages, p) == Holders(objects, p) + Occurs(o.pages, p)
  {
    var n := |objects| - 1;
    if k == n {
      assert objects[k := o][..n] == objects[..n];
    } else {
      assert objects[k := o][..n] == objects[..n][k := o];
      HoldersUpdate(objects[..n], k, o, p);
    }
  }

  /** A slot counts once; a second slot with the same page counts again. */
  lemma {:induction false} SlotCounted(objects: seq<Object>, k: nat, i: nat)
    requires k < |objects| && i < |objects[k].pages|
    ensures Holders(objects, objects[k].pages[i]) >= 1
  {
    var o := objects[k];
    HoldersUpdate(objects, k, Object([], []), o.pages[i]);
    OccursAt(o.pages, i);
  }

  lemma {:induction false} SlotCountedTwice(objects: seq<Object>, k: nat, i: nat, l: nat, j: nat)
    requires k < |objects| && i < |objects[k].pages|
    requires l < |objects| && j < |objects[l].pages|
    requires (k, i) != (l, j) && objects[k].pages[i] == objects[l].pages[j]
    ensures Holders(objects, objects[k].pages[i]) >= 2
  {
    var p := objects[k].pages[i];
    HoldersUpdate(objects, k, Object([], []), p);
    if k == l {
      OccursTwice(objects[k].pages, i, j);
    } else {
      OccursAt(objects[k].pages, i);
      SlotCounted(objects[k := Object([], [])], l, j);
    }
  }

  // ---------- The invariant ----------

  /** A page is in use exactly while some slot holds it, and its count is the number of those slots. */
  ghost predicate RefsExact(refs: map<nat, nat>, objects: seq<Object>) {
    forall p: nat :: RefExact(refs, objects, p)
  }

  ghost predicate RefExact(refs: map<nat, nat>, objects: seq<Object>, p: nat) {
    && (p in refs <==> p != 0 && Holders(objects, p) > 0)
    && (p in refs ==> refs[p] == Holders(objects, p))
  }

  /** Free, used and leaked pages partition physical memory; page 0 is never handed out. */
  ghost predicate MemoryOk(mem: Memory) {
    && mem.frames.Keys == mem.free + mem.refs.Keys + mem.reserved
    && mem.free !! mem.refs.Keys && mem.free !! mem.reserved
    && mem.reserved <= mem.edges && 0 !in mem.frames
  }

  /** A slot that is not CoW is the only holder of its page. */
  ghost predicate SlotOk(objects: seq<Object>, k: nat, i: nat)
    requires k < |objects| && i < |objects[k].pages| == |objects[k].cow|
  {
    && (objects[k].cow[i] ==> objects[k].pages[i] != 0)
    && (objects[k].pages[i] != 0 && !objects[k].cow[i] ==> Holders(objects, objects[k].pages[i]) == 1)
  }

  ghost predicate ObjectsOk(objects: seq<Object>) {
    && (forall k: nat :: k < |objects| ==> |objects[k].cow| == |objects[k].pages|)
    && (forall k: nat, i: nat :: k < |objects| && i < |objects[k].pages| ==> SlotOk(objects, k, i))
  }

  ghost predicate RegionOk(r: Region, objects: seq<Object>) {
    r.id < |objects| && r.size <= |objects[r.id].pages| && r.prot.read
  }

  /** Regions lie inside their objects, no two regions map the same object, and none overlap. */
  ghost predicate RegionsOk(objects: seq<Object>, spaces: seq<Space>) {
    InBounds(objects, spaces) && UniqueIds(spaces) && NoOverlap(spaces)
  }

  ghost predicate InBounds(objects: seq<Object>, spaces: seq<Space>) {
    forall s: nat, j: nat :: s < |spaces| && j < |spaces[s].regions| ==> RegionOk(spaces[s].regions[j], objects)
  }

  ghost predicate UniqueIds(spaces: seq<Space>) {
    forall s: nat, j: nat, s': nat, j': nat ::
      s < |spaces| && j < |spaces[s].regions| && s' < |spaces| && j' < |spaces[s'].regions| && (s, j) != (s', j') ==>
        spaces[s].regions[j].id != spaces[s'].regions[j'].id
  }

  ghost predicate NoOverlap(spaces: seq<Space>) {
    forall s: nat, j: nat, j': nat ::
      s < |spaces| && j < j' < |spaces[s].regions| ==> Disjoint(spaces[s].regions[j], spaces[s].regions[j'])
  }

  ghost predicate Disjoint(r: Region, r': Region) {
    forall v: nat :: !(r.Contains(v) && r'.Contains(v))
  }

  /** Page-table entries of region r agree with the object: right page, and writable only if not CoW. */
  ghost predicate EntryOk(e: Entry, v: nat, r: Region, o: Object)
    requires r.Contains(v) && r.size <= |o.pages| == |o.cow|
  {
    && e.page == o.pages[v - r.start] != 0
    && (e.write ==> r.prot.write && !o.cow[v - r.start])
  }

  /** The entry at v, which lies in region j, agrees with the object behind that region. */
  ghost predicate EntryIn(sp: Space, j: nat, v: nat, objects: seq<Object>)
    requires j < |sp.regions| && v in sp.entries && sp.regions[j].Contains(v)
  {
    && RegionOk(sp.regions[j], objects)
    && |objects[sp.regions[j].id].cow| == |objects[sp.regions[j].id].pages|
    && EntryOk(sp.entries[v], v, sp.regions[j], objects[sp.regions[j].id])
  }

  ghost predicate Covered(regions: seq<Region>, v: nat) {
    exists j: nat :: j < |regions| && regions[j].Contains(v)
  }

  ghost predicate SpaceOk(sp: Space, objects: seq<Object>) {
    && (forall v :: v in sp.entries ==> Covered(sp.regions, v))
    && (forall j: nat, v: nat :: j < |sp.regions| && v in sp.entries && sp.regions[j].Contains(v) ==>
         EntryIn(sp, j, v, objects))
  }

  ghost predicate SpacesOk(spaces: seq<Space>, objects: seq<Object>) {
    forall s: nat :: s < |spaces| ==> SpaceOk(spaces[s], objects)
  }

  ghost predicate Inv(st: State) {
    && MemoryOk(st.mem)
    && RefsExact(st.mem.refs, st.objects)
    && ObjectsOk(st.objects)
    && RegionsOk(st.objects, st.spaces)
    && SpacesOk(st.spaces, st.objects)
  }

  // ---------- What a program sees, and the reference model ----------

  /** The bytes behind a slot; an uncommitted slot reads as zeros. */
  function SlotBytes(mem: Memory, p: nat): Page {
    if p in mem.frames then mem.frames[p] else ZeroPage()
  }

  function ObjectBytes(mem: Memory, o: Object): seq<Page> {
    seq(|o.pages|, i requires 0 <= i < |o.pages| => SlotBytes(mem, o.pages[i]))
  }

  /** The reference model: every object owns its bytes, every space lists its regions. */
  datatype Eager = Eager(objects: seq<seq<Page>>, spaces: seq<seq<Region>>)

  function Abs(st: State): Eager {
    Eager(seq(|st.objects|, k requires 0 <= k < |st.objects| => ObjectBytes(st.mem, st.objects[k])),
          seq(|st.spaces|, s requires 0 <= s < |st.spaces| => st.spaces[s].regions))
  }
}
