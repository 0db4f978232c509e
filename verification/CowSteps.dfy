/**
 The steps the kernel takes on the copy-on-write state, each shown to keep the invariant and to
 show a program the same bytes as the reference model, in which fork copies every page at once.
 */
module CowSteps {
  import opened CowState

  // ---------- Physical pages ----------

  /** One reference fewer; with the last one the page is freed, unless its reserved flag is set. */
  function Unref(mem: Memory, p: nat): Memory
    requires p in mem.refs
  {
    if mem.refs[p] == 1 then
      mem.(refs := mem.refs - {p}, free := if p in mem.reserved then mem.free else mem.free + {p})
    else mem.(refs := mem.refs[p := if mem.refs[p] == 0 then 0 else mem.refs[p] - 1])
  }

  /** The request also wrote to page q, the one before the zone that served it, and q is in use. */
  function Mark(mem: Memory, q: nat): Memory {
    if q in mem.edges && q in mem.refs then mem.(reserved := mem.reserved + {q}) else mem
  }

  /** Page p is handed out, with one reference and its flag cleared. */
  function Handed(mem: Memory, p: nat): Memory {
    mem.(refs := mem.refs[p := 1], free := mem.free - {p}, reserved := mem.reserved - {p})
  }

  function Alloc(mem: Memory, p: nat, bytes: Page): Memory {
    Handed(mem, p).(frames := mem.frames[p := bytes])
  }

  /** The machine is the same, and what leaked stays leaked. */
  ghost predicate Later(mem: Memory, mem': Memory) {
    mem'.edges == mem.edges && mem'.frames.Keys == mem.frames.Keys && mem.Leaked() <= mem'.Leaked()
  }

  /** The counts after one more reference from every slot in `pages`. */
  ghost function RefAll(refs: map<nat, nat>, pages: seq<nat>): map<nat, nat> {
    map p | p in refs :: refs[p] + Occurs(pages, p)
  }

  /** Some 16-bit count would pass 0xFFFF if every slot in `pages` took another reference. */
  ghost predicate Overflows(refs: map<nat, nat>, pages: seq<nat>) {
    exists p :: p in refs && refs[p] <= 0xFFFF < refs[p] + Occurs(pages, p)
  }

  lemma RefNone(refs: map<nat, nat>)
    ensures RefAll(refs, []) == refs && !Overflows(refs, [])
  {
  }

  /** The counts after slot i took its reference, and whether that reference wrapped a count. */
  lemma RefNext(refs: map<nat, nat>, pages: seq<nat>, i: nat)
    requires i < |pages| && 0 !in refs && (pages[i] != 0 ==> pages[i] in refs)
    ensures var before, after := RefAll(refs, pages[..i]), RefAll(refs, pages[..i + 1]);
            && before.Keys == refs.Keys
            && after == (if pages[i] == 0 then before else before[pages[i] := before[pages[i]] + 1])
            && (Overflows(refs, pages[..i + 1]) <==>
                Overflows(refs, pages[..i]) || (pages[i] != 0 && before[pages[i]] == 0xFFFF))
  {
    assert pages[..i + 1][..i] == pages[..i];
    forall p | p in refs
      ensures Occurs(pages[..i + 1], p) == Occurs(pages[..i], p) + if p == pages[i] then 1 else 0
    {
    }
  }

  /** No count went down, and no page came or went. */
  ghost predicate Raised(refs: map<nat, nat>, refs': map<nat, nat>) {
    refs'.Keys == refs.Keys && forall p :: p in refs ==> refs[p] <= refs'[p]
  }

  /** Some count passed the largest that 16 bits can hold. */
  ghost predicate Passed(refs: map<nat, nat>, refs': map<nat, nat>) {
    exists p :: p in refs && p in refs' && refs[p] <= 0xFFFF < refs'[p]
  }

  lemma RaisedSame(refs: map<nat, nat>)
    ensures Raised(refs, refs) && !Passed(refs, refs)
  {
  }

  lemma RaisedTwice(refs: map<nat, nat>, refs': map<nat, nat>, refs'': map<nat, nat>)
    requires Raised(refs, refs') && Raised(refs', refs'')
    ensures Raised(refs, refs'') && (Passed(refs, refs'') <==> Passed(refs, refs') || Passed(refs', refs''))
  {
  }

  lemma RefAllRaises(refs: map<nat, nat>, pages: seq<nat>)
    ensures Raised(refs, RefAll(refs, pages)) && (Overflows(refs, pages) <==> Passed(refs, RefAll(refs, pages)))
  {
  }

  ghost predicate MemInv(mem: Memory, objects: seq<Object>) {
    && MemoryOk(mem)
    && RefsExact(mem.refs, objects)
    && ObjectsOk(objects)
  }

  lemma MarkKeeps(mem: Memory, objects: seq<Object>, q: nat)
    requires MemInv(mem, objects)
    ensures MemInv(Mark(mem, q), objects) && Later(mem, Mark(mem, q))
  {
  }

  function SetSlot(o: Object, i: nat, p: nat): Object
    requires i < |o.pages| == |o.cow|
  {
    Object(o.pages[i := p], o.cow[i := false])
  }

  /** How the holders of q move when slot i of object k goes from one page to another. */
  lemma SetSlotCount(objects: seq<Object>, k: nat, i: nat, p: nat, q: nat)
    requires k < |objects| && i < |objects[k].pages| == |objects[k].cow|
    ensures Holders(objects[k := SetSlot(objects[k], i, p)], q) + (if objects[k].pages[i] == q then 1 else 0)
         == Holders(objects, q) + (if p == q then 1 else 0)
  {
    HoldersUpdate(objects, k, SetSlot(objects[k], i, p), q);
    OccursUpdate(objects[k].pages, i, p, q);
  }

  /** Dropping a slot's reference keeps the counts exact; the page is freed just when it was the last. */
  lemma DropSlot(mem: Memory, objects: seq<Object>, k: nat, i: nat)
    requires MemInv(mem, objects)
    requires k < |objects| && i < |objects[k].pages| && objects[k].pages[i] != 0
    ensures objects[k].pages[i] in mem.refs && Later(mem, Unref(mem, objects[k].pages[i]))
    ensures MemInv(Unref(mem, objects[k].pages[i]), objects[k := SetSlot(objects[k], i, 0)])
  {
    var p := objects[k].pages[i];
    var objects' := objects[k := SetSlot(objects[k], i, 0)];
    SlotCounted(objects, k, i);
    assert RefExact(mem.refs, objects, p);
    forall q: nat
      ensures RefExact(Unref(mem, p).refs, objects', q)
    {
      assert RefExact(mem.refs, objects, q);
      SetSlotCount(objects, k, i, 0, q);
    }
    forall l: nat, j: nat | l < |objects'| && j < |objects'[l].pages|
      ensures SlotOk(objects', l, j)
    {
      if (l, j) != (k, i) {
        assert SlotOk(objects, l, j);
        SetSlotCount(objects, k, i, 0, objects[l].pages[j]);
        if objects[l].pages[j] == p {
          SlotCountedTwice(objects, k, i, l, j);
        }
      }
    }
  }

  /** Putting a fresh page into an empty slot keeps the counts exact. */
  lemma FillSlot(mem: Memory, objects: seq<Object>, k: nat, i: nat, p: nat, bytes: Page)
    requires MemInv(mem, objects)
    requires k < |objects| && i < |objects[k].pages| && objects[k].pages[i] == 0
    requires p in mem.free
    ensures MemInv(Alloc(mem, p, bytes), objects[k := SetSlot(objects[k], i, p)]) && Later(mem, Alloc(mem, p, bytes))
  {
    var objects' := objects[k := SetSlot(objects[k], i, p)];
    assert RefExact(mem.refs, objects, p);
    forall q: nat
      ensures RefExact(Alloc(mem, p, bytes).refs, objects', q)
    {
      assert RefExact(mem.refs, objects, q);
      SetSlotCount(objects, k, i, p, q);
    }
    forall l: nat, j: nat | l < |objects'| && j < |objects'[l].pages|
      ensures SlotOk(objects', l, j)
    {
      SetSlotCount(objects, k, i, p, objects'[l].pages[j]);
      if (l, j) != (k, i) {
        assert SlotOk(objects, l, j);
        SlotCounted(objects, l, j);
      }
    }
  }

  /** The object after every committed slot was marked CoW. */
  function CowAll(o: Object): Object {
    Object(o.pages, seq(|o.pages|, i requires 0 <= i < |o.pages| => o.pages[i] != 0))
  }

  lemma CloneCount(objects: seq<Object>, k: nat, q: nat)
    requires k < |objects|
    ensures var c := CowAll(objects[k]);
            Holders(objects[k := c] + [c], q) == Holders(objects, q) + Occurs(objects[k].pages, q)
  {
    var c := CowAll(objects[k]);
    HoldersUpdate(objects, k, c, q);
    HoldersAppend(objects[k := c], c, q);
  }

  /** Cloning: one more reference per slot, all committed slots CoW in both objects. */
  lemma CloneObject(mem: Memory, objects: seq<Object>, k: nat)
    requires MemInv(mem, objects) && k < |objects|
    ensures var c := CowAll(objects[k]);
            MemInv(mem.(refs := RefAll(mem.refs, objects[k].pages)), objects[k := c] + [c])
  {
    var c := CowAll(objects[k]);
    var objects' := objects[k := c] + [c];
    forall q: nat
      ensures RefExact(RefAll(mem.refs, objects[k].pages), objects', q)
    {
      assert RefExact(mem.refs, objects, q);
      CloneCount(objects, k, q);
      if Occurs(objects[k].pages, q) > 0 {
        var i := OccursWitness(objects[k].pages, q);
        SlotCounted(objects, k, i);
      }
    }
    forall l: nat, j: nat | l < |objects'| && j < |objects'[l].pages|
      ensures SlotOk(objects', l, j)
    {
      if l < |objects| && l != k {
        var q := objects[l].pages[j];
        assert SlotOk(objects, l, j);
        CloneCount(objects, k, q);
        if Occurs(objects[k].pages, q) > 0 {
          var i := OccursWitness(objects[k].pages, q);
          SlotCountedTwice(objects, k, i, l, j);
        }
      }
    }
  }

  // ---------- Page tables ----------

  /** What `PageDirectory::map` installs for one page: never writable while the slot is CoW. */
  function EntryFor(r: Region, o: Object, i: nat): Entry
    requires i < |o.pages| == |o.cow|
  {
    Entry(o.pages[i], if o.cow[i] then false else r.prot.write)
  }

  /** The entries after mapping pages lo..hi of region r; uncommitted pages are skipped. */
  function MapEntries(entries: map<nat, Entry>, r: Region, o: Object, lo: nat, hi: nat): map<nat, Entry>
    requires lo <= hi <= |o.pages| == |o.cow|
    decreases hi
  {
    if lo == hi then entries
    else
      var e := MapEntries(entries, r, o, lo, hi - 1);
      if o.pages[hi - 1] == 0 then e else e[r.start + hi - 1 := EntryFor(r, o, hi - 1)]
  }

  ghost predicate InRange(r: Region, o: Object, lo: nat, hi: nat, v: nat) {
    r.start + lo <= v < r.start + hi && v - r.start < |o.pages| && o.pages[v - r.start] != 0
  }

  lemma {:induction false} MapEntriesAt(entries: map<nat, Entry>, r: Region, o: Object, lo: nat, hi: nat, v: nat)
    requires lo <= hi <= |o.pages| == |o.cow|
    ensures var e := MapEntries(entries, r, o, lo, hi);
            if InRange(r, o, lo, hi, v) then v in e && e[v] == EntryFor(r, o, v - r.start)
            else (v in e <==> v in entries) && (v in e ==> e[v] == entries[v])
    decreases hi
  {
    if lo < hi {
      MapEntriesAt(entries, r, o, lo, hi - 1, v);
    }
  }

  ghost predicate SameShape(o: Object, o': Object) {
    |o.pages| == |o'.pages| && |o.cow| == |o'.cow|
  }

  /** Replacing an object by one of the same shape does not disturb spaces that do not map it. */
  lemma OtherSpace(sp: Space, objects: seq<Object>, k: nat, o: Object)
    requires SpaceOk(sp, objects) && k < |objects| && SameShape(objects[k], o)
    requires forall j: nat :: j < |sp.regions| ==> sp.regions[j].id != k
    ensures SpaceOk(sp, objects[k := o])
  {
    forall j: nat, v: nat | j < |sp.regions| && v in sp.entries && sp.regions[j].Contains(v)
      ensures EntryIn(sp, j, v, objects[k := o])
    {
      assert EntryIn(sp, j, v, objects);
    }
  }

  /**
   Slots lo..hi of the object behind region j changed and were mapped again; the others kept
   their page and did not become CoW. The page table of this space then agrees with the object.
   */
  lemma RemapOwn(sp: Space, objects: seq<Object>, j: nat, o: Object, lo: nat, hi: nat)
    requires SpaceOk(sp, objects) && j < |sp.regions| && RegionOk(sp.regions[j], objects)
    requires forall l: nat :: l < |sp.regions| && l != j ==>
               sp.regions[l].id != sp.regions[j].id && Disjoint(sp.regions[l], sp.regions[j])
    requires SameShape(objects[sp.regions[j].id], o) && |o.cow| == |o.pages|
    requires lo <= hi <= sp.regions[j].size
    requires forall i: nat :: i < sp.regions[j].size && !(lo <= i < hi) ==>
               o.pages[i] == objects[sp.regions[j].id].pages[i] && o.cow[i] == objects[sp.regions[j].id].cow[i]
    requires forall i: nat :: lo <= i < hi && o.pages[i] == 0 ==> objects[sp.regions[j].id].pages[i] == 0
    ensures SpaceOk(sp.(entries := MapEntries(sp.entries, sp.regions[j], o, lo, hi)), objects[sp.regions[j].id := o])
  {
    hide MapEntries;
    var r := sp.regions[j];
    var sp' := sp.(entries := MapEntries(sp.entries, r, o, lo, hi));
    forall v | v in sp'.entries
      ensures Covered(sp'.regions, v)
    {
      MapEntriesAt(sp.entries, r, o, lo, hi, v);
      if InRange(r, o, lo, hi, v) {
        assert sp'.regions[j].Contains(v);
      } else {
        assert Covered(sp.regions, v);
      }
    }
    forall l: nat, v: nat | l < |sp'.regions| && v in sp'.entries && sp'.regions[l].Contains(v)
      ensures EntryIn(sp', l, v, objects[r.id := o])
    {
      MapEntriesAt(sp.entries, r, o, lo, hi, v);
      assert InRange(r, o, lo, hi, v) || EntryIn(sp, l, v, objects);
    }
  }

  // ---------- Page faults ----------

  /** `VMObject::try_cow_page`: copy the old page to p, drop the old reference, use p from now on. */
  function CopySlot(mem: Memory, o: Object, i: nat, p: nat): (Memory, Object)
    requires i < |o.pages| == |o.cow| && o.pages[i] in mem.refs && p != o.pages[i]
  {
    (Unref(Alloc(mem, p, SlotBytes(mem, o.pages[i])), o.pages[i]), SetSlot(o, i, p))
  }

  lemma CopySlotKeeps(mem: Memory, objects: seq<Object>, k: nat, i: nat, p: nat)
    requires MemInv(mem, objects)
    requires k < |objects| && i < |objects[k].pages| && objects[k].pages[i] != 0 && p in mem.free
    ensures objects[k].pages[i] in mem.refs && p != objects[k].pages[i]
    ensures var (mem', o') := CopySlot(mem, objects[k], i, p);
            MemInv(mem', objects[k := o']) && SameBytes(mem, objects, mem', objects[k := o']) && Later(mem, mem')
  {
    var oldPage := objects[k].pages[i];
    DropSlot(mem, objects, k, i);
    var objects1 := objects[k := SetSlot(objects[k], i, 0)];
    FreshPage(mem, objects, p);
    DropKeepsFree(mem, oldPage, p);
    var (mem', o') := CopySlot(mem, objects[k], i, p);
    assert mem' == Alloc(Unref(mem, oldPage), p, SlotBytes(mem, oldPage));
    assert SetSlot(objects1[k], i, p) == o';
    assert objects1[k := o'] == objects[k := o'];
    hide MemInv, Unref, Alloc, Later;
    FillSlot(Unref(mem, oldPage), objects1, k, i, p, SlotBytes(mem, oldPage));
    LaterTwice(mem, Unref(mem, oldPage), mem');
  }

  lemma DropKeepsFree(mem: Memory, q: nat, p: nat)
    requires q in mem.refs && p in mem.free
    ensures p in Unref(mem, q).free && Unref(mem, q).frames == mem.frames
  {
  }

  lemma LaterSame(mem: Memory)
    ensures Later(mem, mem)
  {
  }

  lemma LaterTwice(mem: Memory, mem': Memory, mem'': Memory)
    requires Later(mem, mem') && Later(mem', mem'')
    ensures Later(mem, mem'')
  {
  }

  /** `AnonymousVMObject::try_fault_in_page`: commit an empty slot with a zeroed page. */
  lemma FaultInKeeps(mem: Memory, objects: seq<Object>, k: nat, i: nat, p: nat)
    requires MemInv(mem, objects)
    requires k < |objects| && i < |objects[k].pages| && objects[k].pages[i] == 0 && p in mem.free
    ensures var mem' := Alloc(mem, p, ZeroPage());
            var objects' := objects[k := SetSlot(objects[k], i, p)];
            MemInv(mem', objects') && SameBytes(mem, objects, mem', objects') && Later(mem, mem')
  {
    FillSlot(mem, objects, k, i, p, ZeroPage());
    FreshPage(mem, objects, p);
  }

  /** No slot holds a free page. */
  lemma FreshPage(mem: Memory, objects: seq<Object>, p: nat)
    requires MemInv(mem, objects) && p in mem.free
    ensures forall l: nat, j: nat :: l < |objects| && j < |objects[l].pages| ==> objects[l].pages[j] != p
  {
    assert RefExact(mem.refs, objects, p);
    forall l: nat, j: nat | l < |objects| && j < |objects[l].pages|
      ensures objects[l].pages[j] != p
    {
      SlotCounted(objects, l, j);
    }
  }

  /** Every slot of every object shows the same bytes before and after. */
  ghost predicate SameBytes(mem: Memory, objects: seq<Object>, mem': Memory, objects': seq<Object>) {
    && |objects| == |objects'|
    && (forall l: nat :: l < |objects| ==> |objects[l].pages| == |objects'[l].pages|)
    && (forall l: nat, j: nat :: l < |objects| && j < |objects[l].pages| ==>
          SlotBytes(mem', objects'[l].pages[j]) == SlotBytes(mem, objects[l].pages[j]))
  }

  ghost predicate HasRegion(st: State, s: nat, j: nat) {
    s < |st.spaces| && j < |st.spaces[s].regions|
  }

  /** Page i of region j was faulted in (or copied) into object o; map it. */
  function Remapped(st: State, s: nat, j: nat, i: nat, mem: Memory, o: Object): State
    requires s < |st.spaces| && j < |st.spaces[s].regions|
    requires st.spaces[s].regions[j].id < |st.objects|
    requires i < |o.pages| == |o.cow|
  {
    var sp := st.spaces[s];
    var r := sp.regions[j];
    State(mem, st.objects[r.id := o], st.spaces[s := sp.(entries := MapEntries(sp.entries, r, o, i, i + 1))])
  }

  /** Object o is object k with only slot i changed, to a committed page, and all bytes as before. */
  ghost predicate Settled(st: State, k: nat, i: nat, mem: Memory, o: Object) {
    && k < |st.objects|
    && SameShape(st.objects[k], o) && |o.pages| == |o.cow| && i < |o.pages| && o.pages[i] != 0
    && (forall l: nat :: l < |o.pages| && l != i ==>
         o.pages[l] == st.objects[k].pages[l] && o.cow[l] == st.objects[k].cow[l])
    && MemInv(mem, st.objects[k := o]) && Later(st.mem, mem)
    && SameBytes(st.mem, st.objects, mem, st.objects[k := o])
  }

  lemma RemappedKeeps(st: State, s: nat, j: nat, i: nat, mem: Memory, o: Object)
    requires Inv(st) && HasRegion(st, s, j)
    requires i < st.spaces[s].regions[j].size
    requires Settled(st, st.spaces[s].regions[j].id, i, mem, o)
    ensures Inv(Remapped(st, s, j, i, mem, o))
    ensures Abs(Remapped(st, s, j, i, mem, o)) == Abs(st)
  {
    hide MemoryOk, RefsExact, MapEntries, EntryIn, Covered;
    var r := st.spaces[s].regions[j];
    var st' := Remapped(st, s, j, i, mem, o);
    assert forall l: nat :: l < |st.spaces| ==> st'.spaces[l].regions == st.spaces[l].regions;
    RemapOwn(st.spaces[s], st.objects, j, o, i, i + 1);
    forall l: nat | l < |st.spaces|
      ensures SpaceOk(st'.spaces[l], st'.objects)
    {
      if l != s {
        OtherSpace(st.spaces[l], st.objects, r.id, o);
      }
    }
    forall l: nat | l < |st.objects|
      ensures ObjectBytes(st'.mem, st'.objects[l]) == ObjectBytes(st.mem, st.objects[l])
    {
    }
  }

  // ---------- Fork ----------

  /** The object and counts after `become_cow_and_ref_pages`, and the clone that shares its pages. */
  ghost function ClonedMem(st: State, k: nat): Memory
    requires k < |st.objects|
  {
    st.mem.(refs := RefAll(st.mem.refs, st.objects[k].pages))
  }

  /** The state after the object behind region j became CoW and the region was mapped again. */
  ghost function Protected(st: State, s: nat, j: nat): State
    requires HasRegion(st, s, j) && RegionOk(st.spaces[s].regions[j], st.objects)
  {
    var sp := st.spaces[s];
    var r := sp.regions[j];
    var o := CowAll(st.objects[r.id]);
    State(ClonedMem(st, r.id), st.objects[r.id := o],
          st.spaces[s := sp.(entries := MapEntries(sp.entries, r, o, 0, r.size))])
  }

  /** Object o was added and mapped into space c as region r. */
  ghost function Attached(st: State, c: nat, r: Region, o: Object): State
    requires c < |st.spaces| && r.size <= |o.pages| == |o.cow|
  {
    State(st.mem, st.objects + [o],
          st.spaces[c := Space(st.spaces[c].regions + [r], MapEntries(st.spaces[c].entries, r, o, 0, r.size))])
  }

  /** One turn of the loop in `VMSpace::fork`: region j of space s is shared into space c. */
  ghost function ForkRegion(st: State, s: nat, j: nat, c: nat): State
    requires HasRegion(st, s, j) && c < |st.spaces| && RegionOk(st.spaces[s].regions[j], st.objects)
  {
    var r := st.spaces[s].regions[j];
    Attached(Protected(st, s, j), c, r.(id := |st.objects|), CowAll(st.objects[r.id]))
  }

  /** Appending an object leaves every space as it was. */
  lemma MoreObjects(sp: Space, objects: seq<Object>, o: Object)
    requires SpaceOk(sp, objects)
    ensures SpaceOk(sp, objects + [o])
  {
    forall j: nat, v: nat | j < |sp.regions| && v in sp.entries && sp.regions[j].Contains(v)
      ensures EntryIn(sp, j, v, objects + [o])
    {
      assert EntryIn(sp, j, v, objects);
    }
  }

  /** A region added over unmapped pages, then mapped. */
  lemma AddRegion(sp: Space, objects: seq<Object>, r: Region)
    requires SpaceOk(sp, objects) && RegionOk(r, objects) && |objects[r.id].pages| == |objects[r.id].cow|
    requires forall l: nat :: l < |sp.regions| ==> Disjoint(sp.regions[l], r)
    ensures SpaceOk(Space(sp.regions + [r], MapEntries(sp.entries, r, objects[r.id], 0, r.size)), objects)
  {
    var o := objects[r.id];
    var sp' := Space(sp.regions + [r], MapEntries(sp.entries, r, o, 0, r.size));
    forall v | v in sp'.entries
      ensures Covered(sp'.regions, v)
    {
      MapEntriesAt(sp.entries, r, o, 0, r.size, v);
      if InRange(r, o, 0, r.size, v) {
        assert sp'.regions[|sp.regions|].Contains(v);
      } else {
        var l: nat :| l < |sp.regions| && sp.regions[l].Contains(v);
        assert sp'.regions[l].Contains(v);
      }
    }
    forall l: nat, v: nat | l < |sp'.regions| && v in sp'.entries && sp'.regions[l].Contains(v)
      ensures EntryIn(sp', l, v, objects)
    {
      MapEntriesAt(sp.entries, r, o, 0, r.size, v);
      assert v in sp.entries ==> Covered(sp.regions, v);
      if l < |sp.regions| {
        assert EntryIn(sp, l, v, objects);
      }
    }
  }

  /** The spaces gained region r in space c, and nothing else changed about their regions. */
  ghost predicate Gained(spaces: seq<Space>, spaces': seq<Space>, c: nat, r: Region) {
    && |spaces'| == |spaces|
    && forall l: nat :: l < |spaces| ==> spaces'[l].regions == spaces[l].regions + if l == c then [r] else []
  }

  lemma GainedUnique(spaces: seq<Space>, spaces': seq<Space>, c: nat, r: Region, objects: seq<Object>)
    requires Gained(spaces, spaces', c, r) && UniqueIds(spaces) && InBounds(objects, spaces) && r.id >= |objects|
    ensures UniqueIds(spaces')
  {
  }

  lemma GainedNoOverlap(spaces: seq<Space>, spaces': seq<Space>, c: nat, r: Region)
    requires Gained(spaces, spaces', c, r) && NoOverlap(spaces)
    requires c < |spaces| && forall l: nat :: l < |spaces[c].regions| ==> Disjoint(spaces[c].regions[l], r)
    ensures NoOverlap(spaces')
  {
  }

  lemma GainedInBounds(spaces: seq<Space>, spaces': seq<Space>, c: nat, r: Region, objects: seq<Object>,
                       objects': seq<Object>)
    requires Gained(spaces, spaces', c, r) && InBounds(objects, spaces) && RegionOk(r, objects')
    requires |objects| <= |objects'| && forall k: nat :: k < |objects| ==> |objects'[k].pages| == |objects[k].pages|
    ensures InBounds(objects', spaces')
  {
    forall s: nat, j: nat | s < |spaces'| && j < |spaces'[s].regions|
      ensures RegionOk(spaces'[s].regions[j], objects')
    {
      assert j < |spaces[s].regions| ==> RegionOk(spaces[s].regions[j], objects);
    }
  }

  lemma ForkRegionSpaces(st: State, s: nat, j: nat, c: nat)
    requires Inv(st) && HasRegion(st, s, j) && c < |st.spaces| && c != s
    requires forall l: nat :: l < |st.spaces[c].regions| ==> Disjoint(st.spaces[c].regions[l], st.spaces[s].regions[j])
    ensures var st' := ForkRegion(st, s, j, c); SpacesOk(st'.spaces, st'.objects)
  {
    var r := st.spaces[s].regions[j];
    var k, o := r.id, CowAll(st.objects[r.id]);
    var st' := ForkRegion(st, s, j, c);
    var objects1 := st.objects[k := o];
    RemapOwn(st.spaces[s], st.objects, j, o, 0, r.size);
    MoreObjects(st'.spaces[s], objects1, o);
    forall l: nat | l < |st.spaces| && l != s
      ensures SpaceOk(st.spaces[l], st'.objects)
    {
      OtherSpace(st.spaces[l], st.objects, k, o);
      MoreObjects(st.spaces[l], objects1, o);
    }
    AddRegion(st.spaces[c], st'.objects, r.(id := |st.objects|));
  }

  lemma ForkRegionKeeps(st: State, s: nat, j: nat, c: nat)
    requires Inv(st) && HasRegion(st, s, j) && c < |st.spaces| && c != s
    requires forall l: nat :: l < |st.spaces[c].regions| ==> Disjoint(st.spaces[c].regions[l], st.spaces[s].regions[j])
    ensures Inv(ForkRegion(st, s, j, c))
  {
    CloneObject(st.mem, st.objects, st.spaces[s].regions[j].id);
    var st' := ForkRegion(st, s, j, c);
    var r' := st.spaces[s].regions[j].(id := |st.objects|);
    assert Gained(st.spaces, st'.spaces, c, r');
    GainedUnique(st.spaces, st'.spaces, c, r', st.objects);
    GainedNoOverlap(st.spaces, st'.spaces, c, r');
    GainedInBounds(st.spaces, st'.spaces, c, r', st.objects, st'.objects);
    ForkRegionSpaces(st, s, j, c);
  }

  /** In the reference model the same turn copies the region's bytes into a new object. */
  lemma ForkRegionCopies(st: State, s: nat, j: nat, c: nat)
    requires Inv(st) && HasRegion(st, s, j) && c < |st.spaces| && c != s
    ensures EagerRegion(Abs(st), s, j) && Abs(ForkRegion(st, s, j, c)) == EagerForkRegion(Abs(st), s, j, c)
  {
    var r := st.spaces[s].regions[j];
    var st' := ForkRegion(st, s, j, c);
    var e, e' := Abs(st), EagerForkRegion(Abs(st), s, j, c);
    forall l: nat | l < |st'.objects|
      ensures ObjectBytes(st'.mem, st'.objects[l]) == e'.objects[l]
    {
      var l0 := if l == |st.objects| then r.id else l;
      assert ObjectBytes(st'.mem, st'.objects[l]) == ObjectBytes(st.mem, st.objects[l0]);
    }
    assert Abs(st').objects == e'.objects;
    assert Abs(st').spaces == e'.spaces;
  }

  // ---------- The reference model ----------

  ghost predicate EagerRegion(e: Eager, s: nat, j: nat) {
    s < |e.spaces| && j < |e.spaces[s]| && e.spaces[s][j].id < |e.objects|
  }

  ghost function EagerForkRegion(e: Eager, s: nat, j: nat, c: nat): Eager
    requires EagerRegion(e, s, j) && c < |e.spaces|
  {
    var r := e.spaces[s][j];
    Eager(e.objects + [e.objects[r.id]], e.spaces[c := e.spaces[c] + [r.(id := |e.objects|)]])
  }

  ghost predicate ForkableSpace(e: Eager, s: nat) {
    s < |e.spaces| && forall r :: r in e.spaces[s] ==> r.id < |e.objects|
  }

  /** Fork of the first n regions: a new space whose regions hold copies of all their bytes. */
  ghost function EagerForkTo(e: Eager, s: nat, n: nat): Eager
    requires ForkableSpace(e, s) && n <= |e.spaces[s]|
  {
    var rs := e.spaces[s];
    Eager(e.objects + seq(n, j requires 0 <= j < n => e.objects[rs[j].id]),
          e.spaces + [seq(n, j requires 0 <= j < n => rs[j].(id := |e.objects| + j))])
  }

  ghost function EagerFork(e: Eager, s: nat): Eager
    requires ForkableSpace(e, s)
  {
    EagerForkTo(e, s, |e.spaces[s]|)
  }

  lemma EagerForkNext(e: Eager, s: nat, n: nat)
    requires ForkableSpace(e, s) && n < |e.spaces[s]|
    ensures EagerRegion(EagerForkTo(e, s, n), s, n)
    ensures EagerForkRegion(EagerForkTo(e, s, n), s, n, |e.spaces|) == EagerForkTo(e, s, n + 1)
  {
    assert e.spaces[s][n] in e.spaces[s];
    var e1, e2 := EagerForkRegion(EagerForkTo(e, s, n), s, n, |e.spaces|), EagerForkTo(e, s, n + 1);
    assert e1.objects == e2.objects;
    assert e1.spaces[|e.spaces|] == e2.spaces[|e.spaces|];
    assert e1.spaces == e2.spaces;
  }

  /** The first region that contains page v, as the walk in `try_pagefault` finds it. */
  function FindRegion(rs: seq<Region>, v: nat): (j: nat)
    ensures j <= |rs|
    ensures j < |rs| ==> rs[j].Contains(v)
    ensures forall l: nat :: l < j ==> !rs[l].Contains(v)
  {
    if rs == [] then 0
    else if rs[0].Contains(v) then 0
    else
      var j := 1 + FindRegion(rs[1..], v);
      assert forall l: nat :: 0 < l < j ==> rs[l] == rs[1..][l - 1];
      j
  }

  ghost predicate Mapped(e: Eager, s: nat, v: nat) {
    && s < |e.spaces|
    && var j := FindRegion(e.spaces[s], v);
    && j < |e.spaces[s]|
    && e.spaces[s][j].id < |e.objects|
    && e.spaces[s][j].size <= |e.objects[e.spaces[s][j].id]|
  }

  ghost function RegionAt(e: Eager, s: nat, v: nat): Region
    requires Mapped(e, s, v)
  {
    e.spaces[s][FindRegion(e.spaces[s], v)]
  }

  ghost function EagerLoad(e: Eager, s: nat, v: nat, off: nat): Byte
    requires Mapped(e, s, v) && off < PAGE_SIZE
  {
    var r := RegionAt(e, s, v);
    e.objects[r.id][v - r.start][off]
  }

  ghost function EagerStore(e: Eager, s: nat, v: nat, off: nat, b: Byte): Eager
    requires Mapped(e, s, v) && off < PAGE_SIZE
  {
    var r := RegionAt(e, s, v);
    var bytes := e.objects[r.id];
    e.(objects := e.objects[r.id := bytes[v - r.start := bytes[v - r.start][off := b]]])
  }

  // ---------- Stores ----------

  /** A store through a writable entry goes straight to the physical page. */
  function StoreFrame(mem: Memory, p: nat, off: nat, b: Byte): Memory
    requires p in mem.frames && off < PAGE_SIZE
  {
    mem.(frames := mem.frames[p := mem.frames[p][off := b]])
  }

  ghost predicate Writable(st: State, s: nat, v: nat) {
    s < |st.spaces| && v in st.spaces[s].entries && st.spaces[s].entries[v].write
  }

  /** An address with a writable entry lies in a region, and no other slot shares its page. */
  lemma WritableIsPrivate(st: State, s: nat, v: nat)
    requires Inv(st) && Writable(st, s, v)
    ensures Mapped(Abs(st), s, v) && st.spaces[s].entries[v].page in st.mem.refs
    ensures var r := RegionAt(Abs(st), s, v);
            forall l: nat, i: nat :: l < |st.objects| && i < |st.objects[l].pages| ==>
              (st.objects[l].pages[i] == st.spaces[s].entries[v].page <==> l == r.id && i == v - r.start)
  {
    hide Inv, Abs, Holders;
    RegionFacts(st, s, v);
    WritableSlot(st, s, v);
    var r := RegionAt(Abs(st), s, v);
    forall l: nat, i: nat | l < |st.objects| && i < |st.objects[l].pages| && (l, i) != (r.id, v - r.start)
      ensures st.objects[l].pages[i] != st.spaces[s].entries[v].page
    {
      if st.objects[l].pages[i] == st.spaces[s].entries[v].page {
        SlotCountedTwice(st.objects, l, i, r.id, v - r.start);
      }
    }
  }

  /** The slot behind a writable entry is the only one that holds its page. */
  lemma WritableSlot(st: State, s: nat, v: nat)
    requires Inv(st) && Writable(st, s, v)
    ensures var j := FindRegion(st.spaces[s].regions, v);
            && j < |st.spaces[s].regions|
            && var r := st.spaces[s].regions[j];
            && r.id < |st.objects| && v - r.start < |st.objects[r.id].pages|
            && st.objects[r.id].pages[v - r.start] == st.spaces[s].entries[v].page
            && Holders(st.objects, st.spaces[s].entries[v].page) == 1
            && st.spaces[s].entries[v].page in st.mem.refs
  {
    hide Holders, Occurs;
    var sp := st.spaces[s];
    assert Covered(sp.regions, v);
    var j := FindRegion(sp.regions, v);
    assert EntryIn(sp, j, v, st.objects);
    var r := sp.regions[j];
    assert SlotOk(st.objects, r.id, v - r.start);
    assert RefExact(st.mem.refs, st.objects, sp.entries[v].page);
  }

  lemma StoreKeeps(st: State, s: nat, v: nat, off: nat, b: Byte)
    requires Inv(st) && Writable(st, s, v) && off < PAGE_SIZE
    ensures Mapped(Abs(st), s, v) && st.spaces[s].entries[v].page in st.mem.frames
    ensures var st' := st.(mem := StoreFrame(st.mem, st.spaces[s].entries[v].page, off, b));
            Inv(st') && Abs(st') == EagerStore(Abs(st), s, v, off, b)
  {
    WritableIsPrivate(st, s, v);
    var r := RegionAt(Abs(st), s, v);
    var st' := st.(mem := StoreFrame(st.mem, st.spaces[s].entries[v].page, off, b));
    var e' := EagerStore(Abs(st), s, v, off, b);
    forall l: nat | l < |st.objects|
      ensures ObjectBytes(st'.mem, st.objects[l]) == e'.objects[l]
    {
      forall i: nat | i < |st.objects[l].pages|
        ensures SlotBytes(st'.mem, st.objects[l].pages[i]) == e'.objects[l][i]
      {
      }
    }
    assert Abs(st').objects == e'.objects;
  }

  // ---------- Unmapping ----------

  /** The slots of an object whose first n references were dropped. */
  function DroppedTo(o: Object, n: nat): Object
    requires n <= |o.pages| == |o.cow|
  {
    Object(seq(n, _ => 0) + o.pages[n..], seq(n, _ => false) + o.cow[n..])
  }

  /** `VMObject::~VMObject`: drop the reference of every committed slot. */
  ghost function UnrefTo(mem: Memory, pages: seq<nat>, n: nat): Memory
    requires n <= |pages|
  {
    if n == 0 then mem
    else
      var m := UnrefTo(mem, pages, n - 1);
      if pages[n - 1] == 0 || pages[n - 1] !in m.refs then m else Unref(m, pages[n - 1])
  }

  lemma {:induction false} UnrefToKeeps(mem: Memory, objects: seq<Object>, k: nat, n: nat)
    requires MemInv(mem, objects) && k < |objects| && n <= |objects[k].pages|
    ensures var mem' := UnrefTo(mem, objects[k].pages, n);
            && MemInv(mem', objects[k := DroppedTo(objects[k], n)])
            && mem'.frames == mem.frames && Later(mem, mem')
            && (n < |objects[k].pages| && objects[k].pages[n] != 0 ==> objects[k].pages[n] in mem'.refs)
  {
    var o := objects[k];
    if n == 0 {
      assert DroppedTo(o, 0) == o;
      assert objects[k := o] == objects;
    } else {
      UnrefToKeeps(mem, objects, k, n - 1);
      UnrefNext(UnrefTo(mem, o.pages, n - 1), objects, k, n - 1);
    }
    StillHeld(UnrefTo(mem, o.pages, n), objects, k, n);
  }

  /** The n-th slot drops its reference, if it has one. */
  lemma UnrefNext(mem: Memory, objects: seq<Object>, k: nat, n: nat)
    requires k < |objects| && n < |objects[k].pages| == |objects[k].cow|
    requires MemInv(mem, objects[k := DroppedTo(objects[k], n)])
    ensures var p := objects[k].pages[n];
            && (p != 0 ==> p in mem.refs && Later(mem, Unref(mem, p)))
            && MemInv(if p == 0 then mem else Unref(mem, p), objects[k := DroppedTo(objects[k], n + 1)])
  {
    hide MemoryOk, RefsExact, Unref;
    var o := objects[k];
    var d := DroppedTo(o, n);
    var objects1 := objects[k := d];
    assert SlotOk(objects1, k, n);
    assert DroppedTo(o, n + 1) == SetSlot(d, n, 0);
    assert objects1[k := SetSlot(d, n, 0)] == objects[k := DroppedTo(o, n + 1)];
    if o.pages[n] != 0 {
      DropSlot(mem, objects1, k, n);
    } else {
      assert SetSlot(d, n, 0) == d;
    }
  }

  /** A slot that has not dropped its reference still counts. */
  lemma StillHeld(mem: Memory, objects: seq<Object>, k: nat, n: nat)
    requires k < |objects| && n <= |objects[k].pages| == |objects[k].cow|
    requires MemInv(mem, objects[k := DroppedTo(objects[k], n)])
    ensures n < |objects[k].pages| && objects[k].pages[n] != 0 ==> objects[k].pages[n] in mem.refs
  {
    if n < |objects[k].pages| && objects[k].pages[n] != 0 {
      var objects1 := objects[k := DroppedTo(objects[k], n)];
      SlotCounted(objects1, k, n);
      assert RefExact(mem.refs, objects1, objects[k].pages[n]);
    }
  }

  lemma {:induction false} OccursInZeros(pages: seq<nat>, p: nat)
    requires p != 0 && forall i: nat :: i < |pages| ==> pages[i] == 0
    ensures Occurs(pages, p) == 0
  {
    if pages != [] {
      OccursInZeros(pages[..|pages| - 1], p);
    }
  }

  /** An object without committed slots may be replaced by another such object. */
  lemma SwapEmpty(mem: Memory, objects: seq<Object>, k: nat, o: Object)
    requires MemInv(mem, objects) && k < |objects|
    requires forall i: nat :: i < |objects[k].pages| ==> objects[k].pages[i] == 0
    requires |o.pages| == |o.cow| && forall i: nat :: i < |o.pages| ==> o.pages[i] == 0 && !o.cow[i]
    ensures MemInv(mem, objects[k := o])
  {
    var objects' := objects[k := o];
    forall p: nat | p != 0
      ensures Holders(objects', p) == Holders(objects, p)
    {
      HoldersUpdate(objects, k, o, p);
      OccursInZeros(objects[k].pages, p);
      OccursInZeros(o.pages, p);
    }
    forall p: nat
      ensures RefExact(mem.refs, objects', p)
    {
      assert RefExact(mem.refs, objects, p);
    }
    forall l: nat, j: nat | l < |objects'| && j < |objects'[l].pages|
      ensures SlotOk(objects', l, j)
    {
      if l != k {
        assert SlotOk(objects, l, j);
      }
    }
  }

  const EMPTY := Object([], [])

  /** The state after region j of space s was unmapped and its object destroyed. */
  ghost function Unmapped(st: State, s: nat, j: nat): State
    requires HasRegion(st, s, j) && st.spaces[s].regions[j].id < |st.objects|
  {
    var sp := st.spaces[s];
    var r := sp.regions[j];
    var pages := st.objects[r.id].pages;
    State(UnrefTo(st.mem, pages, |pages|), st.objects[r.id := EMPTY],
          st.spaces[s := Space(Left(sp.regions, j), UnmapEntries(sp.entries, r))])
  }

  function UnmapEntries(entries: map<nat, Entry>, r: Region): map<nat, Entry> {
    map v | v in entries && !r.Contains(v) :: entries[v]
  }

  ghost function EagerUnmap(e: Eager, s: nat, j: nat): Eager
    requires EagerRegion(e, s, j)
  {
    var rs := e.spaces[s];
    Eager(e.objects[rs[j].id := []], e.spaces[s := rs[..j] + rs[j + 1..]])
  }

  /** The regions without region j. */
  function Left(rs: seq<Region>, j: nat): seq<Region>
    requires j < |rs|
  {
    rs[..j] + rs[j + 1..]
  }

  lemma LeftAt(rs: seq<Region>, j: nat, i: nat)
    requires j < |rs| && i < |rs| && i != j
    ensures |Left(rs, j)| == |rs| - 1 && Left(rs, j)[if i < j then i else i - 1] == rs[i]
  {
  }

  lemma UnmapSpace(sp: Space, objects: seq<Object>, j: nat, k: nat)
    requires SpaceOk(sp, objects) && j < |sp.regions| && k < |objects|
    requires forall l: nat :: l < |sp.regions| && l != j ==> sp.regions[l].id != k
    ensures SpaceOk(Space(Left(sp.regions, j), UnmapEntries(sp.entries, sp.regions[j])), objects[k := EMPTY])
  {
    hide Left;
    var sp' := Space(Left(sp.regions, j), UnmapEntries(sp.entries, sp.regions[j]));
    forall v | v in sp'.entries
      ensures Covered(sp'.regions, v)
    {
      assert Covered(sp.regions, v);
      var l: nat :| l < |sp.regions| && sp.regions[l].Contains(v);
      LeftAt(sp.regions, j, l);
    }
    forall l: nat, v: nat | l < |sp'.regions| && v in sp'.entries && sp'.regions[l].Contains(v)
      ensures EntryIn(sp', l, v, objects[k := EMPTY])
    {
      LeftSize(sp.regions, j);
      var l0 := if l < j then l else l + 1;
      LeftAt(sp.regions, j, l0);
      assert EntryIn(sp, l0, v, objects);
    }
  }

  lemma LeftSize(rs: seq<Region>, j: nat)
    requires j < |rs|
    ensures |Left(rs, j)| == |rs| - 1
  {
  }

  /** The spaces lost region j of space s, and nothing else changed about their regions. */
  ghost predicate Lost(spaces: seq<Space>, spaces': seq<Space>, s: nat, j: nat) {
    && |spaces'| == |spaces| && s < |spaces| && j < |spaces[s].regions|
    && forall l: nat :: l < |spaces| ==>
         spaces'[l].regions == if l == s then Left(spaces[s].regions, j) else spaces[l].regions
  }

  /** Where region i of space l was before. */
  function Before(s: nat, j: nat, l: nat, i: nat): nat { if l == s && i >= j then i + 1 else i }

  lemma LostAt(spaces: seq<Space>, spaces': seq<Space>, s: nat, j: nat, l: nat, i: nat)
    requires Lost(spaces, spaces', s, j) && l < |spaces'| && i < |spaces'[l].regions|
    ensures Before(s, j, l, i) < |spaces[l].regions| && spaces'[l].regions[i] == spaces[l].regions[Before(s, j, l, i)]
    ensures (l, Before(s, j, l, i)) != (s, j)
  {
  }

  lemma LostUnique(spaces: seq<Space>, spaces': seq<Space>, s: nat, j: nat)
    requires Lost(spaces, spaces', s, j) && UniqueIds(spaces)
    ensures UniqueIds(spaces')
  {
    hide Lost, UniqueIds;
    LostSize(spaces, spaces', s, j);
    forall l: nat, i: nat, l': nat, i': nat |
      l < |spaces'| && i < |spaces'[l].regions| && l' < |spaces'| && i' < |spaces'[l'].regions| && (l, i) != (l', i')
      ensures spaces'[l].regions[i].id != spaces'[l'].regions[i'].id
    {
      LostPair(spaces, spaces', s, j, l, i, l', i');
    }
    IdsDiffer(spaces');
  }

  lemma LostSize(spaces: seq<Space>, spaces': seq<Space>, s: nat, j: nat)
    requires Lost(spaces, spaces', s, j)
    ensures |spaces'| == |spaces|
  {
  }

  lemma IdsDiffer(spaces: seq<Space>)
    requires forall l: nat, i: nat, l': nat, i': nat ::
               l < |spaces| && i < |spaces[l].regions| && l' < |spaces| && i' < |spaces[l'].regions|
               && (l, i) != (l', i') ==>
                 spaces[l].regions[i].id != spaces[l'].regions[i'].id
    ensures UniqueIds(spaces)
  {
  }

  lemma LostPair(spaces: seq<Space>, spaces': seq<Space>, s: nat, j: nat, l: nat, i: nat, l': nat, i': nat)
    requires Lost(spaces, spaces', s, j) && UniqueIds(spaces)
    requires l < |spaces'| && i < |spaces'[l].regions| && l' < |spaces'| && i' < |spaces'[l'].regions|
             && (l, i) != (l', i')
    ensures spaces'[l].regions[i].id != spaces'[l'].regions[i'].id
  {
    hide Lost, Left;
    LostSize(spaces, spaces', s, j);
    LostAt(spaces, spaces', s, j, l, i);
    LostAt(spaces, spaces', s, j, l', i');
  }

  lemma LostNoOverlap(spaces: seq<Space>, spaces': seq<Space>, s: nat, j: nat)
    requires Lost(spaces, spaces', s, j) && NoOverlap(spaces)
    ensures NoOverlap(spaces')
  {
    hide Disjoint;
    forall l: nat, i: nat, i': nat | l < |spaces'| && i < i' < |spaces'[l].regions|
      ensures Disjoint(spaces'[l].regions[i], spaces'[l].regions[i'])
    {
      LostAt(spaces, spaces', s, j, l, i);
      LostAt(spaces, spaces', s, j, l, i');
    }
  }

  lemma LostInBounds(spaces: seq<Space>, spaces': seq<Space>, s: nat, j: nat, objects: seq<Object>, k: nat)
    requires Lost(spaces, spaces', s, j) && InBounds(objects, spaces) && UniqueIds(spaces)
             && k == spaces[s].regions[j].id && k < |objects|
    ensures InBounds(objects[k := EMPTY], spaces')
  {
    forall l: nat, i: nat | l < |spaces'| && i < |spaces'[l].regions|
      ensures RegionOk(spaces'[l].regions[i], objects[k := EMPTY])
    {
      LostAt(spaces, spaces', s, j, l, i);
      assert RegionOk(spaces[l].regions[Before(s, j, l, i)], objects);
    }
  }

  lemma UnmapOthers(sp: Space, objects: seq<Object>, k: nat)
    requires SpaceOk(sp, objects) && k < |objects|
    requires forall l: nat :: l < |sp.regions| ==> sp.regions[l].id != k
    ensures SpaceOk(sp, objects[k := EMPTY])
  {
    forall l: nat, v: nat | l < |sp.regions| && v in sp.entries && sp.regions[l].Contains(v)
      ensures EntryIn(sp, l, v, objects[k := EMPTY])
    {
      assert EntryIn(sp, l, v, objects);
    }
  }

  /** Every region left over was there before, and is not the one that was unmapped. */
  lemma UnmapRegions(st: State, s: nat, j: nat)
    requires Inv(st) && HasRegion(st, s, j)
    ensures var st' := Unmapped(st, s, j); RegionsOk(st'.objects, st'.spaces) && SpacesOk(st'.spaces, st'.objects)
  {
    hide UnrefTo, UnmapEntries, Disjoint, MemoryOk, RefsExact, ObjectsOk, SpaceOk;
    var st' := Unmapped(st, s, j);
    var k := st.spaces[s].regions[j].id;
    assert RegionOk(st.spaces[s].regions[j], st.objects);
    assert Lost(st.spaces, st'.spaces, s, j);
    LostUnique(st.spaces, st'.spaces, s, j);
    LostNoOverlap(st.spaces, st'.spaces, s, j);
    LostInBounds(st.spaces, st'.spaces, s, j, st.objects, k);
    UnmapSpace(st.spaces[s], st.objects, j, k);
    forall l: nat | l < |st.spaces| && l != s
      ensures SpaceOk(st.spaces[l], st'.objects)
    {
      UnmapOthers(st.spaces[l], st.objects, k);
    }
  }

  lemma UnmapBytes(st: State, s: nat, j: nat)
    requires HasRegion(st, s, j) && st.spaces[s].regions[j].id < |st.objects|
    requires var pages := st.objects[st.spaces[s].regions[j].id].pages;
             UnrefTo(st.mem, pages, |pages|).frames == st.mem.frames
    ensures EagerRegion(Abs(st), s, j) && Abs(Unmapped(st, s, j)) == EagerUnmap(Abs(st), s, j)
  {
    hide UnrefTo, UnmapEntries;
    var st' := Unmapped(st, s, j);
    var e' := EagerUnmap(Abs(st), s, j);
    forall l: nat | l < |st.objects|
      ensures ObjectBytes(st'.mem, st'.objects[l]) == e'.objects[l]
    {
      assert l != st.spaces[s].regions[j].id ==>
               ObjectBytes(st'.mem, st.objects[l]) == ObjectBytes(st.mem, st.objects[l]);
    }
    assert Abs(st').objects == e'.objects;
    assert Abs(st').spaces == e'.spaces;
  }

  lemma UnmapKeeps(st: State, s: nat, j: nat)
    requires Inv(st) && HasRegion(st, s, j)
    ensures Inv(Unmapped(st, s, j)) && Later(st.mem, Unmapped(st, s, j).mem)
    ensures EagerRegion(Abs(st), s, j) && Abs(Unmapped(st, s, j)) == EagerUnmap(Abs(st), s, j)
  {
    hide SpacesOk, NoOverlap, UniqueIds, Abs;
    var k := st.spaces[s].regions[j].id;
    assert RegionOk(st.spaces[s].regions[j], st.objects);
    var pages := st.objects[k].pages;
    var st' := Unmapped(st, s, j);
    UnrefToKeeps(st.mem, st.objects, k, |pages|);
    var objects1 := st.objects[k := DroppedTo(st.objects[k], |pages|)];
    SwapEmpty(st'.mem, objects1, k, EMPTY);
    assert objects1[k := EMPTY] == st'.objects;
    UnmapRegions(st, s, j);
    UnmapBytes(st, s, j);
  }

  // ---------- New regions ----------

  function Uncommitted(n: nat): Object {
    Object(seq(n, _ => 0), seq(n, _ => false))
  }

  /** A fresh uncommitted object mapped at `start`: no page is used until the first fault. */
  ghost function WithRegion(st: State, s: nat, start: nat, n: nat, prot: VMProt): State
    requires s < |st.spaces|
  {
    Attached(st, s, Region(start, n, |st.objects|, prot), Uncommitted(n))
  }

  function ZeroPages(n: nat): seq<Page> { seq(n, _ => ZeroPage()) }

  ghost function EagerMap(e: Eager, s: nat, start: nat, n: nat, prot: VMProt): Eager
    requires s < |e.spaces|
  {
    Eager(e.objects + [ZeroPages(n)], e.spaces[s := e.spaces[s] + [Region(start, n, |e.objects|, prot)]])
  }

  ghost predicate FreeRange(rs: seq<Region>, start: nat, n: nat) {
    forall l: nat :: l < |rs| ==> rs[l].start + rs[l].size <= start || start + n <= rs[l].start
  }

  lemma AppendUncommitted(mem: Memory, objects: seq<Object>, n: nat)
    requires MemInv(mem, objects)
    ensures MemInv(mem, objects + [Uncommitted(n)])
  {
    var objects' := objects + [Uncommitted(n)];
    forall p: nat | p != 0
      ensures Holders(objects', p) == Holders(objects, p)
    {
      HoldersAppend(objects, Uncommitted(n), p);
      OccursInZeros(Uncommitted(n).pages, p);
    }
    forall p: nat
      ensures RefExact(mem.refs, objects', p)
    {
      assert RefExact(mem.refs, objects, p);
    }
    forall l: nat, j: nat | l < |objects'| && j < |objects'[l].pages|
      ensures SlotOk(objects', l, j)
    {
      if l < |objects| {
        assert SlotOk(objects, l, j);
      }
    }
  }

  lemma MapKeeps(st: State, s: nat, start: nat, n: nat, prot: VMProt)
    requires Inv(st) && s < |st.spaces| && prot.read && FreeRange(st.spaces[s].regions, start, n)
    ensures Inv(WithRegion(st, s, start, n, prot))
    ensures Abs(WithRegion(st, s, start, n, prot)) == EagerMap(Abs(st), s, start, n, prot)
  {
    var o := Uncommitted(n);
    var st' := WithRegion(st, s, start, n, prot);
    var r := Region(start, n, |st.objects|, prot);
    AppendUncommitted(st.mem, st.objects, n);
    assert Gained(st.spaces, st'.spaces, s, r);
    GainedUnique(st.spaces, st'.spaces, s, r, st.objects);
    GainedNoOverlap(st.spaces, st'.spaces, s, r);
    GainedInBounds(st.spaces, st'.spaces, s, r, st.objects, st'.objects);
    forall l: nat | l < |st.spaces|
      ensures SpaceOk(st.spaces[l], st'.objects)
    {
      MoreObjects(st.spaces[l], st.objects, o);
    }
    AddRegion(st.spaces[s], st'.objects, r);
    var e' := EagerMap(Abs(st), s, start, n, prot);
    assert ObjectBytes(st.mem, o) == ZeroPages(n);
    assert Abs(st').objects == e'.objects;
    assert Abs(st').spaces == e'.spaces;
  }

  /** What the invariant says about a committed slot. */
  lemma CommittedSlot(st: State, k: nat, i: nat)
    requires Inv(st) && k < |st.objects| && i < |st.objects[k].pages| && st.objects[k].pages[i] != 0
    ensures i < |st.objects[k].cow| == |st.objects[k].pages|
    ensures var p := st.objects[k].pages[i];
            && p in st.mem.refs && st.mem.refs[p] > 0 && p in st.mem.frames && p !in st.mem.free
            && (!st.objects[k].cow[i] ==> st.mem.refs[p] == 1)
  {
    SlotCounted(st.objects, k, i);
    assert RefExact(st.mem.refs, st.objects, st.objects[k].pages[i]);
    assert SlotOk(st.objects, k, i);
  }

  /** The request for the copy may have set a flag first. */
  lemma CopySettles(st: State, k: nat, i: nat, p: nat, q: nat)
    requires Inv(st) && k < |st.objects| && i < |st.objects[k].pages| && st.objects[k].pages[i] != 0 && p in st.mem.free
    ensures i < |st.objects[k].cow| == |st.objects[k].pages| && st.objects[k].pages[i] in st.mem.refs
            && p != st.objects[k].pages[i]
    ensures var (mem, o) := CopySlot(Mark(st.mem, q), st.objects[k], i, p); Settled(st, k, i, mem, o)
  {
    MarkKeeps(st.mem, st.objects, q);
    CopySlotKeeps(Mark(st.mem, q), st.objects, k, i, p);
  }

  lemma FaultInSettles(st: State, k: nat, i: nat, p: nat, q: nat)
    requires Inv(st) && k < |st.objects| && i < |st.objects[k].pages| && st.objects[k].pages[i] == 0 && p in st.mem.free
    ensures i < |st.objects[k].cow| == |st.objects[k].pages| && !st.objects[k].cow[i]
    ensures Settled(st, k, i, Alloc(Mark(st.mem, q), p, ZeroPage()), SetSlot(st.objects[k], i, p))
  {
    MarkKeeps(st.mem, st.objects, q);
    FaultInKeeps(Mark(st.mem, q), st.objects, k, i, p);
    assert SlotOk(st.objects, k, i);
  }

  lemma PresentSettles(st: State, k: nat, i: nat)
    requires Inv(st) && k < |st.objects| && i < |st.objects[k].pages| && st.objects[k].pages[i] != 0
    ensures Settled(st, k, i, st.mem, st.objects[k])
  {
    assert st.objects[k := st.objects[k]] == st.objects;
  }

  lemma EmptySlot(st: State, k: nat, i: nat)
    requires Inv(st) && k < |st.objects| && i < |st.objects[k].pages| && st.objects[k].pages[i] == 0
    ensures i < |st.objects[k].cow| == |st.objects[k].pages| && !st.objects[k].cow[i]
  {
    assert SlotOk(st.objects, k, i);
  }

  lemma RegionFacts(st: State, s: nat, v: nat)
    requires Inv(st) && s < |st.spaces|
    ensures var j := FindRegion(st.spaces[s].regions, v);
            && (Mapped(Abs(st), s, v) <==> j < |st.spaces[s].regions|)
            && (j < |st.spaces[s].regions| ==>
                  && RegionAt(Abs(st), s, v) == st.spaces[s].regions[j]
                  && RegionOk(st.spaces[s].regions[j], st.objects))
  {
    var j := FindRegion(st.spaces[s].regions, v);
    assert Abs(st).spaces[s] == st.spaces[s].regions;
    if j < |st.spaces[s].regions| {
      assert RegionOk(st.spaces[s].regions[j], st.objects);
    }
  }

  /** A present entry leads to the bytes the reference model holds at that address. */
  lemma EntryReads(st: State, s: nat, v: nat)
    requires Inv(st) && s < |st.spaces| && v in st.spaces[s].entries
    ensures Mapped(Abs(st), s, v) && st.spaces[s].entries[v].page in st.mem.frames
    ensures forall off: nat :: off < PAGE_SIZE ==>
              st.mem.frames[st.spaces[s].entries[v].page][off] == EagerLoad(Abs(st), s, v, off)
    ensures st.spaces[s].entries[v].write ==> RegionAt(Abs(st), s, v).prot.write
    ensures RegionAt(Abs(st), s, v).prot.read
  {
    assert Covered(st.spaces[s].regions, v);
    RegionFacts(st, s, v);
    var j := FindRegion(st.spaces[s].regions, v);
    assert EntryIn(st.spaces[s], j, v, st.objects);
    var r := st.spaces[s].regions[j];
    CommittedSlot(st, r.id, v - r.start);
  }

  function WithSpace(st: State): State {
    st.(spaces := st.spaces + [Space([], map[])])
  }

  /** Fork starts from an empty space. */
  lemma AddSpaceKeeps(st: State)
    requires Inv(st)
    ensures Inv(WithSpace(st)) && Abs(WithSpace(st)) == Abs(st).(spaces := Abs(st).spaces + [[]])
  {
    assert forall s: nat :: s < |st.spaces| ==> WithSpace(st).spaces[s] == st.spaces[s];
    assert Abs(WithSpace(st)).spaces == Abs(st).spaces + [[]];
  }

  lemma ForkStart(e: Eager, s: nat)
    requires ForkableSpace(e, s)
    ensures EagerForkTo(e, s, 0) == e.(spaces := e.spaces + [[]])
  {
    assert EagerForkTo(e, s, 0).objects == e.objects;
    assert EagerForkTo(e, s, 0).spaces[|e.spaces|] == [];
    assert EagerForkTo(e, s, 0).spaces == e.spaces + [[]];
  }

  lemma Forkable(st: State, s: nat)
    requires Inv(st) && s < |st.spaces|
    ensures ForkableSpace(Abs(st), s) && Abs(st).spaces[s] == st.spaces[s].regions
    ensures forall j: nat :: j < |st.spaces[s].regions| ==> RegionOk(st.spaces[s].regions[j], st.objects)
    ensures forall j: nat, j': nat :: j < j' < |st.spaces[s].regions| ==>
              Disjoint(st.spaces[s].regions[j], st.spaces[s].regions[j'])
  {
    assert Abs(st).spaces[s] == st.spaces[s].regions;
    forall r | r in Abs(st).spaces[s]
      ensures r.id < |Abs(st).objects|
    {
      var j :| 0 <= j < |st.spaces[s].regions| && st.spaces[s].regions[j] == r;
      assert RegionOk(st.spaces[s].regions[j], st.objects);
    }
  }

  /** The slots of an object that is about to be cloned can all take another reference. */
  lemma Clonable(st: State, k: nat)
    requires Inv(st) && k < |st.objects|
    ensures var o := st.objects[k];
            && |o.cow| == |o.pages| && 0 !in st.mem.refs
            && (forall i: nat :: i < |o.pages| && o.cow[i] ==> o.pages[i] != 0)
            && (forall i: nat :: i < |o.pages| && o.pages[i] != 0 ==> o.pages[i] in st.mem.refs)
  {
    assert RefExact(st.mem.refs, st.objects, 0);
    forall i: nat | i < |st.objects[k].pages|
      ensures st.objects[k].cow[i] ==> st.objects[k].pages[i] != 0
      ensures st.objects[k].pages[i] != 0 ==> st.objects[k].pages[i] in st.mem.refs
    {
      assert SlotOk(st.objects, k, i);
      if st.objects[k].pages[i] != 0 {
        CommittedSlot(st, k, i);
      }
    }
  }

  /** The regions forked so far lie where the parent's first n regions lie. */
  lemma ForkedDisjoint(e: Eager, s: nat, n: nat)
    requires ForkableSpace(e, s) && n < |e.spaces[s]|
    requires forall j: nat, j': nat :: j < j' < |e.spaces[s]| ==> Disjoint(e.spaces[s][j], e.spaces[s][j'])
    ensures var e' := EagerForkTo(e, s, n);
            && |e'.spaces| == |e.spaces| + 1 && e'.spaces[s] == e.spaces[s]
            && |e'.spaces[|e.spaces|]| == n
            && forall l: nat :: l < n ==> Disjoint(e'.spaces[|e.spaces|][l], e.spaces[s][n])
  {
    var e' := EagerForkTo(e, s, n);
    forall l: nat | l < n
      ensures Disjoint(e'.spaces[|e.spaces|][l], e.spaces[s][n])
    {
      assert Disjoint(e.spaces[s][l], e.spaces[s][n]);
      assert forall v: nat :: e'.spaces[|e.spaces|][l].Contains(v) == e.spaces[s][l].Contains(v);
    }
  }

  lemma InvMem(st: State)
    requires Inv(st)
    ensures MemInv(st.mem, st.objects)
  {
  }

  /** In the kernel's own words: a page's count is the number of slots holding it; in two, it is CoW in both. */
  lemma SharedPagesAreCow(st: State, k: nat, i: nat, l: nat, j: nat)
    requires Inv(st)
    requires k < |st.objects| && i < |st.objects[k].pages| && l < |st.objects| && j < |st.objects[l].pages|
    requires (k, i) != (l, j) && st.objects[k].pages[i] == st.objects[l].pages[j] != 0
    ensures |st.objects[k].cow| == |st.objects[k].pages| && |st.objects[l].cow| == |st.objects[l].pages|
    ensures st.objects[k].cow[i] && st.objects[l].cow[j]
    ensures st.objects[k].pages[i] in st.mem.refs
            && st.mem.refs[st.objects[k].pages[i]] == Holders(st.objects, st.objects[k].pages[i]) >= 2
  {
    SlotCountedTwice(st.objects, k, i, l, j);
    CommittedSlot(st, k, i);
    CommittedSlot(st, l, j);
    assert RefExact(st.mem.refs, st.objects, st.objects[k].pages[i]);
  }

  /**
   A page is free exactly when no slot holds it and its flag was not set since it was last handed out. Only a page right
   before a zone can have its flag set, so every other page is free exactly when no slot holds it.
   */
  lemma FreeExactlyWhenUnheld(st: State, p: nat)
    requires Inv(st) && p in st.mem.frames
    ensures p in st.mem.free <==> Holders(st.objects, p) == 0 && p !in st.mem.reserved
    ensures p !in st.mem.edges ==> (p in st.mem.free <==> Holders(st.objects, p) == 0)
    ensures p in st.mem.Leaked() <==> Holders(st.objects, p) == 0 && p !in st.mem.free
    ensures p in st.mem.refs <==>
              exists k: nat, i: nat :: k < |st.objects| && i < |st.objects[k].pages| && st.objects[k].pages[i] == p
  {
    assert RefExact(st.mem.refs, st.objects, p);
    if Holders(st.objects, p) > 0 {
      var k, i := HoldersWitness(st.objects, p);
    }
    if k: nat, i: nat :| k < |st.objects| && i < |st.objects[k].pages| && st.objects[k].pages[i] == p {
      SlotCounted(st.objects, k, i);
    }
  }

  lemma {:induction false} HoldersWitness(objects: seq<Object>, p: nat) returns (k: nat, i: nat)
    requires Holders(objects, p) > 0
    ensures k < |objects| && i < |objects[k].pages| && objects[k].pages[i] == p
  {
    var n := |objects| - 1;
    if Occurs(objects[n].pages, p) > 0 {
      k := n;
      i := OccursWitness(objects[n].pages, p);
    } else {
      k, i := HoldersWitness(objects[..n], p);
    }
  }
}
