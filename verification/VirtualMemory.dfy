/**
 The memory manager, memory objects and address spaces of `kernel/memory` as they are updated in
 place. Each method is proved against a step on values; the steps keep the invariant and refine
 the reference model in which fork copies every page.
 */
module VirtualMemory {
  import opened CowState
  import opened CowSteps
  import ForkIsolation
  import LastStore

  datatype Errno = EINVAL | ENOENT | ENOMEM

  /** `Stopped` is the kernel stopping at an assert. */
  datatype Result = Success | Failure(error: Errno) | Stopped

  datatype PageOption = NoPage | SomePage(page: nat)

  datatype FaultType = Read | Write | Execute

  /** Physical pages: reference counts, contents and an allocator that may pick any free page. */
  class MemoryManager {
    var refCount: map<nat, nat>
    var frames: map<nat, Page>
    var freePages: set<nat>
    var reserved: set<nat>
    const edges: set<nat>  // the pages right before a zone of the allocator
    var panicked: bool  // PPAGE_REF_COUNT_OVERFLOW was raised

    function Value(): Memory
      reads this
    {
      Memory(refCount, frames, freePages, reserved, edges)
    }

    constructor (pages: set<nat>, contents: map<nat, Page>, edges: set<nat>)
      requires 0 !in pages && contents.Keys == pages
      ensures Value() == Memory(map[], contents, pages, {}, edges) && !panicked
    {
      refCount, frames, freePages, reserved, panicked := map[], contents, pages, {}, false;
      this.edges := edges;
    }

    method Ref(p: nat)
      requires p in refCount
      modifies this
      ensures Value() == old(Value().(refs := refCount[p := refCount[p] + 1]))
      ensures panicked == (old(panicked) || old(refCount[p]) == 0xFFFF)
    {
      if refCount[p] == 0xFFFF {
        panicked := true;
      }
      refCount := refCount[p := refCount[p] + 1];
    }

    /** With the last reference the page is released, and freed unless its reserved flag is set. */
    method Unref(p: nat)
      requires p in refCount && refCount[p] > 0
      modifies this
      ensures Value() == CowSteps.Unref(old(Value()), p) && panicked == old(panicked)
    {
      if refCount[p] == 1 {
        refCount := refCount - {p};
        if p !in reserved {
          freePages := freePages + {p};
        }
      } else {
        refCount := refCount[p := refCount[p] - 1];
      }
    }

    /**
     Some free page. The allocator may also have set the flag of a page q in use that lies right before a zone; the flag
     of the page handed out is cleared.
     */
    method AllocPhysicalPage() returns (r: PageOption, ghost q: nat)
      modifies this
      ensures panicked == old(panicked)
      ensures r.NoPage? <==> old(freePages) == {}
      ensures r.NoPage? ==> Value() == old(Value())
      ensures r.SomePage? ==>
                r.page in old(freePages) && Value() == Handed(Mark(old(Value()), q), r.page)
    {
      q := 0;
      if freePages == {} {
        return NoPage, q;
      }
      var p :| p in freePages;
      var before :| before == 0 || before in edges;
      q := before;
      if before in edges && before in refCount {
        reserved := reserved + {before};
      }
      refCount := refCount[p := 1];
      reserved := reserved - {p};
      freePages := freePages - {p};
      r := SomePage(p);
    }

    method CopyPage(src: nat, dst: nat)
      requires src in frames
      modifies this`frames
      ensures frames == old(frames[dst := frames[src]])
    {
      frames := frames[dst := frames[src]];
    }

    method ClearPage(p: nat)
      modifies this`frames
      ensures frames == old(frames)[p := ZeroPage()]
    {
      frames := frames[p := ZeroPage()];
    }

    method StoreByte(p: nat, off: nat, b: Byte)
      requires p in frames && off < PAGE_SIZE
      modifies this`frames
      ensures Value() == StoreFrame(old(Value()), p, off, b)
    {
      frames := frames[p := frames[p][off := b]];
    }
  }

  /** An anonymous memory object with its page slots and CoW bits. */
  class VMObject {
    ghost const id: nat  // index in the kernel's list of objects
    var pages: seq<nat>
    var cow: seq<bool>

    function Value(): Object
      reads this
    {
      Object(pages, cow)
    }

    constructor (physicalPages: seq<nat>, allCow: bool, ghost id: nat)
      ensures this.id == id
      ensures Value() == if allCow then CowAll(Object(physicalPages, []))
                         else Object(physicalPages, seq(|physicalPages|, _ => false))
    {
      this.id := id;
      pages := physicalPages;
      cow := seq(|physicalPages|, _ => false);
      new;
      if allCow {
        for i := 0 to |pages|
          invariant pages == physicalPages && |cow| == |pages|
          invariant forall l: nat :: l < |pages| ==> cow[l] == (l < i && pages[l] != 0)
        {
          if pages[i] != 0 {
            cow := cow[i := true];
          }
        }
        assert cow == CowAll(Object(physicalPages, [])).cow;
      }
    }

    method TryCowPage(mm: MemoryManager, page: nat) returns (r: Result, ghost p: nat, ghost q: nat)
      requires page < |pages| == |cow| && pages[page] in mm.refCount && mm.refCount[pages[page]] > 0
      requires pages[page] in mm.frames && pages[page] !in mm.freePages
      modifies this, mm
      ensures mm.panicked == old(mm.panicked)
      ensures r == Failure(EINVAL) <==> !old(cow[page])
      ensures r == Failure(ENOMEM) <==> old(cow[page]) && old(mm.freePages) == {}
      ensures r.Success? <==> old(cow[page]) && old(mm.freePages) != {}
      ensures r.Failure? ==> Value() == old(Value()) && mm.Value() == old(mm.Value())
      ensures r.Success? ==>
                && p in old(mm.freePages)
                && (mm.Value(), Value()) == CopySlot(Mark(old(mm.Value()), q), old(Value()), page, p)
    {
      p, q := 0, 0;
      if !cow[page] {
        return Failure(EINVAL), p, q;
      }
      var oldPage := pages[page];
      var newPage;
      newPage, q := mm.AllocPhysicalPage();
      if newPage.NoPage? {
        return Failure(ENOMEM), p, q;
      }
      p := newPage.page;
      mm.CopyPage(oldPage, newPage.page);
      mm.Unref(oldPage);
      pages := pages[page := newPage.page];
      cow := cow[page := false];
      assert (mm.Value(), Value()) == CopySlot(Mark(old(mm.Value()), q), old(Value()), page, p);
      r := Success;
    }

    /** One turn of the loop: a committed slot becomes CoW and its page gains a reference. */
    method ShareSlot(mm: MemoryManager, i: nat)
      requires i < |pages| == |cow| && (pages[i] != 0 ==> pages[i] in mm.refCount)
      modifies this`cow, mm
      ensures cow == old(cow)[i := pages[i] != 0 || old(cow)[i]]
      ensures pages[i] == 0 ==> mm.Value() == old(mm.Value()) && mm.panicked == old(mm.panicked)
      ensures pages[i] != 0 ==>
                && mm.Value() == old(mm.Value().(refs := mm.refCount[pages[i] := mm.refCount[pages[i]] + 1]))
                && mm.panicked == (old(mm.panicked) || old(mm.refCount[pages[i]]) == 0xFFFF)
    {
      if pages[i] != 0 {
        cow := cow[i := true];
        mm.Ref(pages[i]);
      }
    }

    method BecomeCowAndRefPages(mm: MemoryManager)
      requires |cow| == |pages| && forall i: nat :: i < |pages| && cow[i] ==> pages[i] != 0
      requires forall i: nat :: i < |pages| && pages[i] != 0 ==> pages[i] in mm.refCount
      requires 0 !in mm.refCount
      modifies this, mm
      ensures Value() == CowAll(old(Value()))
      ensures mm.Value() == old(mm.Value()).(refs := RefAll(old(mm.refCount), pages))
      ensures mm.panicked <==> old(mm.panicked) || Overflows(old(mm.refCount), pages)
    {
      RefNone(mm.refCount);
      assert pages[..0] == [];
      hide RefAll, Overflows;
      for i := 0 to |pages|
        invariant pages == old(pages) && |cow| == |pages|
        invariant forall l: nat :: l < |pages| ==> cow[l] == if l < i then pages[l] != 0 else old(cow)[l]
        invariant mm.Value() == old(mm.Value()).(refs := RefAll(old(mm.refCount), pages[..i]))
        invariant mm.panicked <==> old(mm.panicked) || Overflows(old(mm.refCount), pages[..i])
      {
        RefNext(old(mm.refCount), pages, i);
        ShareSlot(mm, i);
      }
      assert pages[..|pages|] == pages;
      assert cow == CowAll(old(Value())).cow;
    }

    method Clone(mm: MemoryManager, ghost newId: nat) returns (c: VMObject)
      requires |cow| == |pages| && forall i: nat :: i < |pages| && cow[i] ==> pages[i] != 0
      requires forall i: nat :: i < |pages| && pages[i] != 0 ==> pages[i] in mm.refCount
      requires 0 !in mm.refCount
      modifies this, mm
      ensures fresh(c) && c.id == newId
      ensures Value() == c.Value() == CowAll(old(Value()))
      ensures mm.Value() == old(mm.Value()).(refs := RefAll(old(mm.refCount), pages))
      ensures mm.panicked <==> old(mm.panicked) || Overflows(old(mm.refCount), pages)
    {
      BecomeCowAndRefPages(mm);
      c := new VMObject(pages, true, newId);
    }

    /**
     The bound check lets a `page` equal to the number of slots through to the vector's own, which stops the kernel.
     */
    method TryFaultInPage(mm: MemoryManager, page: nat) returns (r: Result, didRead: bool, ghost q: nat)
      requires |pages| == |cow| && (page < |pages| && pages[page] == 0 ==> !cow[page])
      modifies this, mm
      ensures mm.panicked == old(mm.panicked)
      ensures r == Failure(EINVAL) <==> page > |old(pages)|
      ensures r.Stopped? <==> page == |old(pages)|
      ensures r == Failure(ENOMEM) <==> page < |old(pages)| && old(pages)[page] == 0 && old(mm.freePages) == {}
      ensures r.Success? || r.Stopped? || r == Failure(ENOMEM) || r == Failure(EINVAL)
      ensures didRead <==> r.Success? && page < |old(pages)| && old(pages)[page] == 0
      ensures !didRead ==> Value() == old(Value()) && mm.Value() == old(mm.Value())
      ensures didRead ==>
                page < |pages| && pages[page] in old(mm.freePages)
                && Value() == SetSlot(old(Value()), page, pages[page])
                && mm.Value() == Alloc(Mark(old(mm.Value()), q), pages[page], ZeroPage())
    {
      q := 0;
      if page > |pages| {
        return Failure(EINVAL), false, q;
      }
      if page >= |pages| {
        return Stopped, false, q;
      }
      if pages[page] != 0 {
        return Success, false, q;
      }
      var p;
      p, q := mm.AllocPhysicalPage();
      if p.NoPage? {
        return Failure(ENOMEM), false, q;
      }
      pages := pages[page := p.page];
      assert cow == cow[page := false];
      mm.ClearPage(p.page);
      r, didRead := Success, true;
    }

    /** The destructor; the object keeps no slots afterwards. */
    method Destroy(mm: MemoryManager, ghost objects: seq<Object>, ghost k: nat)
      requires MemInv(mm.Value(), objects) && k < |objects| && objects[k] == Value()
      modifies this, mm
      ensures mm.Value() == UnrefTo(old(mm.Value()), old(pages), |old(pages)|)
      ensures Value() == EMPTY && mm.panicked == old(mm.panicked)
    {
      for i := 0 to |pages|
        invariant Value() == old(Value()) && mm.panicked == old(mm.panicked)
        invariant mm.Value() == UnrefTo(old(mm.Value()), pages, i)
      {
        UnrefToKeeps(old(mm.Value()), objects, k, i);
        if pages[i] != 0 {
          assert RefExact(mm.refCount, objects[k := DroppedTo(objects[k], i)], pages[i]);
          mm.Unref(pages[i]);
        }
      }
      pages, cow := [], [];
    }
  }

  /** A region of an address space; it maps the first `size` pages of its object. */
  datatype VMRegion = VMRegion(start: nat, size: nat, vmo: VMObject, prot: VMProt)
  {
    ghost function Value(): Region { Region(start, size, vmo.id, prot) }
  }

  ghost function Values(regions: seq<VMRegion>): seq<Region> {
    seq(|regions|, j requires 0 <= j < |regions| => regions[j].Value())
  }

  /** An address space: its regions in address order of creation, and its page table. */
  class VMSpace {
    const start: nat
    const size: nat
    var regions: seq<VMRegion>
    var entries: map<nat, Entry>

    ghost function Value(): Space
      reads this
    {
      Space(Values(regions), entries)
    }

    /** Pages lo..hi lie in this space. */
    predicate Within(lo: nat, hi: nat) { Range().Within(lo, hi) }

    function Range(): ForkIsolation.Range { ForkIsolation.Range(start, size) }

    constructor (start: nat, size: nat)
      ensures this.start == start && this.size == size && regions == [] && entries == map[]
    {
      this.start, this.size := start, size;
      regions, entries := [], map[];
    }

    /** `PageDirectory::map` for pages lo..hi of a region of this space; it stops at a region that cannot be read. */
    method MapPages(region: VMRegion, lo: nat, hi: nat) returns (stopped: bool)
      requires lo <= hi <= |region.vmo.pages| == |region.vmo.cow|
      modifies this`entries
      ensures stopped <==> !region.prot.read
      ensures entries ==
              if stopped then old(entries) else MapEntries(old(entries), region.Value(), region.vmo.Value(), lo, hi)
    {
      if !region.prot.read {
        return true;
      }
      stopped := false;
      var o := region.vmo;
      for i := lo to hi
        invariant entries == MapEntries(old(entries), region.Value(), o.Value(), lo, i)
      {
        if o.pages[i] != 0 {
          entries := entries[region.start + i := Entry(o.pages[i], if o.cow[i] then false else region.prot.write)];
        }
      }
    }

    /** `PageDirectory::unmap` for a whole region. */
    method UnmapPages(region: VMRegion)
      modifies this`entries
      ensures entries == UnmapEntries(old(entries), region.Value())
    {
      for i := 0 to region.size
        invariant forall v :: v in entries <==> v in old(entries) && !(region.start <= v < region.start + i)
        invariant forall v :: v in entries ==> entries[v] == old(entries)[v]
      {
        entries := entries - {region.start + i};
      }
    }

    /** The first region that contains page v, if any. */
    method Lookup(v: nat) returns (j: nat)
      ensures j == FindRegion(Values(regions), v)
    {
      j := 0;
      while j < |regions|
        invariant j <= |regions|
        invariant forall l: nat :: l < j ==> !Values(regions)[l].Contains(v)
      {
        if regions[j].start <= v < regions[j].start + regions[j].size {
          assert Values(regions)[j].Contains(v);
          return;
        }
        j := j + 1;
      }
    }
  }

  /** All address spaces and the objects they map, over one physical memory. */
  class Kernel {
    const mm: MemoryManager
    ghost var objects: seq<VMObject>
    var spaces: seq<VMSpace>

    ghost predicate WellFormed()
      reads this, spaces
    {
      && (forall k: nat :: k < |objects| ==> objects[k].id == k)
      && (forall s: nat, s': nat :: s < s' < |spaces| ==> spaces[s] != spaces[s'])
      && (forall s: nat, j: nat :: s < |spaces| && j < |spaces[s].regions| ==>
            spaces[s].regions[j].vmo.id < |objects| && objects[spaces[s].regions[j].vmo.id] == spaces[s].regions[j].vmo)
    }

    ghost function State(): State
      reads this, mm, objects, spaces
    {
      CowState.State(mm.Value(),
                     seq(|objects|, k requires 0 <= k < |objects| reads this, objects => objects[k].Value()),
                     seq(|spaces|, s requires 0 <= s < |spaces| reads this, spaces => spaces[s].Value()))
    }

    ghost predicate Valid()
      reads this, mm, objects, spaces
    {
      WellFormed() && Inv(State())
    }

    /** What programs see: the reference model's state. */
    ghost function View(): Eager
      reads this, mm, objects, spaces
    {
      Abs(State())
    }

    constructor (pages: set<nat>, contents: map<nat, Page>, edges: set<nat>)
      requires 0 !in pages && contents.Keys == pages
      ensures Valid() && View() == Eager([], []) && fresh(mm) && spaces == [] && !mm.panicked
    {
      mm := new MemoryManager(pages, contents, edges);
      objects, spaces := [], [];
    }

    /** Slot i of the object behind region j is settled; map it and every space agrees again. */
    method MapFaulted(s: nat, j: nat, i: nat, ghost st: CowState.State)
      requires WellFormed() && Inv(st) && s < |spaces| && j < |spaces[s].regions| && i < spaces[s].regions[j].size
      requires HasRegion(st, s, j) && spaces[s].regions[j].Value() == st.spaces[s].regions[j]
               && spaces[s].regions[j].prot.read
      requires State() ==
                 CowState.State(mm.Value(), st.objects[spaces[s].regions[j].vmo.id := spaces[s].regions[j].vmo.Value()],
                                st.spaces)
      requires Settled(st, st.spaces[s].regions[j].id, i, mm.Value(), spaces[s].regions[j].vmo.Value())
      modifies spaces[s]
      ensures Valid() && View() == Abs(st) && spaces[s].regions == old(spaces[s].regions)
      ensures var region := spaces[s].regions[j];
              var v := region.start + i;
              v in spaces[s].entries && spaces[s].entries[v] == EntryFor(region.Value(), region.vmo.Value(), i)
    {
      var space := spaces[s];
      var region := space.regions[j];
      var stopped := space.MapPages(region, i, i + 1);
      assert State().objects == st.objects[region.vmo.id := region.vmo.Value()];
      assert State().spaces == Remapped(st, s, j, i, mm.Value(), region.vmo.Value()).spaces;
      RemappedKeeps(st, s, j, i, mm.Value(), region.vmo.Value());
    }

    /** Copy the committed page i of region j if it is CoW and may be written; its slot is then settled. */
    method CopyIfShared(s: nat, j: nat, i: nat) returns (r: Result)
      requires Valid() && s < |spaces| && j < |spaces[s].regions|
      requires i < |spaces[s].regions[j].vmo.pages| && spaces[s].regions[j].vmo.pages[i] != 0
      modifies mm, objects
      ensures WellFormed() && mm.panicked == old(mm.panicked) && (r.Success? || r == Failure(ENOMEM))
      ensures r.Failure? <==> old(mm.freePages) == {} && old(NeedsPage(spaces[s].regions[j], i))
      ensures Later(old(mm.Value()), mm.Value())
      ensures r.Failure? ==> State() == old(State())
      ensures var region, st := spaces[s].regions[j], old(State());
              r.Success? ==>
                && i < |region.vmo.cow| && !(region.prot.write && region.vmo.cow[i]) && region.vmo.id < |st.objects|
                && State() == CowState.State(mm.Value(), st.objects[region.vmo.id := region.vmo.Value()], st.spaces)
                && Settled(st, region.vmo.id, i, mm.Value(), region.vmo.Value())
    {
      hide Inv, Settled, Abs;
      ghost var st := State();
      var region := spaces[s].regions[j];
      var o := region.vmo;
      assert st.spaces[s].regions[j] == region.Value() && st.objects[o.id] == o.Value();
      CommittedSlot(st, o.id, i);
      r := Success;
      ghost var p, q: nat;
      if region.prot.write && o.cow[i] {
        r, p, q := o.TryCowPage(mm, i);
        if r.Success? {
          CopySettles(st, o.id, i, p, q);
        }
      } else {
        PresentSettles(st, o.id, i);
      }
      assert State().objects == st.objects[o.id := o.Value()];
      assert State().spaces == st.spaces;
      assert st.objects[o.id := st.objects[o.id]] == st.objects;
    }

    /** A committed page of region j: copy it if it is CoW and may be written, then map it. */
    method FaultCommitted(s: nat, j: nat, i: nat) returns (r: Result)
      requires Valid() && s < |spaces| && j < |spaces[s].regions| && i < spaces[s].regions[j].size
      requires i < |spaces[s].regions[j].vmo.pages| && spaces[s].regions[j].vmo.pages[i] != 0
               && spaces[s].regions[j].prot.read
      modifies mm, objects, spaces
      ensures Valid() && View() == old(View()) && mm.panicked == old(mm.panicked)
      ensures forall l: nat :: l < |spaces| ==> spaces[l].regions == old(spaces[l].regions)
      ensures Later(old(mm.Value()), mm.Value())
      ensures r.Success? || r == Failure(ENOMEM)
      ensures r.Failure? <==> old(mm.freePages) == {} && old(NeedsPage(spaces[s].regions[j], i))
      ensures r.Success? ==> Installed(s, j, i)
    {
      hide Inv, Settled, Abs;
      ghost var st := State();
      assert st.spaces[s].regions[j] == spaces[s].regions[j].Value();
      r := CopyIfShared(s, j, i);
      if r.Success? {
        MapFaulted(s, j, i, st);
      }
    }

    /** An uncommitted page of region j: commit a zeroed page and map it. */
    method FaultUncommitted(s: nat, j: nat, i: nat) returns (r: Result)
      requires Valid() && s < |spaces| && j < |spaces[s].regions| && i < spaces[s].regions[j].size
      requires i < |spaces[s].regions[j].vmo.pages| && spaces[s].regions[j].vmo.pages[i] == 0
               && spaces[s].regions[j].prot.read
      modifies mm, objects, spaces
      ensures Valid() && View() == old(View()) && mm.panicked == old(mm.panicked)
      ensures forall l: nat :: l < |spaces| ==> spaces[l].regions == old(spaces[l].regions)
      ensures Later(old(mm.Value()), mm.Value())
      ensures r.Success? || r == Failure(ENOMEM)
      ensures r.Failure? <==> old(mm.freePages) == {} && old(NeedsPage(spaces[s].regions[j], i))
      ensures r.Success? ==> Installed(s, j, i)
    {
      hide Inv, Settled, Abs;
      ghost var st := State();
      var region := spaces[s].regions[j];
      var o := region.vmo;
      assert st.spaces[s].regions[j] == region.Value() && st.objects[o.id] == o.Value();
      EmptySlot(st, o.id, i);
      var didRead;
      ghost var q;
      r, didRead, q := o.TryFaultInPage(mm, i);
      assert State().objects == st.objects[o.id := o.Value()];
      assert State().spaces == st.spaces;
      if r.Failure? {
        assert State().objects == st.objects;
        return;
      }
      if didRead {
        FaultInSettles(st, o.id, i, o.pages[i], q);
        MapFaulted(s, j, i, st);
      }
    }

    /** Page i of region j has an entry, writable exactly if the region is. */
    ghost predicate Installed(s: nat, j: nat, i: nat)
      reads this, spaces
    {
      && s < |spaces| && j < |spaces[s].regions|
      && var region := spaces[s].regions[j];
      && region.start + i in spaces[s].entries
      && spaces[s].entries[region.start + i].write == region.prot.write
    }

    /** A fault on page v takes a page: it lies in a region whose slot for it is empty, or CoW and to be written. */
    ghost predicate FaultTakesPage(s: nat, v: nat)
      requires s < |spaces|
      reads this, spaces, objects
    {
      var j := FindRegion(Values(spaces[s].regions), v);
      && j < |spaces[s].regions| && spaces[s].regions[j].vmo in objects
      && NeedsPage(spaces[s].regions[j], v - spaces[s].regions[j].start)
    }

    /** Page v has an entry that may be written through. */
    ghost predicate CanWrite(s: nat, v: nat)
      requires s < |spaces|
      reads this, spaces
    {
      v in spaces[s].entries && spaces[s].entries[v].write
    }

    /** Page i of region j, whatever its slot holds. */
    method ServeFault(s: nat, j: nat, i: nat) returns (r: Result)
      requires Valid() && s < |spaces| && j < |spaces[s].regions|
      requires i < spaces[s].regions[j].size && i < |spaces[s].regions[j].vmo.pages| && spaces[s].regions[j].prot.read
      modifies mm, objects, spaces
      ensures Valid() && View() == old(View()) && mm.panicked == old(mm.panicked)
      ensures spaces[s].regions == old(spaces[s].regions)
      ensures Later(old(mm.Value()), mm.Value())
      ensures r.Success? || r == Failure(ENOMEM)
      ensures r.Failure? <==> old(mm.freePages) == {} && old(NeedsPage(spaces[s].regions[j], i))
      ensures r.Success? ==> Installed(s, j, i)
    {
      hide Inv, Abs, WellFormed, Installed;
      if spaces[s].regions[j].vmo.pages[i] != 0 {
        r := FaultCommitted(s, j, i);
      } else {
        r := FaultUncommitted(s, j, i);
      }
    }

    /** `VMSpace::try_pagefault` for a fault at page v of space s. */
    method TryPagefault(s: nat, v: nat, fault: FaultType) returns (r: Result)
      requires Valid() && s < |spaces|
      modifies mm, objects, spaces
      ensures Valid() && View() == old(View()) && mm.panicked == old(mm.panicked)
      ensures r == Failure(ENOENT) <==> !Mapped(View(), s, v) && !spaces[s].Within(v, v + 1)
      ensures r == Failure(EINVAL) <==>
                if Mapped(View(), s, v) then Denied(RegionAt(View(), s, v).prot, fault) else spaces[s].Within(v, v + 1)
      ensures r == Failure(ENOMEM) <==>
                && old(mm.freePages) == {} && old(FaultTakesPage(s, v))
                && Mapped(View(), s, v) && !Denied(RegionAt(View(), s, v).prot, fault)
      ensures Later(old(mm.Value()), mm.Value())
      ensures !r.Stopped?
      ensures r.Success? ==> v in spaces[s].entries && spaces[s].entries[v].write == RegionAt(View(), s, v).prot.write
    {
      hide Inv, Abs, State, Valid, View, FaultTakesPage, NeedsPage, Mapped, RegionAt, FindRegion;
      var j := spaces[s].Lookup(v);
      LookupFacts(s, v, j);
      if j == |spaces[s].regions| {
        return Failure(if spaces[s].Within(v, v + 1) then EINVAL else ENOENT);
      }
      var region := spaces[s].regions[j];
      if (!region.prot.read && fault == Read) || (!region.prot.write && fault == Write)
         || (!region.prot.execute && fault == Execute) {
        return Failure(EINVAL);
      }
      r := ServeFault(s, j, v - region.start);
    }

    /** What the region found for page v, or that there is none, means for the reference model. */
    lemma LookupFacts(s: nat, v: nat, j: nat)
      requires Valid() && s < |spaces| && j == FindRegion(Values(spaces[s].regions), v)
      ensures j <= |spaces[s].regions| && (Mapped(View(), s, v) <==> j < |spaces[s].regions|)
      ensures j < |spaces[s].regions| ==>
                var region := spaces[s].regions[j];
                && RegionAt(View(), s, v) == region.Value() && region.start <= v < region.start + region.size
                && region.size <= |region.vmo.pages| && region.prot.read
                && (FaultTakesPage(s, v) <==> NeedsPage(region, v - region.start))
    {
      hide Inv, Abs;
      ghost var st := State();
      RegionFacts(st, s, v);
      assert st.spaces[s].regions == Values(spaces[s].regions);
      if j < |spaces[s].regions| {
        var region := spaces[s].regions[j];
        assert st.spaces[s].regions[j] == region.Value() && st.objects[region.vmo.id] == region.vmo.Value();
      }
    }

    /** A load through the page table, faulting the page in first if it has no entry. */
    method Load(s: nat, v: nat, off: nat) returns (r: Result, b: Byte)
      requires Valid() && s < |spaces| && off < PAGE_SIZE
      modifies mm, objects, spaces
      ensures Valid() && View() == old(View()) && mm.panicked == old(mm.panicked)
      ensures r.Success? ==> Mapped(View(), s, v) && b == EagerLoad(View(), s, v, off)
      ensures r.Success? ==> RegionAt(View(), s, v).prot.read
      ensures r.Failure? <==>
                || !Mapped(View(), s, v) || !RegionAt(View(), s, v).prot.read
                || (v !in old(spaces[s].entries) && old(FaultTakesPage(s, v)) && old(mm.freePages) == {})
      ensures Later(old(mm.Value()), mm.Value())
      ensures !r.Stopped?
    {
      hide Inv, Abs, FaultTakesPage;
      b := 0;
      if v !in spaces[s].entries {
        r := TryPagefault(s, v, Read);
        if r.Failure? {
          assert r.error == ENOENT || r.error == EINVAL || r.error == ENOMEM;
          return;
        }
      }
      EntryReads(State(), s, v);
      assert State().spaces[s].entries == spaces[s].entries;
      b := mm.frames[spaces[s].entries[v].page][off];
      r := Success;
    }

    /** A store through the page table; one fault is enough to make the page writable. */
    method Store(s: nat, v: nat, off: nat, b: Byte) returns (r: Result)
      requires Valid() && s < |spaces| && off < PAGE_SIZE
      modifies mm, objects, spaces
      ensures Valid() && mm.panicked == old(mm.panicked)
      ensures r.Success? ==> Mapped(old(View()), s, v) && RegionAt(old(View()), s, v).prot.write
                             && View() == EagerStore(old(View()), s, v, off, b)
      ensures r.Failure? ==> View() == old(View())
      ensures r.Failure? <==>
                || !Mapped(old(View()), s, v) || !RegionAt(old(View()), s, v).prot.write
                || (!old(CanWrite(s, v)) && old(FaultTakesPage(s, v)) && old(mm.freePages) == {})
      ensures Later(old(mm.Value()), mm.Value())
      ensures !r.Stopped?
    {
      hide Inv, Abs, FaultTakesPage;
      if v !in spaces[s].entries || !spaces[s].entries[v].write {
        r := TryPagefault(s, v, Write);
        if r.Failure? {
          assert r.error == ENOENT || r.error == EINVAL || r.error == ENOMEM;
          return;
        }
      }
      ghost var st := State();
      assert st.spaces[s].entries == spaces[s].entries;
      EntryReads(st, s, v);
      StoreKeeps(st, s, v, off, b);
      mm.StoreByte(spaces[s].entries[v].page, off, b);
      assert State().objects == st.objects;
      assert State().spaces == st.spaces;
      r := Success;
    }

    /** Clone the object behind region j and protect the pages of the region. */
    method CloneAndProtect(s: nat, j: nat) returns (o: VMObject)
      requires Valid() && s < |spaces| && j < |spaces[s].regions|
      requires HasRegion(State(), s, j) && RegionOk(State().spaces[s].regions[j], State().objects)
      modifies mm, objects, spaces
      ensures WellFormed() && State() == Protected(old(State()), s, j)
      ensures forall l: nat :: l < |spaces| ==> spaces[l].regions == old(spaces[l].regions)
      ensures fresh(o) && o.id == |objects| && o.Value() == CowAll(old(spaces[s].regions[j].vmo.Value()))
      ensures Later(old(mm.Value()), mm.Value())
      ensures Raised(old(mm.refCount), mm.refCount)
              && (mm.panicked <==> old(mm.panicked) || Passed(old(mm.refCount), mm.refCount))
    {
      hide Inv;
      ghost var st := State();
      var region := spaces[s].regions[j];
      assert st.spaces[s].regions[j] == region.Value() && st.objects[region.vmo.id] == region.vmo.Value();
      Clonable(st, region.vmo.id);
      o := region.vmo.Clone(mm, |objects|);
      RefAllRaises(st.mem.refs, region.vmo.pages);
      var stopped := spaces[s].MapPages(region, 0, region.size);
      assert State().objects == Protected(st, s, j).objects;
      assert State().spaces == Protected(st, s, j).spaces;
    }

    /** Add object o and map it into space c. */
    method Attach(c: nat, start: nat, size: nat, prot: VMProt, o: VMObject)
      requires WellFormed() && c < |spaces| && o.id == |objects| && size <= |o.pages| == |o.cow| && prot.read
      modifies this`objects, spaces
      ensures WellFormed() && State() == Attached(old(State()), c, Region(start, size, o.id, prot), o.Value())
      ensures forall l: nat :: l < |spaces| && l != c ==> spaces[l].regions == old(spaces[l].regions)
      ensures |spaces[c].regions| == old(|spaces[c].regions|) + 1 && objects == old(objects) + [o]
    {
      ghost var st := State();
      var space := spaces[c];
      var region := VMRegion(start, size, o, prot);
      var stopped := space.MapPages(region, 0, size);
      space.regions := space.regions + [region];
      objects := objects + [o];
      assert State().objects == st.objects + [o.Value()];
      assert space.Value().regions == st.spaces[c].regions + [region.Value()];
      assert State().spaces == Attached(st, c, region.Value(), o.Value()).spaces;
    }

    /** One region of `VMSpace::fork`: pages are shared, yet the child sees its own copy of the bytes. */
    method CloneRegion(s: nat, j: nat, c: nat)
      requires Valid() && s < |spaces| && c < |spaces| && s != c && j < |spaces[s].regions|
      requires forall l: nat :: l < |spaces[c].regions| ==>
                 Disjoint(spaces[c].regions[l].Value(), spaces[s].regions[j].Value())
      modifies this`objects, mm, objects, spaces
      ensures Valid() && EagerRegion(old(View()), s, j) && View() == EagerForkRegion(old(View()), s, j, c)
      ensures forall l: nat :: l < |spaces| && l != c ==> spaces[l].regions == old(spaces[l].regions)
      ensures |spaces[c].regions| == old(|spaces[c].regions|) + 1
      ensures forall o :: o in objects ==> o in old(objects) || fresh(o)
      ensures Later(old(mm.Value()), mm.Value())
      ensures Raised(old(mm.refCount), mm.refCount)
              && (mm.panicked <==> old(mm.panicked) || Passed(old(mm.refCount), mm.refCount))
    {
      hide Inv, Abs, EagerForkRegion, EagerRegion, Raised, Passed, ForkRegion, WellFormed;
      ghost var st := State();
      assert |st.spaces| == |spaces| && st.spaces[s].regions == Values(spaces[s].regions);
      assert st.spaces[c].regions == Values(spaces[c].regions);
      ForkRegionKeeps(st, s, j, c);
      ForkRegionCopies(st, s, j, c);
      Forkable(st, s);
      ShareRegion(s, j, c);
    }

    /** The same on the state itself. */
    method ShareRegion(s: nat, j: nat, c: nat)
      requires Valid() && s < |spaces| && c < |spaces| && s != c && j < |spaces[s].regions|
      requires HasRegion(State(), s, j) && RegionOk(State().spaces[s].regions[j], State().objects)
      modifies this`objects, mm, objects, spaces
      ensures WellFormed() && State() == ForkRegion(old(State()), s, j, c)
      ensures forall l: nat :: l < |spaces| && l != c ==> spaces[l].regions == old(spaces[l].regions)
      ensures |spaces[c].regions| == old(|spaces[c].regions|) + 1
      ensures forall o :: o in objects ==> o in old(objects) || fresh(o)
      ensures Later(old(mm.Value()), mm.Value())
      ensures Raised(old(mm.refCount), mm.refCount)
              && (mm.panicked <==> old(mm.panicked) || Passed(old(mm.refCount), mm.refCount))
    {
      hide Inv, Protected, Attached, Raised, Passed;
      var region := spaces[s].regions[j];
      assert State().spaces[s].regions[j] == region.Value() && State().objects[region.vmo.id] == region.vmo.Value();
      var o := CloneAndProtect(s, j);
      Attach(c, region.start, region.size, region.prot, o);
    }

    /** Add an empty address space. */
    method NewSpace(start: nat, size: nat) returns (space: VMSpace)
      requires Valid()
      modifies this`spaces
      ensures Valid() && fresh(space) && spaces == old(spaces) + [space] && space.regions == []
      ensures space.start == start && space.size == size
      ensures View() == old(View()).(spaces := old(View()).spaces + [[]])
    {
      hide Inv, Abs;
      ghost var st := State();
      AddSpaceKeeps(st);
      space := new VMSpace(start, size);
      spaces := spaces + [space];
      assert space.Value().regions == [];
      assert State().objects == st.objects;
      assert State().spaces == WithSpace(st).spaces;
    }

    /** The i-th region of space s is cloned into the child c of a fork of view e. */
    method ForkNext(s: nat, i: nat, c: nat, ghost e: Eager)
      requires Valid() && s < c < |spaces| && ForkableSpace(e, s) && c == |e.spaces| && i < |e.spaces[s]|
      requires forall j: nat, j': nat :: j < j' < |e.spaces[s]| ==> Disjoint(e.spaces[s][j], e.spaces[s][j'])
      requires View() == EagerForkTo(e, s, i) && |spaces[c].regions| == i
      requires Values(spaces[s].regions) == e.spaces[s]
      modifies this`objects, mm, objects, spaces
      ensures Valid() && View() == EagerForkTo(e, s, i + 1) && spaces[s].regions == old(spaces[s].regions)
      ensures |spaces[c].regions| == i + 1
      ensures forall o :: o in objects ==> o in old(objects) || fresh(o)
      ensures Later(old(mm.Value()), mm.Value())
      ensures Raised(old(mm.refCount), mm.refCount)
              && (mm.panicked <==> old(mm.panicked) || Passed(old(mm.refCount), mm.refCount))
    {
      hide Inv, Abs, EagerForkTo, EagerForkRegion;
      EagerForkNext(e, s, i);
      ForkedDisjoint(e, s, i);
      SameRegions(c);
      assert spaces[s].regions[i].Value() == e.spaces[s][i];
      assert forall l: nat :: l < i ==> spaces[c].regions[l].Value() == View().spaces[c][l];
      CloneRegion(s, i, c);
    }

    /**
     `VMSpace::fork`: page by page nothing is copied, yet the view is that of a full copy. The reference counts only
     grow, and the overflow panic is raised exactly when one of them passes 0xFFFF.
     */
    method Fork(s: nat) returns (c: nat)
      requires Valid() && s < |spaces|
      modifies this, mm, objects, spaces
      ensures Valid() && c == |old(spaces)| && |spaces| == c + 1 && spaces[..c] == old(spaces)
      ensures fresh(spaces[c]) && spaces[c].start == spaces[s].start && spaces[c].size == spaces[s].size
      ensures forall o :: o in objects ==> o in old(objects) || fresh(o)
      ensures ForkableSpace(old(View()), s) && View() == EagerFork(old(View()), s)
      ensures Later(old(mm.Value()), mm.Value())
      ensures Raised(old(mm.refCount), mm.refCount)
              && (mm.panicked <==> old(mm.panicked) || Passed(old(mm.refCount), mm.refCount))
    {
      hide Inv, Abs, EagerForkTo, Disjoint, WellFormed, Raised, Passed, Later;
      ghost var refs, mem := mm.refCount, mm.Value();
      LaterSame(mem);
      RaisedSame(refs);
      ghost var e := View();
      Forkable(State(), s);
      ForkStart(e, s);
      SameRegions(s);
      c := |spaces|;
      var parent := spaces[s];
      var child := NewSpace(parent.start, parent.size);
      for i := 0 to |parent.regions|
        invariant Valid() && spaces == old(spaces) + [child] && parent.regions == old(parent.regions)
        invariant fresh(child) && |child.regions| == i && View() == EagerForkTo(e, s, i)
        invariant forall o :: o in objects ==> o in old(objects) || fresh(o)
        invariant Raised(refs, mm.refCount) && (mm.panicked <==> old(mm.panicked) || Passed(refs, mm.refCount))
        invariant Later(mem, mm.Value())
      {
        assert forall l: nat :: l < |spaces| ==> spaces[l] in old(spaces) || fresh(spaces[l]);
        assert forall l: nat :: l < |objects| ==> objects[l] in old(objects) || fresh(objects[l]);
        ghost var before := mm.Value();
        ForkNext(s, i, c, e);
        RaisedTwice(refs, before.refs, mm.refCount);
        LaterTwice(mem, before, mm.Value());
      }
    }

    /** The view lists the regions of every space. */
    lemma SameSpaces()
      requires Valid()
      ensures |View().spaces| == |spaces|
      ensures forall s: nat :: s < |spaces| ==> View().spaces[s] == Values(spaces[s].regions)
    {
      forall s: nat | s < |spaces| ensures View().spaces[s] == Values(spaces[s].regions) {
        SameRegions(s);
      }
    }

    lemma SameRegions(s: nat)
      requires Valid() && s < |spaces|
      ensures View().spaces[s] == Values(spaces[s].regions)
      ensures |View().spaces| == |spaces|
    {
    }

    /**
     Map a fresh uncommitted object of n pages at virtual page `start` of space s. The kernel stops if the region is
     not to be readable.
     */
    method MapAnonymous(s: nat, start: nat, n: nat, prot: VMProt) returns (stopped: bool)
      requires Valid() && s < |spaces| && FreeRange(Values(spaces[s].regions), start, n)
      modifies this`objects, spaces
      ensures Valid() && (stopped <==> !prot.read)
      ensures View() == if stopped then old(View()) else EagerMap(old(View()), s, start, n, prot)
      ensures forall l: nat :: l < |objects| ==> objects[l] in old(objects) || fresh(objects[l])
    {
      hide Inv, Abs, EagerMap;
      if !prot.read {
        return true;
      }
      stopped := false;
      ghost var st := State();
      assert st.spaces[s].regions == Values(spaces[s].regions);
      MapKeeps(st, s, start, n, prot);
      var o := new VMObject(seq(n, _ => 0), false, |objects|);
      assert o.Value() == Uncommitted(n);
      assert State() == st by {
        assert State().objects == st.objects;
        assert State().spaces == st.spaces;
      }
      Attach(s, start, n, prot, o);
    }

    /** Region j of space s is gone from its space and page table. */
    method DetachRegion(s: nat, j: nat)
      requires WellFormed() && s < |spaces| && j < |spaces[s].regions|
      modifies spaces[s]
      ensures WellFormed()
      ensures var st := old(State()); var sp := st.spaces[s];
              && j < |sp.regions|
              && State() ==
                   st.(spaces := st.spaces[s := Space(Left(sp.regions, j), UnmapEntries(sp.entries, sp.regions[j]))])
    {
      hide UnmapEntries;
      ghost var st := State();
      var space := spaces[s];
      var region := space.regions[j];
      assert st.spaces[s] == space.Value() && st.spaces[s].regions[j] == region.Value();
      space.UnmapPages(region);
      space.regions := space.regions[..j] + space.regions[j + 1..];
      assert space.Value().regions == Left(st.spaces[s].regions, j);
      assert State().objects == st.objects;
      assert State().spaces == st.spaces[s := space.Value()];
    }

    /** Destroy region j of space s: unmap its pages and drop its object with every reference it holds. */
    method UnmapRegion(s: nat, j: nat)
      requires Valid() && s < |spaces| && j < |spaces[s].regions|
      modifies mm, objects, spaces
      ensures Valid() && EagerRegion(old(View()), s, j) && View() == EagerUnmap(old(View()), s, j)
      ensures Later(old(mm.Value()), mm.Value())
      ensures mm.panicked == old(mm.panicked)
    {
      hide Inv, Abs, EagerUnmap, UnrefTo, Left, UnmapEntries;
      ghost var st := State();
      var region := spaces[s].regions[j];
      assert st.spaces[s].regions[j] == region.Value() && st.objects[region.vmo.id] == region.vmo.Value();
      UnmapKeeps(st, s, j);
      DetachRegion(s, j);
      InvMem(st);
      ghost var detached := State();
      region.vmo.Destroy(mm, st.objects, region.vmo.id);
      assert State().objects == Unmapped(st, s, j).objects;
      assert State().spaces == detached.spaces;
    }

    /** What one operation leaves: a step of the reference model, with a cause if it failed. */
    twostate predicate Performed(op: ForkIsolation.Op, out: ForkIsolation.Outcome)
      reads this, mm, objects, spaces
    {
      && Valid() && ForkIsolation.Step(old(View()), op, out, View())
      && Ranges() == ForkIsolation.RangesAfter(old(Ranges()), op, out)
      && (out.Failed? <==> ForkIsolation.Fails(old(View()), old(Ranges()), Starved(old(State()), op), op))
      && Later(old(mm.Value()), mm.Value())
    }

    /** What starves an access, told on the state. */
    lemma StarvedIs(op: ForkIsolation.Op)
      requires Valid() && (op.Load? || op.Store?) && op.s < |spaces|
      ensures Starved(State(), op) <==>
                && mm.freePages == {} && FaultTakesPage(op.s, op.v)
                && if op.Load? then op.v !in spaces[op.s].entries else !CanWrite(op.s, op.v)
    {
      hide Inv;
      var st := State();
      assert st.spaces[op.s] == spaces[op.s].Value() && st.spaces[op.s].regions == Values(spaces[op.s].regions);
      var j := FindRegion(Values(spaces[op.s].regions), op.v);
      if j < |spaces[op.s].regions| {
        var region := spaces[op.s].regions[j];
        assert st.spaces[op.s].regions[j] == region.Value() && st.objects[region.vmo.id] == region.vmo.Value();
      }
    }

    /** Loads and stores. */
    method Access(op: ForkIsolation.Op) returns (out: ForkIsolation.Outcome)
      requires Valid() && (op.Load? || op.Store?)
      modifies mm, objects, spaces
      ensures Performed(op, out)
    {
      hide Inv, Abs, EagerStore;
      out := ForkIsolation.Failed;
      SameSpaces();
      if op.s >= |spaces| || op.off >= PAGE_SIZE {
        return;
      }
      StarvedIs(op);
      if op.Load? {
        var r, b := Load(op.s, op.v, op.off);
        if r.Success? {
          out := ForkIsolation.Loaded(b);
        }
      } else {
        var r := Store(op.s, op.v, op.off, op.b);
        if r.Success? {
          out := ForkIsolation.Done;
        }
      }
    }

    /** Mappings and unmappings. */
    method Change(op: ForkIsolation.Op) returns (out: ForkIsolation.Outcome)
      requires Valid() && (op.Map? || op.Unmap?)
      modifies this`objects, mm, objects, spaces
      ensures Performed(op, out)
      ensures forall l: nat :: l < |objects| ==> objects[l] in old(objects) || fresh(objects[l])
    {
      hide Inv, Abs, EagerMap, EagerUnmap;
      out := ForkIsolation.Failed;
      SameSpaces();
      if op.Map? {
        if op.s < |spaces| && spaces[op.s].Within(op.start, op.start + op.n)
           && RangeFree(spaces[op.s].regions, op.start, op.n) {
          var stopped := MapAnonymous(op.s, op.start, op.n, op.prot);
          out := if stopped then ForkIsolation.Stopped else ForkIsolation.Done;
        }
      } else if op.s < |spaces| && op.j < |spaces[op.s].regions| {
        UnmapRegion(op.s, op.j);
        out := ForkIsolation.Done;
      }
    }

    /** New spaces, by forking or from scratch. */
    method Extend(op: ForkIsolation.Op) returns (out: ForkIsolation.Outcome)
      requires Valid() && (op.Fork? || op.Spawn?)
      modifies this, mm, objects, spaces
      ensures Performed(op, out)
      ensures forall l: nat :: l < |objects| ==> objects[l] in old(objects) || fresh(objects[l])
      ensures forall l: nat :: l < |spaces| ==> spaces[l] in old(spaces) || fresh(spaces[l])
    {
      hide Inv, Abs, EagerForkTo;
      out := ForkIsolation.Failed;
      SameSpaces();
      match op
      case Fork(s) =>
        if s < |spaces| {
          var c := Fork(s);
          out := ForkIsolation.Done;
        }
      case Spawn(start, size) =>
        var space := NewSpace(start, size);
        out := ForkIsolation.Done;
    }

    /** One operation; an operation on a space or region that does not exist, or over mapped pages, fails. */
    method Perform(op: ForkIsolation.Op) returns (out: ForkIsolation.Outcome)
      requires Valid()
      modifies this, mm, objects, spaces
      ensures Performed(op, out)
      ensures forall l: nat :: l < |objects| ==> objects[l] in old(objects) || fresh(objects[l])
      ensures forall l: nat :: l < |spaces| ==> spaces[l] in old(spaces) || fresh(spaces[l])
    {
      hide Performed;
      if op.Load? || op.Store? {
        out := Access(op);
      } else if op.Map? || op.Unmap? {
        out := Change(op);
      } else {
        out := Extend(op);
      }
    }

    /** Where the spaces lie. */
    ghost function Ranges(): seq<ForkIsolation.Range>
      reads this`spaces
    {
      var all := spaces;
      seq(|all|, s requires 0 <= s < |all| => all[s].Range())
    }

    /** Any run of the kernel is a run of the reference model: lazy sharing behaves like eager copying. */
    method Run(ops: seq<ForkIsolation.Op>)
      returns (outs: seq<ForkIsolation.Outcome>, ghost states: seq<CowState.State>,
               ghost ranges: seq<seq<ForkIsolation.Range>>)
      requires Valid()
      modifies this, mm, objects, spaces
      ensures Valid() && |outs| <= |ops| && (|outs| < |ops| ==> outs != [] && outs[|outs| - 1].Stopped?)
      ensures KernelRun(states, ranges, ops[..|outs|], outs)
      ensures states[0] == old(State()) && ranges[0] == old(Ranges())
      ensures states[|outs|] == State() && ranges[|outs|] == Ranges()
    {
      hide Inv, Abs, ForkIsolation.Step, ForkIsolation.Separate, ForkIsolation.Fails, ForkIsolation.RangesAfter;
      outs, states, ranges := [], [State()], [Ranges()];
      AbsSeparate(State());
      while |outs| < |ops| && (outs != [] ==> !outs[|outs| - 1].Stopped?)
        invariant Valid() && |outs| <= |ops| && KernelRun(states, ranges, ops[..|outs|], outs)
        invariant states[0] == old(State()) && ranges[0] == old(Ranges())
        invariant states[|outs|] == State() && ranges[|outs|] == Ranges()
        invariant forall l: nat :: l < |objects| ==> objects[l] in old(objects) || fresh(objects[l])
        invariant forall l: nat :: l < |spaces| ==> spaces[l] in old(spaces) || fresh(spaces[l])
        decreases |ops| - |outs|
      {
        var out := Perform(ops[|outs|]);
        AbsSeparate(State());
        RunExtends(states, ranges, ops, outs, State(), Ranges(), out);
        outs, states, ranges := outs + [out], states + [State()], ranges + [Ranges()];
      }
    }
  }

  /**
   The states of a run: each keeps the invariant, each step is one of the reference model, and a failure has a cause.
   */
  ghost predicate KernelRun(states: seq<State>, ranges: seq<seq<ForkIsolation.Range>>, ops: seq<ForkIsolation.Op>,
                            outs: seq<ForkIsolation.Outcome>) {
    && |states| == |ranges| == |ops| + 1 == |outs| + 1
    && (forall i: nat :: i < |states| ==> Inv(states[i]) && ForkIsolation.Separate(Abs(states[i])))
    && (forall i: nat :: i < |ops| ==> KernelStep(states[i], ranges[i], ops[i], outs[i], states[i + 1], ranges[i + 1]))
  }

  ghost predicate KernelStep(st: State, ranges: seq<ForkIsolation.Range>, op: ForkIsolation.Op,
                             out: ForkIsolation.Outcome,
                             st': State, ranges': seq<ForkIsolation.Range>)
  {
    && ForkIsolation.Step(Abs(st), op, out, Abs(st')) && ranges' == ForkIsolation.RangesAfter(ranges, op, out)
    && (out.Failed? <==> ForkIsolation.Fails(Abs(st), ranges, Starved(st, op), op)) && Later(st.mem, st'.mem)
  }

  lemma RunExtends(states: seq<State>, ranges: seq<seq<ForkIsolation.Range>>, ops: seq<ForkIsolation.Op>,
                   outs: seq<ForkIsolation.Outcome>,
                   st: State, ranges': seq<ForkIsolation.Range>, out: ForkIsolation.Outcome)
    requires |outs| < |ops| && KernelRun(states, ranges, ops[..|outs|], outs) && Inv(st)
             && ForkIsolation.Separate(Abs(st))
    requires KernelStep(states[|outs|], ranges[|outs|], ops[|outs|], out, st, ranges')
    ensures KernelRun(states + [st], ranges + [ranges'], ops[..|outs| + 1], outs + [out])
  {
    hide KernelStep, Inv, Abs;
  }

  /** What programs see along a run is a run of the reference model. */
  lemma ViewsRun(states: seq<State>, ranges: seq<seq<ForkIsolation.Range>>, ops: seq<ForkIsolation.Op>,
                 outs: seq<ForkIsolation.Outcome>)
    requires KernelRun(states, ranges, ops, outs)
    ensures ForkIsolation.Run(seq(|states|, i requires 0 <= i < |states| => Abs(states[i])), ops, outs)
  {
    hide Abs, ForkIsolation.Step;
    assert forall i: nat :: i < |ops| ==>
             KernelStep(states[i], ranges[i], ops[i], outs[i], states[i + 1], ranges[i + 1]);
  }

  /**
   Over any run of a new kernel, a load that succeeds returns the byte last stored at its address, in the same space or,
   before a fork, in the space it was forked from; 0 if there was no store since the page was mapped.
   */
  lemma LoadsRemember(states: seq<State>, ranges: seq<seq<ForkIsolation.Range>>, ops: seq<ForkIsolation.Op>,
                      outs: seq<ForkIsolation.Outcome>, n: nat)
    requires KernelRun(states, ranges, ops, outs) && Abs(states[0]) == Eager([], [])
    requires n < |ops| && ops[n].Load? && outs[n].Loaded?
    ensures outs[n].b == LastStore.LastStored(ops, outs, n, ops[n].s, ops[n].v, ops[n].off)
  {
    hide Abs, KernelStep, ForkIsolation.Run;
    var trace := seq(|states|, i requires 0 <= i < |states| => Abs(states[i]));
    ViewsRun(states, ranges, ops, outs);
    LastStore.LoadRemembers(trace, ops, outs, n);
  }

  /** Over a run a page that leaked is never free and never held again. */
  lemma {:induction false} LeakedForever(states: seq<State>, ranges: seq<seq<ForkIsolation.Range>>,
                                         ops: seq<ForkIsolation.Op>, outs: seq<ForkIsolation.Outcome>, i: nat, j: nat,
                                         p: nat)
    requires KernelRun(states, ranges, ops, outs) && i <= j < |states| && p in states[i].mem.Leaked()
    ensures p in states[j].mem.Leaked() && p !in states[j].mem.free && Holders(states[j].objects, p) == 0
    decreases j
  {
    hide Abs, ForkIsolation.Step, ForkIsolation.Separate, ForkIsolation.Fails, ForkIsolation.RangesAfter;
    if i < j {
      LeakedForever(states, ranges, ops, outs, i, j - 1, p);
      assert KernelStep(states[j - 1], ranges[j - 1], ops[j - 1], outs[j - 1], states[j], ranges[j]);
    }
    assert Inv(states[j]);
    FreeExactlyWhenUnheld(states[j], p);
  }

  predicate RangeFree(regions: seq<VMRegion>, start: nat, n: nat): (r: bool)
    ensures r <==> FreeRange(Values(regions), start, n)
  {
    assert forall l: nat :: l < |regions| ==> Values(regions)[l] == regions[l].Value();
    forall l :: 0 <= l < |regions| ==> regions[l].start + regions[l].size <= start || start + n <= regions[l].start
  }

  lemma AbsSeparate(st: State)
    requires Inv(st)
    ensures ForkIsolation.Separate(Abs(st))
  {
    assert forall s: nat :: s < |st.spaces| ==> Abs(st).spaces[s] == st.spaces[s].regions;
    forall s: nat, j: nat | s < |st.spaces| && j < |st.spaces[s].regions|
      ensures st.spaces[s].regions[j].id < |st.objects|
    {
      assert RegionOk(st.spaces[s].regions[j], st.objects);
    }
  }

  /** A fault on page i of the region takes a free page: the slot is empty, or CoW in a region that may be written. */
  ghost predicate NeedsPage(region: VMRegion, i: int)
    reads region.vmo
  {
    SlotNeedsPage(region.vmo.Value(), i, region.prot)
  }

  /** The page has no entry that serves the access, its slot is empty or to be copied, and no page is free. */
  ghost predicate Starved(st: State, op: ForkIsolation.Op) {
    && (op.Load? || op.Store?) && st.mem.free == {} && op.s < |st.spaces|
    && var sp := st.spaces[op.s];
    && !(op.v in sp.entries && (op.Store? ==> sp.entries[op.v].write))
    && var j := FindRegion(sp.regions, op.v);
    && j < |sp.regions| && sp.regions[j].id < |st.objects|
    && SlotNeedsPage(st.objects[sp.regions[j].id], op.v - sp.regions[j].start, sp.regions[j].prot)
  }

  ghost predicate SlotNeedsPage(o: Object, i: int, prot: VMProt) {
    0 <= i < |o.pages| == |o.cow| && (o.pages[i] == 0 || (prot.write && o.cow[i]))
  }

  predicate Denied(prot: VMProt, fault: FaultType) {
    match fault
    case Read => !prot.read
    case Write => !prot.write
    case Execute => !prot.execute
  }
}
