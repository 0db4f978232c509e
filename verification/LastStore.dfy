/**
 What programs see, without objects and regions: each page of each space is unmapped, or has a protection and bytes.
 The operations of the reference model are told on these pages, and what a load returns is told on the operations alone:
 the byte last stored there, through forks, or 0 if nothing was stored since the page was mapped.
 */
module LastStore {
  import opened CowState
  import opened CowSteps
  import opened ForkIsolation

  datatype Cell = Absent | Present(prot: VMProt, bytes: Page)

  ghost function CellAt(e: Eager, s: nat, v: nat): Cell {
    if Mapped(e, s, v) then
      var r := RegionAt(e, s, v);
      Present(r.prot, e.objects[r.id][v - r.start])
    else Absent
  }

  /** Every region maps an object of its own, lies inside it, and overlaps no other region of its space. */
  ghost predicate Tidy(e: Eager) {
    && Separate(e)
    && (forall s: nat, j: nat :: s < |e.spaces| && j < |e.spaces[s]| ==> Inside(e, s, j))
    && (forall s: nat, j: nat, j': nat :: s < |e.spaces| && j < j' < |e.spaces[s]| ==>
          Clear(e.spaces[s][j], e.spaces[s][j']))
  }

  ghost predicate Inside(e: Eager, s: nat, j: nat)
    requires s < |e.spaces| && j < |e.spaces[s]|
  {
    e.spaces[s][j].id < |e.objects| && e.spaces[s][j].size <= |e.objects[e.spaces[s][j].id]|
  }

  predicate Clear(r: Region, r': Region) {
    r.start + r.size <= r'.start || r'.start + r'.size <= r.start || r.size == 0 || r'.size == 0
  }

  // ---------- Cells and regions ----------

  /** A page in region j shows what that region says of it. */
  lemma CellIn(e: Eager, s: nat, j: nat, v: nat)
    requires Tidy(e) && s < |e.spaces| && j < |e.spaces[s]| && e.spaces[s][j].Contains(v)
    ensures Inside(e, s, j) && FindRegion(e.spaces[s], v) == j && Mapped(e, s, v)
    ensures var r := e.spaces[s][j]; CellAt(e, s, v) == Present(r.prot, e.objects[r.id][v - r.start])
  {
    var l := FindRegion(e.spaces[s], v);
    assert Inside(e, s, j);
    assert l < j ==> Clear(e.spaces[s][l], e.spaces[s][j]);
  }

  lemma CellOut(e: Eager, s: nat, v: nat)
    requires s < |e.spaces| ==> forall j: nat :: j < |e.spaces[s]| ==> !e.spaces[s][j].Contains(v)
    ensures CellAt(e, s, v) == Absent
  {
  }

  /** Two states in which page v of a space each lies in regions with the same bytes and protection, or in none. */
  lemma SameCell(e: Eager, s: nat, e': Eager, s': nat, v: nat)
    requires Tidy(e) && Tidy(e') && s < |e.spaces| && s' < |e'.spaces|
    requires forall j: nat :: j < |e.spaces[s]| && e.spaces[s][j].Contains(v) ==>
               exists j': nat :: Alike(e, s, j, e', s', j')
    requires forall j': nat :: j' < |e'.spaces[s']| && e'.spaces[s'][j'].Contains(v) ==>
               exists j: nat :: Alike(e, s, j, e', s', j')
    ensures CellAt(e', s', v) == CellAt(e, s, v)
  {
    if j: nat :| j < |e.spaces[s]| && e.spaces[s][j].Contains(v) {
      var j': nat :| Alike(e, s, j, e', s', j');
      CellIn(e, s, j, v);
      CellIn(e', s', j', v);
    } else {
      CellOut(e, s, v);
      CellOut(e', s', v);
    }
  }

  ghost predicate Alike(e: Eager, s: nat, j: nat, e': Eager, s': nat, j': nat)
    requires s < |e.spaces| && s' < |e'.spaces|
  {
    && j < |e.spaces[s]| && j' < |e'.spaces[s']|
    && var r, r' := e.spaces[s][j], e'.spaces[s'][j'];
    && r.start == r'.start && r.size == r'.size && r.prot == r'.prot
    && r.id < |e.objects| && r'.id < |e'.objects| && e.objects[r.id] == e'.objects[r'.id]
  }

  // ---------- The operations, on cells ----------

  lemma StoreTidy(e: Eager, s: nat, v: nat, off: nat, b: Byte)
    requires Tidy(e) && Mapped(e, s, v) && off < PAGE_SIZE
    ensures Tidy(EagerStore(e, s, v, off, b))
  {
    var e' := EagerStore(e, s, v, off, b);
    assert e'.spaces == e.spaces && |e'.objects| == |e.objects|;
    forall l: nat, j: nat | l < |e'.spaces| && j < |e'.spaces[l]| ensures Inside(e', l, j) {
      assert Inside(e, l, j);
    }
  }

  /** A store changes one byte of one page of one space. */
  lemma StoreCell(e: Eager, s: nat, v: nat, off: nat, b: Byte, s': nat, v': nat)
    requires Tidy(e) && Mapped(e, s, v) && off < PAGE_SIZE
    ensures var c := CellAt(e, s, v);
            CellAt(EagerStore(e, s, v, off, b), s', v') ==
              if s' == s && v' == v then Present(c.prot, c.bytes[off := b]) else CellAt(e, s', v')
  {
    var e' := EagerStore(e, s, v, off, b);
    StoreTidy(e, s, v, off, b);
    var j := FindRegion(e.spaces[s], v);
    CellIn(e, s, j, v);
    CellIn(e', s, j, v);
    if s' < |e.spaces| {
      if j': nat :| j' < |e.spaces[s']| && e.spaces[s'][j'].Contains(v') {
        CellIn(e, s', j', v');
        CellIn(e', s', j', v');
      } else {
        CellOut(e, s', v');
        CellOut(e', s', v');
      }
    }
  }

  lemma ForkTidy(e: Eager, s: nat)
    requires Tidy(e) && ForkableSpace(e, s)
    ensures Tidy(EagerFork(e, s))
  {
    var e' := EagerFork(e, s);
    ForkSeparate(e, s);
    forall l: nat, j: nat | l < |e'.spaces| && j < |e'.spaces[l]| ensures Inside(e', l, j) {
      assert Inside(e, if l < |e.spaces| then l else s, j);
    }
    forall l: nat, j: nat, j': nat | l < |e'.spaces| && j < j' < |e'.spaces[l]|
      ensures Clear(e'.spaces[l][j], e'.spaces[l][j'])
    {
      var l0 := if l < |e.spaces| then l else s;
      assert Clear(e.spaces[l0][j], e.spaces[l0][j']);
    }
  }

  /** A fork gives the new space every page of the old one. */
  lemma ForkCell(e: Eager, s: nat, s': nat, v: nat)
    requires Tidy(e) && ForkableSpace(e, s)
    ensures CellAt(EagerFork(e, s), s', v) == CellAt(e, if s' == |e.spaces| then s else s', v)
  {
    var e' := EagerFork(e, s);
    ForkTidy(e, s);
    var l := if s' == |e.spaces| then s else s';
    if s' <= |e.spaces| {
      forall j: nat | j < |e.spaces[l]| && e.spaces[l][j].Contains(v) ensures Alike(e, l, j, e', s', j) {
        assert Inside(e, l, j);
      }
      forall j: nat | j < |e'.spaces[s']| && e'.spaces[s'][j].Contains(v) ensures Alike(e, l, j, e', s', j) {
        assert Inside(e, l, j);
      }
      SameCell(e, l, e', s', v);
    }
  }

  lemma MapTidy(e: Eager, s: nat, start: nat, n: nat, prot: VMProt)
    requires Tidy(e) && s < |e.spaces| && FreeRange(e.spaces[s], start, n)
    ensures Tidy(EagerMap(e, s, start, n, prot))
  {
    var e' := EagerMap(e, s, start, n, prot);
    MapSeparate(e, s, start, n, prot);
    forall l: nat, j: nat | l < |e'.spaces| && j < |e'.spaces[l]| ensures Inside(e', l, j) {
      if j < |e.spaces[l]| {
        assert Inside(e, l, j);
      }
    }
    forall l: nat, j: nat, j': nat | l < |e'.spaces| && j < j' < |e'.spaces[l]|
      ensures Clear(e'.spaces[l][j], e'.spaces[l][j'])
    {
      if j' < |e.spaces[l]| {
        assert Clear(e.spaces[l][j], e.spaces[l][j']);
      }
    }
  }

  /** A mapping shows zeros in its range and nothing new elsewhere. */
  lemma MapCell(e: Eager, s: nat, start: nat, n: nat, prot: VMProt, s': nat, v: nat)
    requires Tidy(e) && s < |e.spaces| && FreeRange(e.spaces[s], start, n)
    ensures CellAt(EagerMap(e, s, start, n, prot), s', v) ==
              if s' == s && start <= v < start + n then Present(prot, ZeroPage()) else CellAt(e, s', v)
  {
    var e' := EagerMap(e, s, start, n, prot);
    MapTidy(e, s, start, n, prot);
    if s' == s && start <= v < start + n {
      CellIn(e', s, |e.spaces[s]|, v);
    } else if s' < |e.spaces| {
      forall j: nat | j < |e.spaces[s']| && e.spaces[s'][j].Contains(v) ensures Alike(e, s', j, e', s', j) {
        assert Inside(e, s', j);
      }
      forall j: nat | j < |e'.spaces[s']| && e'.spaces[s'][j].Contains(v) ensures Alike(e, s', j, e', s', j) {
        assert j < |e.spaces[s']|;
        assert Inside(e, s', j);
      }
      SameCell(e, s', e', s', v);
    }
  }

  lemma UnmapTidy(e: Eager, s: nat, j: nat)
    requires Tidy(e) && EagerRegion(e, s, j)
    ensures Tidy(EagerUnmap(e, s, j))
  {
    var e' := EagerUnmap(e, s, j);
    UnmapSeparate(e, s, j);
    forall l: nat, i: nat | l < |e'.spaces| && i < |e'.spaces[l]| ensures Inside(e', l, i) {
      UnmapAt(e, s, j, l, i);
      assert Inside(e, l, if l == s && i >= j then i + 1 else i);
    }
    forall l: nat, i: nat, i': nat | l < |e'.spaces| && i < i' < |e'.spaces[l]|
      ensures Clear(e'.spaces[l][i], e'.spaces[l][i'])
    {
      UnmapAt(e, s, j, l, i);
      UnmapAt(e, s, j, l, i');
      var i0, i1 := if l == s && i >= j then i + 1 else i, if l == s && i' >= j then i' + 1 else i';
      assert Clear(e.spaces[l][i0], e.spaces[l][i1]);
    }
  }

  /** A region that remains, and where it was. */
  lemma RemainsAt(e: Eager, s: nat, j: nat, s': nat, i': nat, v: nat)
    requires Tidy(e) && EagerRegion(e, s, j) && s' < |e.spaces| && i' < |EagerUnmap(e, s, j).spaces[s']|
    requires EagerUnmap(e, s, j).spaces[s'][i'].Contains(v)
    ensures Alike(e, s', if s' == s && i' >= j then i' + 1 else i', EagerUnmap(e, s, j), s', i')
    ensures !(s' == s && e.spaces[s][j].Contains(v))
  {
    UnmapAt(e, s, j, s', i');
    var i := if s' == s && i' >= j then i' + 1 else i';
    assert Inside(e, s', i);
    assert s' == s ==> Clear(e.spaces[s][if i < j then i else j], e.spaces[s][if i < j then j else i]);
  }

  /** Unmapping a region takes away its pages and no other. */
  lemma UnmapCell(e: Eager, s: nat, j: nat, s': nat, v: nat)
    requires Tidy(e) && EagerRegion(e, s, j)
    ensures CellAt(EagerUnmap(e, s, j), s', v) ==
              if s' == s && e.spaces[s][j].Contains(v) then Absent else CellAt(e, s', v)
  {
    var e' := EagerUnmap(e, s, j);
    UnmapTidy(e, s, j);
    UnmapSizes(e, s, j);
    if s' < |e.spaces| {
      forall i': nat | i' < |e'.spaces[s']| && e'.spaces[s'][i'].Contains(v)
        ensures Alike(e, s', if s' == s && i' >= j then i' + 1 else i', e', s', i')
        ensures !(s' == s && e.spaces[s][j].Contains(v))
      {
        RemainsAt(e, s, j, s', i', v);
      }
      if s' == s && e.spaces[s][j].Contains(v) {
        CellOut(e', s', v);
      } else {
        forall i: nat | i < |e.spaces[s']| && e.spaces[s'][i].Contains(v)
          ensures Alike(e, s', i, e', s', if s' == s && i > j then i - 1 else i)
        {
          UnmapAt(e, s, j, s', if s' == s && i > j then i - 1 else i);
          assert Inside(e, s', i);
        }
        hide Tidy, EagerUnmap, CellAt;
        SameCell(e, s', e', s', v);
      }
    }
  }

  lemma SpawnTidy(e: Eager)
    requires Tidy(e)
    ensures Tidy(e.(spaces := e.spaces + [[]]))
  {
    var e' := e.(spaces := e.spaces + [[]]);
    SpawnSeparate(e);
    forall l: nat, j: nat | l < |e'.spaces| && j < |e'.spaces[l]| ensures Inside(e', l, j) {
      assert Inside(e, l, j);
    }
  }

  lemma SpawnCell(e: Eager, s: nat, v: nat)
    requires Tidy(e)
    ensures CellAt(e.(spaces := e.spaces + [[]]), s, v) == CellAt(e, s, v)
  {
    var e' := e.(spaces := e.spaces + [[]]);
    SpawnTidy(e);
    if s < |e.spaces| {
      forall j: nat | j < |e.spaces[s]| && e.spaces[s][j].Contains(v) ensures Alike(e, s, j, e', s, j) {
        assert Inside(e, s, j);
      }
      forall j: nat | j < |e'.spaces[s]| && e'.spaces[s][j].Contains(v) ensures Alike(e, s, j, e', s, j) {
        assert Inside(e, s, j);
      }
      SameCell(e, s, e', s, v);
    } else {
      CellOut(e', s, v);
    }
  }

  // ---------- Runs ----------

  /** What page v of space s shows after an operation that succeeded, from what the pages showed before it. */
  ghost function CellAfter(e: Eager, op: Op, s: nat, v: nat): Cell {
    match op
    case Store(t, w, off, b) =>
      if s == t && v == w && CellAt(e, t, w).Present? && off < PAGE_SIZE
      then CellAt(e, s, v).(bytes := CellAt(e, s, v).bytes[off := b])
      else CellAt(e, s, v)
    case Fork(t) => CellAt(e, if s == |e.spaces| then t else s, v)
    case Map(t, start, n, prot) =>
      if s == t && start <= v < start + n then Present(prot, ZeroPage()) else CellAt(e, s, v)
    case Unmap(t, j) =>
      if s == t && EagerRegion(e, t, j) && e.spaces[t][j].Contains(v) then Absent else CellAt(e, s, v)
    case _ => CellAt(e, s, v)
  }

  /** Every operation does to the pages just what it should, and leaves regions tidy. */
  lemma StepCell(e: Eager, op: Op, out: Outcome, e': Eager, s: nat, v: nat)
    requires Tidy(e) && Step(e, op, out, e')
    ensures Tidy(e')
    ensures CellAt(e', s, v) == if out.Done? then CellAfter(e, op, s, v) else CellAt(e, s, v)
  {
    hide Tidy, CellAt, EagerStore, EagerMap, EagerUnmap, EagerForkTo, Mapped, RegionAt;
    if out.Done? {
      match op {
        case Store(t, w, off, b) =>
          StoreTidy(e, t, w, off, b);
          StoreCell(e, t, w, off, b, s, v);
          PresentIs(e, t, w);
        case Fork(t) =>
          ForkTidy(e, t);
          ForkCell(e, t, s, v);
        case Map(t, start, n, prot) =>
          MapTidy(e, t, start, n, prot);
          MapCell(e, t, start, n, prot, s, v);
        case Unmap(t, j) =>
          UnmapTidy(e, t, j);
          UnmapCell(e, t, j, s, v);
        case Spawn(_, _) =>
          SpawnTidy(e);
          SpawnCell(e, s, v);
        case Load(_, _, _) =>
      }
    }
  }

  lemma PresentIs(e: Eager, s: nat, v: nat)
    ensures CellAt(e, s, v).Present? <==> Mapped(e, s, v)
    ensures Mapped(e, s, v) ==> CellAt(e, s, v).prot == RegionAt(e, s, v).prot
    ensures Mapped(e, s, v) ==>
              forall off: nat :: off < PAGE_SIZE ==> CellAt(e, s, v).bytes[off] == EagerLoad(e, s, v, off)
  {
  }

  /** How many spaces there are after the first n operations of a run that started with none. */
  function SpaceCount(ops: seq<Op>, outs: seq<Outcome>, n: nat): nat
    requires n <= |ops| == |outs|
  {
    if n == 0 then 0
    else SpaceCount(ops, outs, n - 1) + if outs[n - 1].Done? && (ops[n - 1].Fork? || ops[n - 1].Spawn?) then 1 else 0
  }

  /** The byte last stored at (s, v, off) in the first n operations: before a fork, by the parent; 0 since a mapping. */
  function LastStored(ops: seq<Op>, outs: seq<Outcome>, n: nat, s: nat, v: nat, off: nat): Byte
    requires n <= |ops| == |outs|
  {
    if n == 0 then 0
    else if !outs[n - 1].Done? then LastStored(ops, outs, n - 1, s, v, off)
    else
      match ops[n - 1]
      case Store(t, w, o, b) =>
        if (t, w, o) == (s, v, off) then b else LastStored(ops, outs, n - 1, s, v, off)
      case Map(t, start, size, _) =>
        if t == s && start <= v < start + size then 0 else LastStored(ops, outs, n - 1, s, v, off)
      case Fork(t) =>
        LastStored(ops, outs, n - 1, if s == SpaceCount(ops, outs, n - 1) then t else s, v, off)
      case _ => LastStored(ops, outs, n - 1, s, v, off)
  }

  lemma {:induction false} RunTidy(trace: seq<Eager>, ops: seq<Op>, outs: seq<Outcome>, n: nat)
    requires Run(trace, ops, outs) && trace[0] == Eager([], []) && n < |trace|
    ensures Tidy(trace[n]) && |trace[n].spaces| == SpaceCount(ops, outs, n)
  {
    hide Step;
    if n > 0 {
      RunTidy(trace, ops, outs, n - 1);
      StepCell(trace[n - 1], ops[n - 1], outs[n - 1], trace[n], 0, 0);
      StepCount(trace[n - 1], ops[n - 1], outs[n - 1], trace[n]);
    }
  }

  lemma StepCount(e: Eager, op: Op, out: Outcome, e': Eager)
    requires Step(e, op, out, e')
    ensures |e'.spaces| == |e.spaces| + if out.Done? && (op.Fork? || op.Spawn?) then 1 else 0
  {
  }

  /** In every state of a run a mapped page shows the bytes last stored in it. */
  lemma {:induction false} RunRemembers(trace: seq<Eager>, ops: seq<Op>, outs: seq<Outcome>, n: nat, s: nat, v: nat,
                                        off: nat)
    requires Run(trace, ops, outs) && trace[0] == Eager([], []) && n < |trace| && off < PAGE_SIZE
    ensures CellAt(trace[n], s, v).Present? ==> CellAt(trace[n], s, v).bytes[off] == LastStored(ops, outs, n, s, v, off)
  {
    hide Step, Tidy, CellAt;
    if n == 0 {
      CellOut(trace[0], s, v);
    } else {
      RunTidy(trace, ops, outs, n - 1);
      StepCell(trace[n - 1], ops[n - 1], outs[n - 1], trace[n], s, v);
      RunRemembers(trace, ops, outs, n - 1, s, v, off);
      if ops[n - 1].Fork? {
        RunRemembers(trace, ops, outs, n - 1, ops[n - 1].s, v, off);
      }
    }
  }

  /** So a load that succeeds returns the byte last stored there. */
  lemma LoadRemembers(trace: seq<Eager>, ops: seq<Op>, outs: seq<Outcome>, n: nat)
    requires Run(trace, ops, outs) && trace[0] == Eager([], []) && n < |ops| && ops[n].Load? && outs[n].Loaded?
    ensures outs[n].b == LastStored(ops, outs, n, ops[n].s, ops[n].v, ops[n].off)
  {
    assert Step(trace[n], ops[n], outs[n], trace[n + 1]);
    hide CellAt, Mapped, RegionAt, EagerLoad;
    PresentIs(trace[n], ops[n].s, ops[n].v);
    RunRemembers(trace, ops, outs, n, ops[n].s, ops[n].v, ops[n].off);
  }
}
