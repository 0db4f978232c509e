/**
 Runs of the reference model, in which every address space owns its bytes: a fork hands the child
 the parent's bytes, and from then on no operation on one space shows in another.
 */
module ForkIsolation {
  import opened CowState
  import opened CowSteps

  datatype Op =
    | Fork(s: nat)
    | Store(s: nat, v: nat, off: nat, b: Byte)
    | Load(s: nat, v: nat, off: nat)
    | Map(s: nat, start: nat, n: nat, prot: VMProt)
    | Unmap(s: nat, j: nat)
    | Spawn(start: nat, size: nat)

  /** `Stopped` is the kernel stopping at an assert. */
  datatype Outcome = Done | Loaded(b: Byte) | Failed | Stopped

  /** Operation op, with outcome out, takes the reference model from e to e'. */
  ghost predicate Step(e: Eager, op: Op, out: Outcome, e': Eager) {
    match op
    case Fork(s) =>
      if out.Done? then ForkableSpace(e, s) && e' == EagerFork(e, s) else out.Failed? && e' == e
    case Store(s, v, off, b) =>
      if out.Done? then Permitted(e, op) && e' == EagerStore(e, s, v, off, b) else out.Failed? && e' == e
    case Load(s, v, off) =>
      e' == e && if out.Loaded? then Permitted(e, op) && out.b == EagerLoad(e, s, v, off) else out.Failed?
    case Map(s, start, n, prot) =>
      if out.Done? then Permitted(e, op) && prot.read && e' == EagerMap(e, s, start, n, prot)
      else e' == e && (out.Failed? || (out.Stopped? && Permitted(e, op) && !prot.read))
    case Unmap(s, j) =>
      if out.Done? then EagerRegion(e, s, j) && e' == EagerUnmap(e, s, j) else out.Failed? && e' == e
    case Spawn(_, _) => out.Done? && e' == e.(spaces := e.spaces + [[]])
  }

  /** The operation names spaces, regions and addresses that exist, and the region at the address permits it. */
  ghost predicate Permitted(e: Eager, op: Op) {
    match op
    case Fork(s) => s < |e.spaces|
    case Store(s, v, off, _) => off < PAGE_SIZE && Mapped(e, s, v) && RegionAt(e, s, v).prot.write
    case Load(s, v, off) => off < PAGE_SIZE && Mapped(e, s, v) && RegionAt(e, s, v).prot.read
    case Map(s, start, n, _) => s < |e.spaces| && FreeRange(e.spaces[s], start, n)
    case Unmap(s, j) => s < |e.spaces| && j < |e.spaces[s]|
    case Spawn(_, _) => true
  }

  /** The first page and the size of an address space. */
  datatype Range = Range(start: nat, size: nat)
  {
    predicate Within(lo: nat, hi: nat) { start <= lo && hi <= start + size }
  }

  ghost function RangesAfter(ranges: seq<Range>, op: Op, out: Outcome): seq<Range> {
    match op
    case Spawn(start, size) => ranges + [Range(start, size)]
    case Fork(s) => if out.Done? && s < |ranges| then ranges + [ranges[s]] else ranges
    case _ => ranges
  }

  /** When an operation fails: it is not permitted, a load or store needs a page in vain, a mapping leaves the space. */
  ghost predicate Fails(e: Eager, ranges: seq<Range>, starved: bool, op: Op) {
    || !Permitted(e, op)
    || (starved && (op.Load? || op.Store?))
    || (op.Map? && op.s < |ranges| && !ranges[op.s].Within(op.start, op.start + op.n))
  }

  /** A run of the reference model through the states of `trace`. */
  ghost predicate Run(trace: seq<Eager>, ops: seq<Op>, outs: seq<Outcome>) {
    && |trace| == |ops| + 1 == |outs| + 1
    && forall i: nat :: i < |ops| ==> Step(trace[i], ops[i], outs[i], trace[i + 1])
  }

  /** Every region maps an object of its own. */
  ghost predicate Separate(e: Eager) {
    && (forall s: nat, j: nat :: s < |e.spaces| && j < |e.spaces[s]| ==> e.spaces[s][j].id < |e.objects|)
    && (forall s: nat, j: nat, s': nat, j': nat ::
          s < |e.spaces| && j < |e.spaces[s]| && s' < |e.spaces| && j' < |e.spaces[s']| && (s, j) != (s', j') ==>
            e.spaces[s][j].id != e.spaces[s'][j'].id)
  }

  /** What a program in space s can observe: where its regions lie and the bytes in them. */
  datatype Observed = Observed(start: nat, size: nat, prot: VMProt, bytes: seq<Page>)

  ghost function Observe(e: Eager, s: nat): seq<Observed>
    requires s < |e.spaces| && Separate(e)
  {
    seq(|e.spaces[s]|, j requires 0 <= j < |e.spaces[s]| =>
      var r := e.spaces[s][j]; Observed(r.start, r.size, r.prot, e.objects[r.id]))
  }

  /** The operations that may change what space s observes. */
  ghost predicate Touches(op: Op, s: nat) {
    match op
    case Store(t, _, _, _) => t == s
    case Map(t, _, _, _) => t == s
    case Unmap(t, _) => t == s
    case _ => false
  }

  lemma ForkSeparate(e: Eager, s: nat)
    requires Separate(e) && ForkableSpace(e, s)
    ensures Separate(EagerFork(e, s))
  {
  }

  lemma MapSeparate(e: Eager, s: nat, start: nat, n: nat, prot: VMProt)
    requires Separate(e) && s < |e.spaces|
    ensures Separate(EagerMap(e, s, start, n, prot))
  {
  }

  /** The region at (l, i) after an unmap, and where it was before. */
  lemma UnmapAt(e: Eager, s: nat, j: nat, l: nat, i: nat)
    requires EagerRegion(e, s, j) && l < |e.spaces| && i < |EagerUnmap(e, s, j).spaces[l]|
    ensures var i0 := if l == s && i >= j then i + 1 else i;
            i0 < |e.spaces[l]| && EagerUnmap(e, s, j).spaces[l][i] == e.spaces[l][i0]
  {
  }

  lemma UnmapSeparate(e: Eager, s: nat, j: nat)
    requires Separate(e) && EagerRegion(e, s, j)
    ensures Separate(EagerUnmap(e, s, j))
  {
    hide EagerUnmap;
    var e' := EagerUnmap(e, s, j);
    assert |e'.spaces| == |e.spaces| && |e'.objects| == |e.objects| by { UnmapSizes(e, s, j); }
    forall l: nat, i: nat | l < |e'.spaces| && i < |e'.spaces[l]|
      ensures e'.spaces[l][i].id < |e'.objects|
    {
      UnmapAt(e, s, j, l, i);
    }
    forall l: nat, i: nat, l': nat, i': nat |
      l < |e'.spaces| && i < |e'.spaces[l]| && l' < |e'.spaces| && i' < |e'.spaces[l']| && (l, i) != (l', i')
      ensures e'.spaces[l][i].id != e'.spaces[l'][i'].id
    {
      UnmapAt(e, s, j, l, i);
      UnmapAt(e, s, j, l', i');
    }
  }

  lemma UnmapSizes(e: Eager, s: nat, j: nat)
    requires EagerRegion(e, s, j)
    ensures |EagerUnmap(e, s, j).spaces| == |e.spaces| && |EagerUnmap(e, s, j).objects| == |e.objects|
  {
  }

  lemma SameIds(e: Eager, e': Eager)
    requires Separate(e) && e'.spaces == e.spaces && |e'.objects| == |e.objects|
    ensures Separate(e')
  {
  }

  lemma SpawnSeparate(e: Eager)
    requires Separate(e)
    ensures Separate(e.(spaces := e.spaces + [[]]))
  {
    var e' := e.(spaces := e.spaces + [[]]);
    assert forall s: nat :: s < |e'.spaces| && e'.spaces[s] != [] ==> s < |e.spaces| && e'.spaces[s] == e.spaces[s];
  }

  lemma SpacesAfter(e: Eager, op: Op, out: Outcome, e': Eager)
    requires Step(e, op, out, e')
    ensures |e.spaces| <= |e'.spaces|
  {
  }

  lemma StepSeparate(e: Eager, op: Op, out: Outcome, e': Eager)
    requires Separate(e) && Step(e, op, out, e')
    ensures Separate(e') && |e.spaces| <= |e'.spaces|
  {
    hide EagerForkTo, EagerMap, EagerUnmap, Separate;
    if e' != e {
      match op
      case Fork(s) => ForkSeparate(e, s); SpacesAfter(e, op, out, e');
      case Map(s, start, n, prot) => MapSeparate(e, s, start, n, prot); SpacesAfter(e, op, out, e');
      case Unmap(s, j) => UnmapSeparate(e, s, j); SpacesAfter(e, op, out, e');
      case Store(s, v, off, b) => SameIds(e, e');
      case Spawn(_, _) => SpawnSeparate(e);
      case Load(_, _, _) =>
    }
  }

  /** A step that does not name space s leaves its observations alone. */
  lemma StepIsolated(e: Eager, op: Op, out: Outcome, e': Eager, s: nat)
    requires Separate(e) && Step(e, op, out, e') && s < |e.spaces| && !Touches(op, s)
    ensures Separate(e') && s < |e'.spaces| && Observe(e', s) == Observe(e, s)
  {
    StepSeparate(e, op, out, e');
  }

  /** The child of a fork observes exactly what the parent observed. */
  lemma ForkCopies(e: Eager, s: nat)
    requires Separate(e) && ForkableSpace(e, s)
    ensures Separate(EagerFork(e, s))
    ensures Observe(EagerFork(e, s), |e.spaces|) == Observe(e, s)
  {
    ForkSeparate(e, s);
  }

  /** Over any run, a space changes only through operations on that space. */
  lemma {:induction false} RunIsolated(trace: seq<Eager>, ops: seq<Op>, outs: seq<Outcome>, s: nat, i: nat, k: nat)
    requires Run(trace, ops, outs) && i <= k < |trace|
    requires Separate(trace[i]) && s < |trace[i].spaces|
    requires forall l: nat :: i <= l < k ==> !Touches(ops[l], s)
    ensures Separate(trace[k]) && s < |trace[k].spaces| && Observe(trace[k], s) == Observe(trace[i], s)
    decreases k
  {
    if i < k {
      RunIsolated(trace, ops, outs, s, i, k - 1);
      StepIsolated(trace[k - 1], ops[k - 1], outs[k - 1], trace[k], s);
    }
  }

  /**
   After a fork at step i, and until an operation names the child, the child observes the parent's
   bytes as they were at the fork, whatever the parent and every other space did meanwhile; and the
   parent is unaffected by whatever the child did.
   */
  lemma {:induction false} ForkIsolated(trace: seq<Eager>, ops: seq<Op>, outs: seq<Outcome>, i: nat, k: nat)
    requires Run(trace, ops, outs) && i < k < |trace| && Separate(trace[i])
    requires ops[i].Fork? && outs[i].Done?
    ensures ops[i].s < |trace[i].spaces|
    ensures (forall l: nat :: i < l < k ==> !Touches(ops[l], |trace[i].spaces|)) ==>
              && Separate(trace[k]) && |trace[i].spaces| < |trace[k].spaces|
              && Observe(trace[k], |trace[i].spaces|) == Observe(trace[i], ops[i].s)
    ensures (forall l: nat :: i < l < k ==> !Touches(ops[l], ops[i].s)) ==>
              && Separate(trace[k]) && ops[i].s < |trace[k].spaces|
              && Observe(trace[k], ops[i].s) == Observe(trace[i], ops[i].s)
  {
    var s, c := ops[i].s, |trace[i].spaces|;
    assert Step(trace[i], ops[i], outs[i], trace[i + 1]);
    ForkCopies(trace[i], s);
    StepIsolated(trace[i], ops[i], outs[i], trace[i + 1], s);
    if forall l: nat :: i < l < k ==> !Touches(ops[l], c) {
      RunIsolated(trace, ops, outs, c, i + 1, k);
    }
    if forall l: nat :: i < l < k ==> !Touches(ops[l], s) {
      RunIsolated(trace, ops, outs, s, i + 1, k);
    }
  }
}
