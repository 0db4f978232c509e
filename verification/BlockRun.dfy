/**
 Runs of `alloc_pages`, for powers of two, and `free_page` on a region of several zones: all is well up to the first
 request that makes a zone write into a list of the zone before it, and that request leaves the region out of order.
 */
module BlockRun {
  import opened Powers
  import opened BuddyModel
  import opened FreeLists
  import opened BuddySteps
  import opened RegionSteps

  type Size = n: nat | n > 0 witness 1

  datatype BlockOp = Take(n: Size) | Give(page: nat)

  /** `Halted`: the kernel stopped at an assert. `Strayed`: it followed a link outside the zone. */
  datatype BlockOut = Got(page: nat) | Refused | TooLarge | Returned | Halted | Strayed

  /** What an operation does to a region, whatever its tables hold. */
  ghost predicate Applied(r: Region, op: BlockOp, out: BlockOut, r': Region)
    requires AllFit(r)
  {
    match op
    case Take(n) =>
      (match AllocPages(r, n)
       case Allocated((page, r1)) => out == Got(page) && r' == r1
       case NoMemory => out == Refused && r' == r
       case Invalid => out == TooLarge && r' == r
       case AssertFailed => out == Halted && r' == r
       case WildAccess => out == Strayed && r' == r)
    case Give(page) =>
      match FreePage(r, page)
      case Done(r1) => out == Returned && r' == r1
      case Stopped => out == Halted && r' == r
      case Wild => out == Strayed && r' == r
  }

  predicate Within(p: nat, page: nat, n: nat) { page <= p < page + n }

  function Range(page: nat, n: nat): set<nat> { set p: nat | p < page + n && Within(p, page, n) }

  function HeldNext(held: set<nat>, op: BlockOp, out: BlockOut): set<nat> {
    if op.Take? && out.Got? then held + Range(out.page, op.n)
    else if op.Give? && out.Returned? then held - {op.page}
    else held
  }

  /** The pages that callers hold after a run. */
  function HeldAfter(ops: seq<BlockOp>, outs: seq<BlockOut>): set<nat>
    requires |ops| == |outs|
  {
    if ops == [] then {}
    else
      var k := |ops| - 1;
      HeldNext(HeldAfter(ops[..k], outs[..k]), ops[k], outs[k])
  }

  /** Requests are powers of two, and callers give back only what they hold. */
  ghost predicate Fair(held: set<nat>, op: BlockOp) {
    match op
    case Take(n) => Pow2(OrderFor(n)) == n
    case Give(page) => page in held
  }

  ghost predicate Trace(rs: seq<Region>, ops: seq<BlockOp>, outs: seq<BlockOut>) {
    && |rs| == |ops| + 1 == |outs| + 1
    && (forall k: nat :: k < |ops| ==> AllFit(rs[k]) && Applied(rs[k], ops[k], outs[k], rs[k + 1]))
    && (forall k: nat :: k < |ops| ==> Fair(HeldAfter(ops[..k], outs[..k]), ops[k]))
  }

  /** The region is in order with exact counters, and the pages held are those of the region that it does not list. */
  ghost predicate Lists(r: Region, ls: seq<seq<seq<nat>>>, held: set<nat>) {
    RegionOk(r, ls) && Exact(r, ls) && forall p: nat :: p in held <==> Owns(r, p) && !IsFree(r, ls, p)
  }

  /** The operation is a request that is served and whose zone writes into a list of the zone before it. */
  ghost predicate Breaks(r: Region, ls: seq<seq<seq<nat>>>, op: BlockOp, out: BlockOut)
    requires |ls| == |r.zones|
  {
    op.Take? && out.Got? && Clobbers(r, ls, op.n)
  }

  /** The outcome that an operation must have on a region in order. */
  ghost predicate Due(r: Region, ls: seq<seq<seq<nat>>>, held: set<nat>, op: BlockOp, out: BlockOut)
    requires |ls| == |r.zones|
  {
    match op
    case Take(n) =>
      var s := Serving(r.zones, 0, n);
      if r.freePages < n then out == Refused
      else if OrderFor(n) > MAX_ORDER then out == TooLarge
      else if s == |r.zones| then out == Refused
      else if !HasFreeBlock(FreePages(ls[s]), OrderFor(n), r.zones[s].top) then out == Halted
      else out.Got? && Range(out.page, n) !! held && (forall p :: p in Range(out.page, n) ==> Owns(r, p))
    case Give(_) => out == Returned
  }

  lemma TakeStep(r: Region, ls: seq<seq<seq<nat>>>, held: set<nat>, n: Size, out: BlockOut, r': Region)
    returns (ls': seq<seq<seq<nat>>>)
    requires Lists(r, ls, held) && AllFit(r) && Applied(r, Take(n), out, r') && Pow2(OrderFor(n)) == n
    ensures Due(r, ls, held, Take(n), out) && r'.start == r.start && r'.count == r.count
    ensures if Breaks(r, ls, Take(n), out) then !Ok(r') else Lists(r', ls', HeldNext(held, Take(n), out))
  {
    hide RegionOk, Exact, AllocPages, OrderFor, Pow2, Clobbers, Ok, IsFree, HasFreeBlock, FreePages, Took;
    FitsIfOk(r, ls);
    ls' := AllocPagesKeeps(r, ls, n);
    var s := Serving(r.zones, 0, n);
    if out.Got? {
      var b := Block(out.page - r.zones[s].first, OrderFor(n));
      TookPlaces(r, ls, r', ls', s, b, n);
      TilesIfOk(r, ls);
      forall p: nat
        ensures p in Range(out.page, n) ==> IsFree(r, ls, p) && Owns(r, p)
        ensures IsFree(r', ls', p) <==> IsFree(r, ls, p) && p !in Range(out.page, n)
      {
        TookFree(r, ls, r', ls', s, b, n, p);
      }
      if !Clobbers(r, ls, n) {
        FitsIfOk(r', ls');
        TookExact(r, ls, r', ls', s, b, n);
      }
    } else {
      ls' := ls;
    }
  }

  lemma TookPlaces(r: Region, ls: seq<seq<seq<nat>>>, r': Region, ls': seq<seq<seq<nat>>>, s: nat, b: Block, n: nat)
    requires Took(r, ls, r', ls', s, b, n)
    ensures r'.start == r.start && r'.count == r.count && |ls'| == |r'.zones|
  {
  }

  lemma TilesIfOk(r: Region, ls: seq<seq<seq<nat>>>)
    requires RegionOk(r, ls)
    ensures Tiles(r.zones, r.start, r.count)
  {
  }

  lemma GiveStep(r: Region, ls: seq<seq<seq<nat>>>, held: set<nat>, page: nat, out: BlockOut, r': Region)
    returns (ls': seq<seq<seq<nat>>>)
    requires Lists(r, ls, held) && AllFit(r) && Applied(r, Give(page), out, r') && page in held
    ensures Due(r, ls, held, Give(page), out) && r'.start == r.start && r'.count == r.count
    ensures Lists(r', ls', HeldNext(held, Give(page), out))
  {
    hide RegionOk, Exact, FreePage, IsFree;
    ls' := GiveOne(r, ls, page);
  }

  /**
   Up to step k: the region is in order, with exact counters, in every state for which lists are given, and every
   operation on it has the outcome due. Lists are missing only from the first request on that breaks the order.
   */
  ghost predicate Orderly(rs: seq<Region>, ops: seq<BlockOp>, outs: seq<BlockOut>, lss: seq<seq<seq<seq<nat>>>>, k: nat)
    requires Trace(rs, ops, outs) && k < |rs|
  {
    && 0 < |lss| <= k + 1
    && (forall i: nat :: i < |lss| ==> Lists(rs[i], lss[i], HeldAfter(ops[..i], outs[..i])))
    && (forall i: nat :: i < |lss| && i < k ==>
          Went(rs[i], lss[i], HeldAfter(ops[..i], outs[..i]), ops[i], outs[i], i + 1 == |lss|))
    && (|lss| <= k ==> !Ok(rs[|lss|]))
  }

  /** The operation had the outcome due, and broke the order or not. */
  ghost predicate Went(r: Region, ls: seq<seq<seq<nat>>>, held: set<nat>, op: BlockOp, out: BlockOut, broken: bool) {
    |ls| == |r.zones| && Due(r, ls, held, op, out) && (Breaks(r, ls, op, out) <==> broken)
  }

  lemma StartLists(r: Region) returns (ls: seq<seq<seq<nat>>>)
    requires Ready(r)
    ensures Lists(r, ls, {})
  {
    hide Ready, RegionOk, Exact, IsFree, AllWhole;
    ls := ReadyKeeps(r);
    FitsIfOk(r, ls);
  }

  /** Any run of power-of-two requests from a region that was set up is orderly until a request breaks the order. */
  lemma {:induction false} OrderlyUntilBroken(rs: seq<Region>, ops: seq<BlockOp>, outs: seq<BlockOut>, k: nat)
    returns (lss: seq<seq<seq<seq<nat>>>>)
    requires Trace(rs, ops, outs) && Ready(rs[0]) && k < |rs|
    ensures Orderly(rs, ops, outs, lss, k)
  {
    hide Ready, Applied, Lists, Went, Ok, HeldNext, Fair;
    if k == 0 {
      var ls := StartLists(rs[0]);
      lss := [ls];
      assert ops[..0] == [] && outs[..0] == [];
    } else {
      lss := OrderlyUntilBroken(rs, ops, outs, k - 1);
      if |lss| == k {
        lss := Extend(rs, ops, outs, lss, k);
      }
    }
  }

  lemma Extend(rs: seq<Region>, ops: seq<BlockOp>, outs: seq<BlockOut>, lss: seq<seq<seq<seq<nat>>>>, k: nat)
    returns (lss': seq<seq<seq<seq<nat>>>>)
    requires Trace(rs, ops, outs) && 0 < k < |rs| && Orderly(rs, ops, outs, lss, k - 1) && |lss| == k
    ensures Orderly(rs, ops, outs, lss', k)
  {
    hide Trace, Applied, AllFit, Lists, Went, Ok, HeldNext, HeldAfter, Fair;
    TraceSize(rs, ops, outs);
    var i := k - 1;
    TraceAt(rs, ops, outs, i);
    var held := HeldAfter(ops[..i], outs[..i]);
    var ls', broken := Step(rs[i], lss[i], held, ops[i], outs[i], rs[k]);
    lss' := if broken then lss else lss + [ls'];
  }

  lemma TraceSize(rs: seq<Region>, ops: seq<BlockOp>, outs: seq<BlockOut>)
    requires Trace(rs, ops, outs)
    ensures |rs| == |ops| + 1 == |outs| + 1
  {
  }

  lemma TraceAt(rs: seq<Region>, ops: seq<BlockOp>, outs: seq<BlockOut>, i: nat)
    requires Trace(rs, ops, outs) && i < |ops|
    ensures |rs| == |ops| + 1 == |outs| + 1 && AllFit(rs[i]) && Applied(rs[i], ops[i], outs[i], rs[i + 1])
    ensures Fair(HeldAfter(ops[..i], outs[..i]), ops[i])
    ensures HeldAfter(ops[..i + 1], outs[..i + 1]) == HeldNext(HeldAfter(ops[..i], outs[..i]), ops[i], outs[i])
  {
    hide AllFit, Applied, Fair, HeldNext;
    assert ops[..i + 1][..i] == ops[..i] && outs[..i + 1][..i] == outs[..i];
  }

  lemma Step(r: Region, ls: seq<seq<seq<nat>>>, held: set<nat>, op: BlockOp, out: BlockOut, r': Region)
    returns (ls': seq<seq<seq<nat>>>, broken: bool)
    requires Lists(r, ls, held) && AllFit(r) && Applied(r, op, out, r') && Fair(held, op)
    ensures Went(r, ls, held, op, out, broken)
    ensures if broken then !Ok(r') else Lists(r', ls', HeldNext(held, op, out))
  {
    ListsSize(r, ls, held);
    hide Lists, Applied, Due, HeldNext, Ok, Clobbers;
    match op {
      case Take(n) => ls' := TakeStep(r, ls, held, n, out, r');
      case Give(page) => ls' := GiveStep(r, ls, held, page, out, r');
    }
    broken := Breaks(r, ls, op, out);
  }

  lemma ListsSize(r: Region, ls: seq<seq<seq<nat>>>, held: set<nat>)
    requires Lists(r, ls, held)
    ensures |ls| == |r.zones|
  {
  }
}
