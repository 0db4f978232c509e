/** Whole runs of one-page requests on a region: callers that take pages and give back what they hold. */
module RegionRun {
  import opened Powers
  import opened FreeLists
  import opened BuddySteps
  import opened RegionSteps
  import Regions = PhysicalRegion

  datatype PageOp = Take | Give(page: nat)

  /**
   `Halted`: the kernel stopped at an assert. `Skipped`: the return of a page that nobody holds, which is not made.
   */
  datatype PageOut = Got(page: nat) | Refused | Halted | Returned | Skipped

  predicate Within(p: nat, start: nat, count: nat) { start <= p < start + count }

  ghost function All(start: nat, count: nat): set<nat> {
    set p: nat | p < start + count && Within(p, start, count)
  }

  function HeldNext(held: set<nat>, op: PageOp, out: PageOut): set<nat> {
    if op.Take? && out.Got? then held + {out.page} else if op.Give? && out.Returned? then held - {op.page} else held
  }

  /** The pages that callers hold after a run. */
  function HeldAfter(ops: seq<PageOp>, outs: seq<PageOut>): set<nat>
    requires |ops| == |outs|
  {
    if ops == [] then {}
    else
      var k := |ops| - 1;
      HeldNext(HeldAfter(ops[..k], outs[..k]), ops[k], outs[k])
  }

  /** The outcome an operation must have, from the pages held alone: a request never stops the kernel. */
  ghost predicate OutcomeOk(held: set<nat>, op: PageOp, out: PageOut, start: nat, count: nat) {
    match op
    case Take =>
      if held == All(start, count) then out.Refused? else out.Got? && out.page in All(start, count) && out.page !in held
    case Give(page) =>
      if page !in All(start, count) then out.Halted? else if page in held then out.Returned? else out.Skipped?
  }

  predicate Ended(ops: seq<PageOp>, outs: seq<PageOut>) {
    |outs| >= |ops| || (outs != [] && outs[|outs| - 1].Halted?)
  }

  /** Every outcome is the one due, and nothing follows a stop of the kernel. */
  ghost predicate AllDue(ops: seq<PageOp>, outs: seq<PageOut>, start: nat, count: nat) {
    && |outs| <= |ops|
    && (forall k: nat :: k < |outs| ==> OutcomeOk(HeldAfter(ops[..k], outs[..k]), ops[k], outs[k], start, count))
    && (forall k: nat :: k < |outs| && outs[k].Halted? ==> k == |outs| - 1)
  }

  ghost predicate PageRuns(ops: seq<PageOp>, outs: seq<PageOut>, start: nat, count: nat) {
    AllDue(ops, outs, start, count) && Ended(ops, outs)
  }

  lemma HeldAfterNext(ops: seq<PageOp>, outs: seq<PageOut>, out: PageOut)
    requires |outs| < |ops|
    ensures HeldAfter(ops[..|outs| + 1], outs + [out]) == HeldNext(HeldAfter(ops[..|outs|], outs), ops[|outs|], out)
  {
    hide HeldNext;
    assert ops[..|outs| + 1][..|outs|] == ops[..|outs|] && (outs + [out])[..|outs|] == outs;
  }

  lemma DueNext(ops: seq<PageOp>, outs: seq<PageOut>, out: PageOut, start: nat, count: nat)
    requires AllDue(ops, outs, start, count) && !Ended(ops, outs)
    requires OutcomeOk(HeldAfter(ops[..|outs|], outs), ops[|outs|], out, start, count)
    ensures AllDue(ops, outs + [out], start, count)
  {
    hide OutcomeOk, HeldAfter;
    var outs' := outs + [out];
    forall k: nat | k < |outs'| ensures OutcomeOk(HeldAfter(ops[..k], outs'[..k]), ops[k], outs'[k], start, count) {
      assert outs'[..k] == outs[..k];
      assert k == |outs| ==> outs[..k] == outs;
    }
  }

  /** The region is in order with exact counters, and the pages held are those it does not list. */
  ghost predicate Lists(r: Region, ls: seq<seq<seq<nat>>>, held: set<nat>) {
    && RegionOk(r, ls) && Exact(r, ls) && held <= All(r.start, r.count) && r.freePages + |held| == r.count
    && forall p: nat :: p in held <==> Owns(r, p) && !IsFree(r, ls, p)
  }

  /** `alloc_page` on such a region: refused just when everything is held, else a page that nobody holds. */
  lemma TakeStep(r: Region, ls: seq<seq<seq<nat>>>, held: set<nat>) returns (ls': seq<seq<seq<nat>>>)
    requires Lists(r, ls, held)
    ensures AllFit(r) && (AllocPage(r).NoMemory? <==> held == All(r.start, r.count))
    ensures AllocPage(r).NoMemory? || AllocPage(r).Allocated?
    ensures AllocPage(r).Allocated? ==>
              var (page, r') := AllocPage(r).value;
              && page in All(r.start, r.count) && page !in held && r'.start == r.start && r'.count == r.count
              && Lists(r', ls', held + {page})
  {
    hide RegionOk, Exact, IsFree, AllocPage, SamePlaces;
    FitsIfOk(r, ls);
    hide AllFit;
    ls' := TakeOne(r, ls);
    if AllocPage(r).Allocated? {
      var (page, r') := AllocPage(r).value;
      assert page in All(r.start, r.count) && page !in held;
    } else {
      forall p: nat | p in All(r.start, r.count) ensures p in held {
        assert Owns(r, p) && !IsFree(r, ls, p);
      }
    }
  }

  /** `free_page` of a page held. */
  lemma GiveStep(r: Region, ls: seq<seq<seq<nat>>>, held: set<nat>, page: nat) returns (ls': seq<seq<seq<nat>>>)
    requires Lists(r, ls, held) && page in held
    ensures AllFit(r) && FreePage(r, page).Done?
    ensures var r' := FreePage(r, page).value;
            r'.start == r.start && r'.count == r.count && Lists(r', ls', held - {page})
  {
    hide RegionOk, Exact, IsFree, FreePage, SamePlaces;
    FitsIfOk(r, ls);
    hide AllFit;
    ls' := GiveOne(r, ls, page);
  }

  lemma ReadyLists(r: Region) returns (ls: seq<seq<seq<nat>>>)
    requires Ready(r)
    ensures Lists(r, ls, {})
  {
    ls := ReadyKeeps(r);
  }

  lemma AllBack(r: Region, ls: seq<seq<seq<nat>>>, held: set<nat>)
    requires Lists(r, ls, held)
    ensures held == {} ==> AllWhole(r, ls)
  {
    hide RegionOk, Exact, IsFree, AllWhole;
    FitsIfOk(r, ls);
    if held == {} {
      forall p: nat | Owns(r, p) ensures IsFree(r, ls, p) {
        assert p !in held;
      }
      WholeWhenAllFree(r, ls);
    }
  }

  lemma ListsFacts(region: Regions.PhysicalRegion, ls: seq<seq<seq<nat>>>, held: set<nat>)
    requires Lists(region.State(), ls, held)
    ensures AllFit(region.State()) && Tiles(region.State().zones, region.startPage, region.numPages)
  {
  }

  /** One operation of a caller. */
  method Perform(region: Regions.PhysicalRegion, op: PageOp, held: set<nat>, ghost ls: seq<seq<seq<nat>>>)
    returns (out: PageOut, ghost ls': seq<seq<seq<nat>>>)
    requires region.Shape() && !region.reserved && Lists(region.State(), ls, held)
    modifies region`freePages, Regions.Objects(region.zones), region.links
    ensures OutcomeOk(held, op, out, region.startPage, region.numPages)
    ensures Lists(region.State(), ls', HeldNext(held, op, out))
  {
    hide Lists, AllFit, Tiles, AllocPage, FreePage, Regions.PhysicalRegion.Shape, Regions.Parts, Regions.Objects;
    ls' := ls;
    ListsFacts(region, ls, held);
    match op
    case Take =>
      ls' := TakeStep(region.State(), ls, held);
      var r := region.AllocPage();
      if r.Allocated? {
        out := Got(r.value);
      } else {
        out, ls' := Refused, ls;
      }
    case Give(page) =>
      if Within(page, region.startPage, region.numPages) && page !in held {
        out := Skipped;
      } else {
        if page in held {
          ls' := GiveStep(region.State(), ls, held, page);
        } else {
          region.OutsideStops(page);
        }
        var r := region.FreePage(page);
        out := if r.Done? then Returned else Halted;
      }
  }

  /**
   Any run of one-page requests on a region that was set up. A request is refused just when every page is held, and
   otherwise gets a page that nobody holds; it never stops the kernel. With all pages back every zone is one block.
   */
  method Run(region: Regions.PhysicalRegion, ops: seq<PageOp>)
    returns (outs: seq<PageOut>, ghost ls: seq<seq<seq<nat>>>)
    requires region.Shape() && !region.reserved && Ready(region.State())
    modifies region`freePages, Regions.Objects(region.zones), region.links
    ensures PageRuns(ops, outs, region.startPage, region.numPages)
    ensures Lists(region.State(), ls, HeldAfter(ops[..|outs|], outs))
    ensures HeldAfter(ops[..|outs|], outs) == {} ==> AllWhole(region.State(), ls)
  {
    hide Lists, Ready, AllWhole, OutcomeOk, HeldNext, Regions.PhysicalRegion.Shape, Regions.PhysicalRegion.State;
    ls := ReadyLists(region.State());
    assert ops[..0] == [];
    assert AllDue(ops, [], region.startPage, region.numPages);
    hide AllDue;
    outs := [];
    var held: set<nat> := {};
    while !Ended(ops, outs)
      invariant |outs| <= |ops| && held == HeldAfter(ops[..|outs|], outs) && Lists(region.State(), ls, held)
      invariant AllDue(ops, outs, region.startPage, region.numPages)
      decreases |ops| - |outs|
    {
      var k := |outs|;
      var out;
      out, ls := Perform(region, ops[k], held, ls);
      HeldAfterNext(ops, outs, out);
      DueNext(ops, outs, out, region.startPage, region.numPages);
      held := HeldNext(held, ops[k], out);
      outs := outs + [out];
    }
    AllBack(region.State(), ls, held);
  }
}
