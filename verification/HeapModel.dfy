/**
 The kernel heap of `kernel/memory/liballoc.cpp` as values: blocks of pages ("majors"), each with the
 allocations ("minors") laid out in it, and the gaps between them.
 */
module HeapModel {
  const ALIGNMENT := 16
  const ALIGN_INFO := 16
  const MAJOR_SIZE := 24
  const MINOR_SIZE := 24
  const HEAP_PAGE := 4096
  const PAGE_COUNT := 16

  /** A header at `addr`, followed by `size` bytes of which the caller asked for `req`. */
  datatype Minor = Minor(addr: int, size: nat, req: nat) {
    function Data(): int { addr + MINOR_SIZE }
    function End(): int { addr + MINOR_SIZE + size }
  }

  // ---------- Alignment ----------

  /** `ALIGN`: the first aligned address that leaves room for the alignment byte. */
  function AlignUp(p: int): int {
    var q := p + ALIGN_INFO;
    if q % ALIGNMENT == 0 then q else q + (ALIGNMENT - q % ALIGNMENT)
  }

  lemma AlignUpBounds(p: int)
    ensures AlignUp(p) % ALIGNMENT == 0 && p + ALIGN_INFO <= AlignUp(p) < p + ALIGN_INFO + ALIGNMENT
  {
  }

  /** The pointer given to the caller. */
  function UserPtr(m: Minor): int { AlignUp(m.Data()) }

  // ---------- One block ----------

  /** Minors in ascending order, apart from each other, inside lo..hi, with room to align what was asked for. */
  predicate Laid(ms: seq<Minor>, lo: int, hi: int) {
    if ms == [] then lo <= hi
    else lo <= ms[0].addr && ms[0].size >= ms[0].req + ALIGNMENT + ALIGN_INFO && Laid(ms[1..], ms[0].End(), hi)
  }

  function Total(ms: seq<Minor>): nat {
    if ms == [] then 0 else ms[0].size + MINOR_SIZE + Total(ms[1..])
  }

  lemma {:induction false} LaidSplit(ms: seq<Minor>, k: nat, lo: int, hi: int)
    requires Laid(ms, lo, hi) && k <= |ms|
    ensures Laid(ms[..k], lo, GapEnd(ms, k, hi)) && Laid(ms[k..], GapStart(ms, k, lo), hi)
    ensures GapStart(ms, k, lo) <= GapEnd(ms, k, hi)
  {
    if k == 0 {
      assert ms[..0] == [] && ms[0..] == ms;
    } else {
      LaidSplit(ms[1..], k - 1, ms[0].End(), hi);
      assert ms[1..][..k - 1] == ms[..k][1..];
      assert ms[1..][k - 1..] == ms[k..];
      assert k > 1 ==> ms[1..][k - 2] == ms[k - 1];
      assert k < |ms| ==> ms[1..][k - 1] == ms[k];
    }
  }

  /** The gap before minor k, or behind the last one. */
  function GapStart(ms: seq<Minor>, k: nat, lo: int): int
    requires k <= |ms|
  {
    if k == 0 then lo else ms[k - 1].End()
  }

  function GapEnd(ms: seq<Minor>, k: nat, hi: int): int
    requires k <= |ms|
  {
    if k == |ms| then hi else ms[k].addr
  }

  lemma {:induction false} LaidConcat(a: seq<Minor>, b: seq<Minor>, lo: int, mid: int, hi: int)
    requires Laid(a, lo, mid) && Laid(b, mid, hi)
    ensures Laid(a + b, lo, hi)
  {
    if a == [] {
      assert a + b == b;
    } else {
      LaidConcat(a[1..], b, a[0].End(), mid, hi);
      assert (a + b)[1..] == a[1..] + b;
    }
  }

  lemma {:induction false} LaidWiden(ms: seq<Minor>, lo: int, lo': int, hi: int)
    requires Laid(ms, lo, hi) && lo' <= lo
    ensures Laid(ms, lo', hi)
  {
  }

  lemma {:induction false} TotalConcat(a: seq<Minor>, b: seq<Minor>)
    ensures Total(a + b) == Total(a) + Total(b)
  {
    if a == [] {
      assert a + b == b;
    } else {
      TotalConcat(a[1..], b);
      assert (a + b)[1..] == a[1..] + b;
    }
  }

  lemma {:induction false} LaidTotal(ms: seq<Minor>, lo: int, hi: int)
    requires Laid(ms, lo, hi)
    ensures lo + Total(ms) <= hi
  {
    if ms != [] {
      LaidTotal(ms[1..], ms[0].End(), hi);
    }
  }

  // ---------- Placing a minor ----------

  /** The first gap of at least `need` bytes; |ms| + 1 if there is none. */
  function FirstGap(ms: seq<Minor>, lo: int, hi: int, need: int): (k: nat)
    ensures k <= |ms| + 1
  {
    if ms == [] then (if hi - lo >= need then 0 else 1)
    else if ms[0].addr - lo >= need then 0
    else 1 + FirstGap(ms[1..], ms[0].End(), hi, need)
  }

  lemma {:induction false} FirstGapAt(ms: seq<Minor>, lo: int, hi: int, need: int, k: nat)
    requires k <= |ms|
    ensures k < FirstGap(ms, lo, hi, need) ==> GapEnd(ms, k, hi) - GapStart(ms, k, lo) < need
    ensures k == FirstGap(ms, lo, hi, need) ==> GapEnd(ms, k, hi) - GapStart(ms, k, lo) >= need
  {
    if k > 0 {
      FirstGapAt(ms[1..], ms[0].End(), hi, need, k - 1);
      assert k > 1 ==> ms[1..][k - 2] == ms[k - 1];
      assert k < |ms| ==> ms[1..][k - 1] == ms[k];
    }
  }

  /** A scan that found every gap before k too small, and gap k large enough, found the first gap. */
  lemma FirstGapIs(ms: seq<Minor>, lo: int, hi: int, need: int, k: nat)
    requires k <= |ms| + 1
    requires forall j: nat :: j < k && j <= |ms| ==> GapEnd(ms, j, hi) - GapStart(ms, j, lo) < need
    requires k <= |ms| ==> GapEnd(ms, k, hi) - GapStart(ms, k, lo) >= need
    ensures FirstGap(ms, lo, hi, need) == k
  {
    var f := FirstGap(ms, lo, hi, need);
    if f <= |ms| {
      FirstGapAt(ms, lo, hi, need, f);
    }
    if k < f {
      FirstGapAt(ms, lo, hi, need, k);
    }
  }

  /** The minors with m put at place k. */
  function Placed(ms: seq<Minor>, k: nat, m: Minor): seq<Minor>
    requires k <= |ms|
  {
    ms[..k] + [m] + ms[k..]
  }

  /** A minor at the start of a large enough gap lies apart from all others. */
  lemma PlacedLaid(ms: seq<Minor>, k: nat, m: Minor, lo: int, hi: int)
    requires Laid(ms, lo, hi) && k <= |ms| && m.addr == GapStart(ms, k, lo) && m.End() <= GapEnd(ms, k, hi)
    requires m.size >= m.req + ALIGNMENT + ALIGN_INFO
    ensures Laid(Placed(ms, k, m), lo, hi) && Total(Placed(ms, k, m)) == Total(ms) + m.size + MINOR_SIZE
  {
    LaidSplit(ms, k, lo, hi);
    assert Laid(ms[k..], m.End(), hi) by {
      if k < |ms| { assert ms[k..][0] == ms[k]; }
    }
    assert [m][1..] == [] && Laid([m], m.addr, m.End());
    LaidUpTo(ms, k, lo, hi);
    LaidConcat(ms[..k], [m], lo, m.addr, m.End());
    LaidConcat(ms[..k] + [m], ms[k..], lo, m.End(), hi);
    TotalConcat(ms[..k], [m]);
    TotalConcat(ms[..k] + [m], ms[k..]);
    TotalConcat(ms[..k], ms[k..]);
    assert ms == ms[..k] + ms[k..];
  }

  lemma {:induction false} LaidUpTo(ms: seq<Minor>, k: nat, lo: int, hi: int)
    requires Laid(ms, lo, hi) && k <= |ms|
    ensures Laid(ms[..k], lo, GapStart(ms, k, lo))
  {
    if k > 0 {
      LaidUpTo(ms[1..], k - 1, ms[0].End(), hi);
      assert ms[1..][..k - 1] == ms[..k][1..];
      assert k > 1 ==> ms[1..][k - 2] == ms[k - 1];
    }
  }

  /** Not enough free bytes in all: no gap is large enough. */
  lemma {:induction false} TooFull(ms: seq<Minor>, lo: int, hi: int, need: int)
    requires Laid(ms, lo, hi) && hi - lo - Total(ms) < need
    ensures FirstGap(ms, lo, hi, need) == |ms| + 1
  {
    if ms != [] {
      LaidTotal(ms[1..], ms[0].End(), hi);
      TooFull(ms[1..], ms[0].End(), hi, need);
    }
  }

  /** With no gap found, any `need` bytes of the block run into some minor. */
  lemma {:induction false} NoGapMeansOverlap(ms: seq<Minor>, lo: int, hi: int, need: int, a: int) returns (j: nat)
    requires Laid(ms, lo, hi) && FirstGap(ms, lo, hi, need) == |ms| + 1 && lo <= a && a + need <= hi && need > 0
    ensures j < |ms| && ms[j].addr < a + need && a < ms[j].End()
  {
    if a < ms[0].End() {
      j := 0;
    } else {
      j := NoGapMeansOverlap(ms[1..], ms[0].End(), hi, need, a);
      j := j + 1;
    }
  }

  /** The minors without minor k. */
  lemma RemovedLaid(ms: seq<Minor>, k: nat, lo: int, hi: int)
    requires Laid(ms, lo, hi) && k < |ms|
    ensures Laid(ms[..k] + ms[k + 1..], lo, hi) && Total(ms[..k] + ms[k + 1..]) == Total(ms) - ms[k].size - MINOR_SIZE
  {
    LaidSplit(ms, k, lo, hi);
    LaidUpTo(ms, k, lo, hi);
    assert ms[k..][1..] == ms[k + 1..] && ms[k..][0] == ms[k];
    LaidWiden(ms[k + 1..], ms[k].End(), GapStart(ms, k, lo), hi);
    LaidConcat(ms[..k], ms[k + 1..], lo, GapStart(ms, k, lo), hi);
    TotalConcat(ms[..k], ms[k + 1..]);
    TotalConcat(ms[..k], ms[k..]);
    assert ms == ms[..k] + ms[k..];
  }

  /** Each minor is inside the block, and any two are apart. */
  lemma {:induction false} LaidAt(ms: seq<Minor>, k: nat, lo: int, hi: int)
    requires Laid(ms, lo, hi) && k < |ms|
    ensures lo <= ms[k].addr && ms[k].End() <= hi && ms[k].size >= ms[k].req + ALIGNMENT + ALIGN_INFO
    ensures forall j: nat :: j < k ==> ms[j].End() <= ms[k].addr
  {
    LaidTotal(ms, lo, hi);
    LaidTotal(ms[1..], ms[0].End(), hi);
    if k > 0 {
      LaidAt(ms[1..], k - 1, ms[0].End(), hi);
      forall j: nat | j < k ensures ms[j].End() <= ms[k].addr {
        if j > 0 { assert ms[j] == ms[1..][j - 1]; }
      }
    }
  }

  // ---------- The whole heap ----------

  datatype Block = Block(addr: int, size: nat, minors: seq<Minor>) {
    function Lo(): int { addr + MAJOR_SIZE }
    function End(): int { addr + size }
    function Usage(): int { MAJOR_SIZE + Total(minors) }
  }

  predicate BlockOk(b: Block) { b.addr > 0 && b.minors != [] && Laid(b.minors, b.Lo(), b.End()) }

  predicate Apart(a: Block, b: Block) { a.End() <= b.addr || b.End() <= a.addr }

  /** No block is empty, and blocks do not overlap. */
  predicate HeapOk(bs: seq<Block>) {
    && (forall i: nat :: i < |bs| ==> BlockOk(bs[i]))
    && forall i: nat, j: nat :: i < j < |bs| ==> Apart(bs[i], bs[j])
  }

  predicate Fits(b: Block, need: int) { FirstGap(b.minors, b.Lo(), b.End(), need) <= |b.minors| }

  /** The bytes the heap counts as in use and as taken from the system. */
  function InUse(bs: seq<Block>): int {
    if bs == [] then 0 else Total(bs[0].minors) - MINOR_SIZE * |bs[0].minors| + InUse(bs[1..])
  }

  function Allocated(bs: seq<Block>): nat {
    if bs == [] then 0 else bs[0].size + Allocated(bs[1..])
  }

  lemma {:induction false} SumsConcat(a: seq<Block>, b: seq<Block>)
    ensures InUse(a + b) == InUse(a) + InUse(b) && Allocated(a + b) == Allocated(a) + Allocated(b)
  {
    if a == [] {
      assert a + b == b;
    } else {
      SumsConcat(a[1..], b);
      assert (a + b)[1..] == a[1..] + b;
    }
  }

  lemma SumsOne(b: Block)
    ensures InUse([b]) == Total(b.minors) - MINOR_SIZE * |b.minors| && Allocated([b]) == b.size
  {
    assert [b][1..] == [];
  }

  lemma SumsUpdate(bs: seq<Block>, i: nat, b: Block)
    requires i < |bs|
    ensures InUse(bs[i := b]) == InUse(bs) - InUse([bs[i]]) + InUse([b])
    ensures Allocated(bs[i := b]) == Allocated(bs) - bs[i].size + b.size
  {
    hide InUse, Allocated;
    assert bs == bs[..i] + [bs[i]] + bs[i + 1..];
    assert bs[i := b] == bs[..i] + [b] + bs[i + 1..];
    SumsConcat(bs[..i] + [bs[i]], bs[i + 1..]);
    SumsConcat(bs[..i], [bs[i]]);
    SumsConcat(bs[..i] + [b], bs[i + 1..]);
    SumsConcat(bs[..i], [b]);
    SumsOne(b);
    SumsOne(bs[i]);
  }

  lemma SumsRemove(bs: seq<Block>, i: nat)
    requires i < |bs|
    ensures InUse(bs[..i] + bs[i + 1..]) == InUse(bs) - InUse([bs[i]])
    ensures Allocated(bs[..i] + bs[i + 1..]) == Allocated(bs) - bs[i].size
  {
    hide InUse, Allocated;
    assert bs == bs[..i] + [bs[i]] + bs[i + 1..];
    SumsConcat(bs[..i] + [bs[i]], bs[i + 1..]);
    SumsConcat(bs[..i], [bs[i]]);
    SumsConcat(bs[..i], bs[i + 1..]);
    SumsOne(bs[i]);
  }

  /** The pages `allocate_new_page` asks for. */
  function PagesFor(size: nat): nat {
    var st := size + MAJOR_SIZE + MINOR_SIZE;
    var pages := if st % HEAP_PAGE == 0 then st / HEAP_PAGE else st / HEAP_PAGE + 1;
    if pages < PAGE_COUNT then PAGE_COUNT else pages
  }

  /** They are the fewest that have room for the request and are no fewer than sixteen. */
  lemma PagesSuffice(size: nat)
    ensures PagesFor(size) * HEAP_PAGE >= size + MAJOR_SIZE + MINOR_SIZE && PagesFor(size) >= PAGE_COUNT
    ensures forall n: nat :: n >= PAGE_COUNT && n * HEAP_PAGE >= size + MAJOR_SIZE + MINOR_SIZE ==> PagesFor(size) <= n
  {
  }

  // ---------- Which block serves a request ----------

  /** The first block, from block i on, with a gap that is large enough; the number of blocks if there is none. */
  function FirstFitting(bs: seq<Block>, need: int, i: nat): (j: nat)
    requires i <= |bs|
    ensures i <= j <= |bs| && (j < |bs| ==> Fits(bs[j], need)) && forall l: nat :: i <= l < j ==> !Fits(bs[l], need)
    decreases |bs| - i
  {
    if i == |bs| || Fits(bs[i], need) then i else FirstFitting(bs, need, i + 1)
  }

  function Spare(b: Block): int { b.size - b.Usage() }

  function BetSpare(bs: seq<Block>, bet: int): int {
    var i := AddressIndex(bs, bet);
    if i < |bs| then Spare(bs[i]) else 0
  }

  /** A block with the most bytes to spare that a search remembers, and how many; address 0 for none. */
  datatype Bet = Bet(addr: int, spare: int)

  /** The bet after the search looked at blocks lo..hi. */
  function Betted(bs: seq<Block>, lo: nat, hi: nat, bet: Bet): Bet
    requires lo <= hi <= |bs|
  {
    if lo == hi then bet
    else
      var before := Betted(bs, lo, hi - 1, bet);
      if before.spare < Spare(bs[hi - 1]) then Bet(bs[hi - 1].addr, Spare(bs[hi - 1])) else before
  }

  function BetBefore(bs: seq<Block>, bet: int): Bet { Bet(bet, if bet == 0 then 0 else BetSpare(bs, bet)) }

  /** The search starts at the bet, which has room to spare. */
  predicate StartsAtBet(bs: seq<Block>, need: int, bet: int) {
    bet != 0 && AddressIndex(bs, bet) < |bs| && BetSpare(bs, bet) > need
  }

  /** The bet after a search for `need` bytes: it looks at the blocks up to the one that serves, once or twice. */
  function BetAfter(bs: seq<Block>, need: int, bet: int): Bet
    requires bs != []
  {
    var s := StartBlock(bs, need, bet);
    var i := FirstFitting(bs, need, s);
    if i < |bs| then Betted(bs, s, i + 1, BetBefore(bs, bet))
    else
      var pass := if StartsAtBet(bs, need, bet) then Betted(bs, s, |bs|, BetBefore(bs, bet)) else BetBefore(bs, bet);
      var j := FirstFitting(bs, need, 0);
      Betted(bs, 0, if j < |bs| then j + 1 else |bs|, pass)
  }

  /** Where the search starts: at the best bet if that has room to spare, else at the first block. */
  function StartBlock(bs: seq<Block>, need: int, bet: int): (i: nat)
    ensures i == 0 || i < |bs|
  {
    if StartsAtBet(bs, need, bet) then AddressIndex(bs, bet) else 0
  }

  /** The block at an address; the number of blocks if there is none. */
  function AddressIndex(bs: seq<Block>, a: int): (i: nat)
    ensures i <= |bs| && (i < |bs| ==> bs[i].addr == a) && forall j: nat :: j < i ==> bs[j].addr != a
  {
    if bs == [] then 0
    else if bs[0].addr == a then 0
    else
      var k := AddressIndex(bs[1..], a);
      assert forall j: nat :: 0 < j < k + 1 ==> bs[j] == bs[1..][j - 1];
      k + 1
  }

  /** The block that serves: the first that fits from the start of the search on, or else the first of all that fits. */
  function Serving(bs: seq<Block>, need: int, bet: int): (i: nat)
    ensures i <= |bs| && (i < |bs| ==> Fits(bs[i], need))
    ensures i == |bs| <==> forall j: nat :: j < |bs| ==> !Fits(bs[j], need)
  {
    var s := StartBlock(bs, need, bet);
    if s <= |bs| && FirstFitting(bs, need, s) < |bs| then FirstFitting(bs, need, s) else FirstFitting(bs, need, 0)
  }

  // ---------- What callers rely on ----------

  /** The bytes of an allocation, and its alignment byte, lie in the minor's own space, behind its header. */
  lemma UserInside(m: Minor)
    requires m.size >= m.req + ALIGNMENT + ALIGN_INFO
    ensures UserPtr(m) % ALIGNMENT == 0
    ensures m.Data() <= UserPtr(m) - ALIGN_INFO && UserPtr(m) + m.req <= m.End()
    ensures ALIGN_INFO <= UserPtr(m) - m.Data() < ALIGNMENT + ALIGN_INFO
  {
    AlignUpBounds(m.Data());
  }

  /** Live minors, wherever they are, occupy disjoint ranges, clear of every block header. */
  lemma LiveApart(bs: seq<Block>, i: nat, k: nat, j: nat, l: nat)
    requires HeapOk(bs) && i < |bs| && k < |bs[i].minors| && j < |bs| && l < |bs[j].minors| && (i != j || k != l)
    ensures var m, n := bs[i].minors[k], bs[j].minors[l];
            && (m.End() <= n.addr || n.End() <= m.addr)
            && bs[i].Lo() <= m.addr && m.End() <= bs[i].End()
            && (m.End() <= bs[j].addr || bs[j].Lo() <= m.addr)
  {
    assert BlockOk(bs[i]) && BlockOk(bs[j]);
    LaidAt(bs[i].minors, k, bs[i].Lo(), bs[i].End());
    LaidAt(bs[j].minors, l, bs[j].Lo(), bs[j].End());
    if i < j { assert Apart(bs[i], bs[j]); }
    if j < i { assert Apart(bs[j], bs[i]); }
  }

  // ---------- Headers and alignment bytes in memory ----------

  /** What the header at an address says: alive (LIBALLOC_MAGIC) or freed (LIBALLOC_DEAD), and the block it is in. */
  datatype Header<R> = Header(alive: bool, block: R)

  /** Minor k of block i has its header in place, and its alignment byte leads from the caller's pointer back to it. */
  predicate RecordedAt<R(==)>(bs: seq<Block>, refs: seq<R>, headers: map<int, Header<R>>, offsets: map<int, int>,
                         i: nat, k: nat)
    requires i < |bs| == |refs| && k < |bs[i].minors|
  {
    var m := bs[i].minors[k];
    && m.addr in headers && headers[m.addr] == Header(true, refs[i])
    && UserPtr(m) - ALIGN_INFO in offsets && offsets[UserPtr(m) - ALIGN_INFO] == UserPtr(m) - m.Data()
  }

  ghost predicate Recorded<R>(bs: seq<Block>, refs: seq<R>, headers: map<int, Header<R>>, offsets: map<int, int>) {
    && |refs| == |bs|
    && (forall i: nat, k: nat :: i < |bs| && k < |bs[i].minors| ==> RecordedAt(bs, refs, headers, offsets, i, k))
    && forall a :: a in headers && headers[a].alive ==> Live(bs, refs, headers[a].block, a)
  }

  /** Some minor of the block named r has its header at a. */
  ghost predicate Live<R>(bs: seq<Block>, refs: seq<R>, r: R, a: int)
    requires |refs| == |bs|
  {
    exists i: nat, k: nat :: i < |bs| && k < |bs[i].minors| && refs[i] == r && bs[i].minors[k].addr == a
  }

  /** The minors after a placement are the old ones and the new one. */
  lemma PlacedAt(ms: seq<Minor>, k: nat, m: Minor, l: nat)
    requires k <= |ms| && l <= |ms|
    ensures |Placed(ms, k, m)| == |ms| + 1
    ensures Placed(ms, k, m)[l] == if l < k then ms[l] else if l == k then m else ms[l - 1]
  {
  }

  /** Recording a new minor disturbs the records of no other. */
  lemma PlaceRecorded<R>(bs: seq<Block>, refs: seq<R>, headers: map<int, Header<R>>, offsets: map<int, int>, i: nat,
                         k: nat, m: Minor)
    requires Recorded(bs, refs, headers, offsets) && i < |bs| && k <= |bs[i].minors|
    requires HeapOk(bs[i := bs[i].(minors := Placed(bs[i].minors, k, m))])
    ensures Recorded(bs[i := bs[i].(minors := Placed(bs[i].minors, k, m))], refs,
                     headers[m.addr := Header(true, refs[i])],
                     offsets[UserPtr(m) - ALIGN_INFO := UserPtr(m) - m.Data()])
  {
    var bs' := bs[i := bs[i].(minors := Placed(bs[i].minors, k, m))];
    var headers' := headers[m.addr := Header(true, refs[i])];
    var offsets' := offsets[UserPtr(m) - ALIGN_INFO := UserPtr(m) - m.Data()];
    PlacedAt(bs[i].minors, k, m, k);
    forall j: nat, l: nat | j < |bs'| && l < |bs'[j].minors| ensures RecordedAt(bs', refs, headers', offsets', j, l) {
      if j == i { PlacedAt(bs[i].minors, k, m, l); }
      if j != i || l != k {
        var l0 := if j == i && l > k then l - 1 else l;
        assert RecordedAt(bs, refs, headers, offsets, j, l0);
        ApartRecords(bs', i, k, j, l);
      }
    }
    forall a | a in headers' && headers'[a].alive ensures Live(bs', refs, headers'[a].block, a) {
      if a == m.addr {
        assert bs'[i].minors[k].addr == a;
      } else {
        assert Live(bs, refs, headers[a].block, a);
        var j: nat, l: nat :|
          j < |bs| && l < |bs[j].minors| && refs[j] == headers[a].block && bs[j].minors[l].addr == a;
        var l1 := if j == i && l >= k then l + 1 else l;
        if j == i { PlacedAt(bs[i].minors, k, m, l1); }
        assert bs'[j].minors[l1].addr == a;
      }
    }
  }

  /** Headers and alignment bytes of two minors are at different addresses. */
  lemma ApartRecords(bs: seq<Block>, i: nat, k: nat, j: nat, l: nat)
    requires HeapOk(bs) && i < |bs| && k < |bs[i].minors| && j < |bs| && l < |bs[j].minors| && (i != j || k != l)
    ensures var m, n := bs[i].minors[k], bs[j].minors[l];
            m.addr != n.addr && UserPtr(m) - ALIGN_INFO != UserPtr(n) - ALIGN_INFO
  {
    assert BlockOk(bs[i]) && BlockOk(bs[j]);
    LaidAt(bs[i].minors, k, bs[i].Lo(), bs[i].End());
    LaidAt(bs[j].minors, l, bs[j].Lo(), bs[j].End());
    LiveApart(bs, i, k, j, l);
    UserInside(bs[i].minors[k]);
    UserInside(bs[j].minors[l]);
  }

  function Dropped<T>(s: seq<T>, k: nat): seq<T>
    requires k < |s|
  {
    s[..k] + s[k + 1..]
  }

  lemma DroppedAt<T>(s: seq<T>, k: nat, l: nat)
    requires k < |s| && l < |s| - 1
    ensures |Dropped(s, k)| == |s| - 1 && Dropped(s, k)[l] == if l < k then s[l] else s[l + 1]
  {
  }

  /** Marking a freed minor's header dead leaves the records of the others. */
  lemma DropRecorded<R>(bs: seq<Block>, refs: seq<R>, headers: map<int, Header<R>>, offsets: map<int, int>, i: nat,
                        k: nat)
    requires Recorded(bs, refs, headers, offsets) && HeapOk(bs) && i < |bs| && k < |bs[i].minors|
    ensures var a := bs[i].minors[k].addr;
            Recorded(bs[i := bs[i].(minors := Dropped(bs[i].minors, k))], refs, headers[a := Header(false, refs[i])],
                     offsets)
  {
    var ms := bs[i].minors;
    var bs' := bs[i := bs[i].(minors := Dropped(ms, k))];
    var headers' := headers[ms[k].addr := Header(false, refs[i])];
    forall j: nat, l: nat | j < |bs'| && l < |bs'[j].minors| ensures RecordedAt(bs', refs, headers', offsets, j, l) {
      if j == i { DroppedAt(ms, k, l); }
      var l0 := if j == i && l >= k then l + 1 else l;
      assert RecordedAt(bs, refs, headers, offsets, j, l0);
      ApartRecords(bs, i, k, j, l0);
    }
    forall a | a in headers' && headers'[a].alive ensures Live(bs', refs, headers'[a].block, a) {
      assert Live(bs, refs, headers[a].block, a);
      var j: nat, l: nat :| j < |bs| && l < |bs[j].minors| && refs[j] == headers[a].block && bs[j].minors[l].addr == a;
      var l1 := if j == i && l > k then l - 1 else l;
      if j == i { DroppedAt(ms, k, l1); }
      assert bs'[j].minors[l1].addr == a;
    }
  }

  // ---------- Steps of the whole heap ----------

  /** A minor at the first gap of block i. */
  lemma PlaceOk(bs: seq<Block>, i: nat, m: Minor)
    requires HeapOk(bs) && i < |bs| && m.size >= m.req + ALIGNMENT + ALIGN_INFO
    requires var b := bs[i]; var k := FirstGap(b.minors, b.Lo(), b.End(), m.size + MINOR_SIZE);
             k <= |b.minors| && m.addr == GapStart(b.minors, k, b.Lo())
    ensures var b := bs[i]; var k := FirstGap(b.minors, b.Lo(), b.End(), m.size + MINOR_SIZE);
            var b' := b.(minors := Placed(b.minors, k, m));
            && HeapOk(bs[i := b']) && InUse(bs[i := b']) == InUse(bs) + m.size
            && Allocated(bs[i := b']) == Allocated(bs)
            && b'.Usage() == b.Usage() + m.size + MINOR_SIZE && UserPtr(m) > 0
  {
    var b := bs[i];
    assert BlockOk(b);
    var k := FirstGap(b.minors, b.Lo(), b.End(), m.size + MINOR_SIZE);
    FirstGapAt(b.minors, b.Lo(), b.End(), m.size + MINOR_SIZE, k);
    PlacedLaid(b.minors, k, m, b.Lo(), b.End());
    LaidUpTo(b.minors, k, b.Lo(), b.End());
    LaidTotal(b.minors[..k], b.Lo(), m.addr);
    UserInside(m);
    var b' := b.(minors := Placed(b.minors, k, m));
    SumsUpdate(bs, i, b');
    SumsOne(b);
    SumsOne(b');
    SameRange(bs, i, b');
  }

  lemma SameRange(bs: seq<Block>, i: nat, b: Block)
    requires HeapOk(bs) && i < |bs| && BlockOk(b) && b.addr == bs[i].addr && b.size == bs[i].size
    ensures HeapOk(bs[i := b])
  {
    var bs' := bs[i := b];
    forall j: nat, l: nat | j < l < |bs'| ensures Apart(bs'[j], bs'[l]) {
      assert Apart(bs[j], bs[l]);
    }
  }

  /** A new block with one minor at its start. */
  function Fresh(addr: int, size: nat, req: nat): Block {
    Block(addr, PagesFor(size) * HEAP_PAGE, [Minor(addr + MAJOR_SIZE, size, req)])
  }

  lemma {:induction false} AppendOk(bs: seq<Block>, addr: int, req: nat)
    requires HeapOk(bs) && addr > 0
    requires forall i: nat :: i < |bs| ==> Apart(bs[i], Fresh(addr, req + ALIGNMENT + ALIGN_INFO, req))
    ensures var size := req + ALIGNMENT + ALIGN_INFO; var b := Fresh(addr, size, req);
            && HeapOk(bs + [b]) && InUse(bs + [b]) == InUse(bs) + size && Allocated(bs + [b]) == Allocated(bs) + b.size
            && b.Usage() == MAJOR_SIZE + size + MINOR_SIZE
  {
    var size := req + ALIGNMENT + ALIGN_INFO;
    var b := Fresh(addr, size, req);
    PagesSuffice(size);
    assert b.minors[1..] == [] && Laid(b.minors[1..], b.minors[0].End(), b.End());
    assert BlockOk(b);
    SumsConcat(bs, [b]);
    SumsOne(b);
  }

  lemma AppendRecorded<R>(bs: seq<Block>, refs: seq<R>, headers: map<int, Header<R>>, offsets: map<int, int>, addr: int,
                          req: nat, r: R)
    requires Recorded(bs, refs, headers, offsets)
    requires var b := Fresh(addr, req + ALIGNMENT + ALIGN_INFO, req); HeapOk(bs + [b])
    ensures var b := Fresh(addr, req + ALIGNMENT + ALIGN_INFO, req); var m := b.minors[0];
            Recorded(bs + [b], refs + [r], headers[m.addr := Header(true, r)],
                     offsets[UserPtr(m) - ALIGN_INFO := UserPtr(m) - m.Data()])
  {
    var b := Fresh(addr, req + ALIGNMENT + ALIGN_INFO, req);
    var m := b.minors[0];
    var n := |bs|;
    var headers' := headers[m.addr := Header(true, r)];
    var offsets' := offsets[UserPtr(m) - ALIGN_INFO := UserPtr(m) - m.Data()];
    forall j: nat, l: nat | j < n + 1 && l < |(bs + [b])[j].minors|
      ensures RecordedAt(bs + [b], refs + [r], headers', offsets', j, l) {
      if j < n {
        assert RecordedAt(bs, refs, headers, offsets, j, l);
        ApartRecords(bs + [b], n, 0, j, l);
      }
    }
    forall a | a in headers' && headers'[a].alive ensures Live(bs + [b], refs + [r], headers'[a].block, a) {
      if a == m.addr {
        assert (bs + [b])[n].minors[0].addr == a && (refs + [r])[n] == r;
      } else {
        assert Live(bs, refs, headers[a].block, a);
        var j: nat, l: nat :|
          j < |bs| && l < |bs[j].minors| && refs[j] == headers[a].block && bs[j].minors[l].addr == a;
        assert (bs + [b])[j].minors[l].addr == a && (refs + [r])[j] == refs[j];
      }
    }
  }

  /** Minor k of block i is freed and others remain in the block. */
  lemma DropOk(bs: seq<Block>, i: nat, k: nat)
    requires HeapOk(bs) && i < |bs| && k < |bs[i].minors| && |bs[i].minors| > 1
    ensures var b := bs[i]; var m := b.minors[k]; var b' := b.(minors := Dropped(b.minors, k));
            && HeapOk(bs[i := b']) && InUse(bs[i := b']) == InUse(bs) - m.size
            && Allocated(bs[i := b']) == Allocated(bs)
            && b'.Usage() == b.Usage() - m.size - MINOR_SIZE
  {
    var b := bs[i];
    assert BlockOk(b);
    RemovedLaid(b.minors, k, b.Lo(), b.End());
    var b' := b.(minors := Dropped(b.minors, k));
    SumsUpdate(bs, i, b');
    SumsOne(b);
    SumsOne(b');
    SameRange(bs, i, b');
  }

  /** The only minor of block i is freed and the block goes back to the system. */
  lemma RemoveOk(bs: seq<Block>, i: nat)
    requires HeapOk(bs) && i < |bs| && |bs[i].minors| == 1
    ensures HeapOk(Dropped(bs, i)) && InUse(Dropped(bs, i)) == InUse(bs) - bs[i].minors[0].size
    ensures Allocated(Dropped(bs, i)) == Allocated(bs) - bs[i].size
  {
    var cs := Dropped(bs, i);
    SumsRemove(bs, i);
    SumsOne(bs[i]);
    assert bs[i].minors[1..] == [];
    forall j: nat | j < |cs| ensures BlockOk(cs[j]) {
      DroppedAt(bs, i, j);
    }
    forall j: nat, l: nat | j < l < |cs| ensures Apart(cs[j], cs[l]) {
      DroppedAt(bs, i, j);
      DroppedAt(bs, i, l);
      assert Apart(bs[if j < i then j else j + 1], bs[if l < i then l else l + 1]);
    }
  }

  /** What memory holds outside a range of addresses, and outside a block. */
  function Beyond<T>(mem: map<int, T>, lo: int, hi: int): map<int, T> {
    map a | a in mem && !(lo <= a < hi) :: mem[a]
  }

  function Outside<T>(mem: map<int, T>, b: Block): map<int, T> { Beyond(mem, b.addr, b.End()) }

  lemma RemoveRecorded<R>(bs: seq<Block>, refs: seq<R>, headers: map<int, Header<R>>, offsets: map<int, int>, i: nat)
    requires Recorded(bs, refs, headers, offsets) && HeapOk(bs) && i < |bs|
    ensures Recorded(Dropped(bs, i), Dropped(refs, i), Outside(headers, bs[i]), Outside(offsets, bs[i]))
  {
    hide Laid, UserPtr;
    var bs', refs' := Dropped(bs, i), Dropped(refs, i);
    var headers', offsets' := Outside(headers, bs[i]), Outside(offsets, bs[i]);
    forall j: nat, l: nat | j < |bs'| && l < |bs'[j].minors| ensures RecordedAt(bs', refs', headers', offsets', j, l) {
      DroppedAt(bs, i, j);
      DroppedAt(refs, i, j);
      var j0 := if j < i then j else j + 1;
      assert RecordedAt(bs, refs, headers, offsets, j0, l);
      OutsideBlock(bs, j0, l, i);
    }
    forall a | a in headers' && headers'[a].alive ensures Live(bs', refs', headers'[a].block, a) {
      StillLive(bs, refs, headers[a].block, i, a);
    }
  }

  /** A live minor outside the block that goes is live afterwards. */
  lemma StillLive<R>(bs: seq<Block>, refs: seq<R>, r: R, i: nat, a: int)
    requires HeapOk(bs) && i < |bs| == |refs| && Live(bs, refs, r, a) && !(bs[i].addr <= a < bs[i].End())
    ensures |Dropped(bs, i)| == |Dropped(refs, i)| && Live(Dropped(bs, i), Dropped(refs, i), r, a)
  {
    var j: nat, l: nat :| j < |bs| && l < |bs[j].minors| && refs[j] == r && bs[j].minors[l].addr == a;
    assert BlockOk(bs[j]);
    LaidAt(bs[j].minors, l, bs[j].Lo(), bs[j].End());
    var j1 := if j > i then j - 1 else j;
    DroppedAt(bs, i, j1);
    DroppedAt(refs, i, j1);
    assert Dropped(bs, i)[j1].minors[l].addr == a && Dropped(refs, i)[j1] == r;
  }

  /** The records of a minor are outside every other block. */
  lemma OutsideBlock(bs: seq<Block>, j: nat, l: nat, i: nat)
    requires HeapOk(bs) && i < |bs| && j < |bs| && i != j && l < |bs[j].minors|
    ensures var m := bs[j].minors[l];
            && !(bs[i].addr <= m.addr < bs[i].End()) && !(bs[i].addr <= UserPtr(m) - ALIGN_INFO < bs[i].End())
  {
    assert BlockOk(bs[j]);
    LaidAt(bs[j].minors, l, bs[j].Lo(), bs[j].End());
    UserInside(bs[j].minors[l]);
    if i < j { assert Apart(bs[i], bs[j]); } else { assert Apart(bs[j], bs[i]); }
  }

  /** With every block searched in vain, any `need` bytes inside a block's space run into some minor. */
  lemma NoBlockFits(bs: seq<Block>, need: nat, i: nat, a: int) returns (k: nat)
    requires HeapOk(bs) && need > 0 && i < |bs| && !Fits(bs[i], need) && bs[i].Lo() <= a && a + need <= bs[i].End()
    ensures k < |bs[i].minors| && bs[i].minors[k].addr < a + need && a < bs[i].minors[k].End()
  {
    assert BlockOk(bs[i]);
    k := NoGapMeansOverlap(bs[i].minors, bs[i].Lo(), bs[i].End(), need, a);
  }

  /** Freeing minor k of block i: the block stays if it has other minors. */
  function Freed(bs: seq<Block>, i: nat, k: nat): seq<Block>
    requires i < |bs| && k < |bs[i].minors|
  {
    if |bs[i].minors| > 1 then bs[i := bs[i].(minors := Dropped(bs[i].minors, k))] else Dropped(bs, i)
  }

  /** Freeing what was just placed, in a gap or in a new block, restores the heap. */
  lemma FreeUndoesPlace(bs: seq<Block>, i: nat, k: nat, m: Minor, b: Block)
    requires i < |bs| && k <= |bs[i].minors| && bs[i].minors != [] && |b.minors| == 1
    ensures Freed(bs[i := bs[i].(minors := Placed(bs[i].minors, k, m))], i, k) == bs
    ensures Freed(bs + [b], |bs|, 0) == bs
  {
    var ms := bs[i].minors;
    assert Dropped(Placed(ms, k, m), k) == ms by {
      assert Placed(ms, k, m)[..k] == ms[..k] && Placed(ms, k, m)[k + 1..] == ms[k..];
    }
    assert Dropped(bs + [b], |bs|) == bs;
  }
}
