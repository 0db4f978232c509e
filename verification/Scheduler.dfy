/**
 Thread selection in `kernel/tasking/TaskManager.cpp` as values: the run queue, the running thread, and which
 threads are alive or blocked.
 */
module Scheduler {
  datatype Sched<T> = Sched(queue: seq<T>, cur: T, alive: set<T>, blocked: set<T>)

  ghost predicate NoRepeats<T>(q: seq<T>) {
    forall i: nat, j: nat :: i < j < |q| ==> q[i] != q[j]
  }

  /**
   The queue holds no thread twice and never the idle thread; a thread that could run is running or queued, and not
   blocked.
   */
  ghost predicate Inv<T>(s: Sched<T>, idle: T) {
    && NoRepeats(s.queue) && idle !in s.queue && idle in s.alive && s.alive !! s.blocked
    && forall t :: t in s.alive && t != idle && t != s.cur ==> t in s.queue
  }

  /** `queue_thread`: at the end, unless it is there, is the idle thread or is not alive. */
  function Queued<T(==)>(s: Sched<T>, t: T, idle: T): Sched<T> {
    if t == idle || t !in s.alive || t in s.queue then s else s.(queue := s.queue + [t])
  }

  /** `unblock` for each thread of the list in turn. */
  function Wake<T(==)>(s: Sched<T>, ready: seq<T>, idle: T): Sched<T> {
    if ready == [] then s
    else
      var w := Wake(s, ready[..|ready| - 1], idle);
      var t := ready[|ready| - 1];
      if t in w.alive then w else Queued(w.(alive := w.alive + {t}, blocked := w.blocked - {t}), t, idle)
  }

  /** The first thread in the queue that is alive; the length of the queue if none is. */
  function FirstAlive<T(==)>(q: seq<T>, alive: set<T>): (i: nat)
    ensures i <= |q| && (i < |q| ==> q[i] in alive) && forall j: nat :: j < i ==> q[j] !in alive
  {
    if q == [] then 0
    else if q[0] in alive then 0
    else
      var k := FirstAlive(q[1..], alive);
      assert forall j: nat :: 0 < j < k + 1 ==> q[j] == q[1..][j - 1];
      k + 1
  }

  /** `pick_next_thread`: threads that cannot run leave the queue; then the head, the running thread, or idle. */
  function Pick<T(==)>(s: Sched<T>, idle: T): (T, seq<T>) {
    var i := FirstAlive(s.queue, s.alive);
    if i < |s.queue| then (s.queue[i], s.queue[i + 1..])
    else (if s.cur in s.alive then s.cur else idle, [])
  }

  /** The selection part of `preempt`; `forced` when a signal handler is entered or left. */
  function Preempt<T(==)>(s: Sched<T>, ready: seq<T>, forced: bool, idle: T): Sched<T> {
    var w := Wake(s, ready, idle);
    var (next, rest) := Pick(w, idle);
    if next == w.cur && !forced then w.(queue := rest)
    else Queued(w.(queue := rest), w.cur, idle).(cur := next)
  }

  lemma QueuedInv<T>(s: Sched<T>, t: T, idle: T)
    requires NoRepeats(s.queue) && idle !in s.queue && idle in s.alive
    ensures var q := Queued(s, t, idle);
            NoRepeats(q.queue) && idle !in q.queue && (t in s.alive && t != idle ==> t in q.queue)
    ensures forall x :: x in s.queue ==> x in Queued(s, t, idle).queue
  {
  }

  lemma {:induction false} WakeInv<T>(s: Sched<T>, ready: seq<T>, idle: T)
    requires Inv(s, idle)
    ensures Inv(Wake(s, ready, idle), idle) && Wake(s, ready, idle).cur == s.cur
            && s.queue <= Wake(s, ready, idle).queue
    ensures s.alive <= Wake(s, ready, idle).alive
  {
    if ready != [] {
      WakeInv(s, ready[..|ready| - 1], idle);
      var w := Wake(s, ready[..|ready| - 1], idle);
      var t := ready[|ready| - 1];
      QueuedInv(w.(alive := w.alive + {t}, blocked := w.blocked - {t}), t, idle);
    }
  }

  /** Those of the ready threads that have to be queued: not alive before, not idle, not queued yet; in order, once. */
  function ToQueue<T(==)>(s: Sched<T>, ready: seq<T>, idle: T): seq<T> {
    if ready == [] then []
    else
      var front, t := ready[..|ready| - 1], ready[|ready| - 1];
      var q := ToQueue(s, front, idle);
      if t in s.alive || t in front || t == idle || t in s.queue then q else q + [t]
  }

  lemma {:induction false} ToQueueHas<T>(s: Sched<T>, ready: seq<T>, idle: T, t: T)
    ensures t in ToQueue(s, ready, idle) <==> t in ready && t !in s.alive && t != idle && t !in s.queue
    ensures |ToQueue(s, ready, idle)| <= |ready|
  {
    if ready != [] {
      ToQueueHas(s, ready[..|ready| - 1], idle, t);
    }
  }

  /** Waking makes exactly the ready threads alive, none of them blocked, and queues them behind all others. */
  lemma {:induction false} WakeIs<T>(s: Sched<T>, ready: seq<T>, idle: T)
    requires s.alive !! s.blocked
    ensures var w := Wake(s, ready, idle);
            && w.alive == s.alive + (set t | t in ready) && w.blocked == s.blocked - (set t | t in ready)
            && w.cur == s.cur && w.queue == s.queue + ToQueue(s, ready, idle)
  {
    if ready != [] {
      var front, t := ready[..|ready| - 1], ready[|ready| - 1];
      WakeIs(s, front, idle);
      ToQueueHas(s, front, idle, t);
    }
  }

  /** The thread picked can run, and every other runnable thread is still queued. */
  lemma PickInv<T>(s: Sched<T>, idle: T)
    requires Inv(s, idle)
    ensures var (next, rest) := Pick(s, idle);
            && next in s.alive && NoRepeats(rest) && idle !in rest && next !in rest
            && (forall t :: t in s.alive && t != idle && t != s.cur && t != next ==> t in rest)
  {
    var i := FirstAlive(s.queue, s.alive);
    var (next, rest) := Pick(s, idle);
    forall t | t in s.alive && t != idle && t != s.cur && t != next ensures t in rest {
      var j: nat :| j < |s.queue| && s.queue[j] == t;
      assert j >= i;
      assert rest[j - i - 1] == t;
    }
  }

  lemma PreemptInv<T>(s: Sched<T>, ready: seq<T>, forced: bool, idle: T)
    requires Inv(s, idle)
    ensures Inv(Preempt(s, ready, forced, idle), idle)
            && Preempt(s, ready, forced, idle).cur in Preempt(s, ready, forced, idle).alive
  {
    var w := Wake(s, ready, idle);
    WakeInv(s, ready, idle);
    PickInv(w, idle);
    var (next, rest) := Pick(w, idle);
    QueuedInv(w.(queue := rest), w.cur, idle);
  }

  /** The idle thread runs only when no other thread can. */
  lemma IdleOnlyIfNothingElse<T>(s: Sched<T>, ready: seq<T>, forced: bool, idle: T)
    requires Inv(s, idle) && Preempt(s, ready, forced, idle).cur == idle
    ensures Preempt(s, ready, forced, idle).alive == {idle}
  {
    var w := Wake(s, ready, idle);
    WakeInv(s, ready, idle);
    var i := FirstAlive(w.queue, w.alive);
    assert forall j: nat :: j < |w.queue| ==> w.queue[j] !in w.alive;
  }

  /** The place of a queued thread. */
  ghost predicate At<T>(q: seq<T>, k: nat, t: T) { k < |q| && q[k] == t }

  /** A runnable thread at place k is picked at once or moves up at least one place. */
  lemma PreemptAdvances<T>(s: Sched<T>, ready: seq<T>, forced: bool, idle: T, t: T, k: nat) returns (k': nat)
    requires Inv(s, idle) && At(s.queue, k, t) && t in s.alive
    ensures Preempt(s, ready, forced, idle).cur == t || (k' < k && At(Preempt(s, ready, forced, idle).queue, k', t))
  {
    var w := Wake(s, ready, idle);
    WakeInv(s, ready, idle);
    var i := FirstAlive(w.queue, w.alive);
    assert w.queue[k] == t && i <= k;
    k' := 0;
    if i < k {
      k' := k - i - 1;
      assert w.queue[i + 1..][k'] == t;
    }
  }

  /** A preemption wakes exactly the ready threads; one that was blocked is running or queued then. */
  lemma PreemptWakes<T>(s: Sched<T>, ready: seq<T>, forced: bool, idle: T)
    requires Inv(s, idle)
    ensures var p := Preempt(s, ready, forced, idle);
            && p.alive == s.alive + (set t | t in ready) && p.blocked == s.blocked - (set t | t in ready)
            && forall t :: t in ready && t in s.blocked ==> t == p.cur || t in p.queue
  {
    var w, p := Wake(s, ready, idle), Preempt(s, ready, forced, idle);
    WakeIs(s, ready, idle);
    WakeInv(s, ready, idle);
    forall t | t in ready && t in s.blocked ensures t == p.cur || t in p.queue {
      ToQueueHas(s, ready, idle, t);
      assert t in w.queue;
      var k: nat :| k < |w.queue| && w.queue[k] == t;
      var k' := PreemptAdvances(w, [], forced, idle, t, k);
    }
  }

  /**
   Who is queued after a preemption: those behind the first of the queue that can run, and then the thread that ran, if
   it can still run and gave way to another, or was forced to.
   */
  lemma PreemptQueues<T>(s: Sched<T>, ready: seq<T>, forced: bool, idle: T)
    requires Inv(s, idle)
    ensures var p, q := Preempt(s, ready, forced, idle), s.queue + ToQueue(s, ready, idle);
            var alive := s.alive + (set t | t in ready);
            var i := FirstAlive(q, alive);
            var rest := if i < |q| then q[i + 1..] else [];
            && p.cur == (if i < |q| then q[i] else if s.cur in alive then s.cur else idle)
            && p.queue ==
                 if (p.cur != s.cur || forced) && s.cur in alive && s.cur != idle && s.cur !in rest then rest + [s.cur]
                 else rest
  {
    WakeIs(s, ready, idle);
  }

  // ---------- Whole runs ----------

  /** A preemption, the running thread blocking itself, a new thread, a thread that stops, or a call without effect. */
  datatype Op<T> = PreemptOp(ready: seq<T>, forced: bool) | Block | Spawn(t: T) | Stop(t: T) | Nothing

  function Do<T(==)>(s: Sched<T>, op: Op<T>, idle: T): Sched<T> {
    match op
    case PreemptOp(ready, forced) => Preempt(s, ready, forced, idle)
    case Block => s.(alive := s.alive - {s.cur}, blocked := s.blocked + {s.cur})
    case Spawn(t) => Queued(s.(alive := s.alive + {t}, blocked := s.blocked - {t}), t, idle)
    case Stop(t) => s.(alive := s.alive - {t}, blocked := s.blocked - {t})
    case Nothing => s
  }

  /** The idle thread neither blocks nor stops. */
  predicate Allowed<T(==)>(s: Sched<T>, op: Op<T>, idle: T) {
    (op.Block? ==> s.cur != idle) && (op.Stop? ==> op.t != idle)
  }

  function After<T(==)>(s: Sched<T>, ops: seq<Op<T>>, idle: T): Sched<T>
    decreases |ops|
  {
    if ops == [] then s else After(Do(s, ops[0], idle), ops[1..], idle)
  }

  predicate AllowedAll<T(==)>(s: Sched<T>, ops: seq<Op<T>>, idle: T)
    decreases |ops|
  {
    ops == [] || (Allowed(s, ops[0], idle) && AllowedAll(Do(s, ops[0], idle), ops[1..], idle))
  }

  /** Thread t can run in every state of the run. */
  predicate AliveThroughout<T(==)>(s: Sched<T>, ops: seq<Op<T>>, idle: T, t: T)
    decreases |ops|
  {
    t in s.alive && (ops == [] || AliveThroughout(Do(s, ops[0], idle), ops[1..], idle, t))
  }

  function Preempts<T>(ops: seq<Op<T>>): nat {
    if ops == [] then 0 else (if ops[0].PreemptOp? then 1 else 0) + Preempts(ops[1..])
  }

  lemma DoInv<T>(s: Sched<T>, op: Op<T>, idle: T)
    requires Inv(s, idle) && Allowed(s, op, idle)
    ensures Inv(Do(s, op, idle), idle)
  {
    match op
    case PreemptOp(ready, forced) => PreemptInv(s, ready, forced, idle);
    case Block =>
    case Spawn(t) => QueuedInv(s.(alive := s.alive + {t}, blocked := s.blocked - {t}), t, idle);
    case Stop(_) =>
    case Nothing =>
  }

  lemma {:induction false} AfterNext<T>(s: Sched<T>, ops: seq<Op<T>>, op: Op<T>, idle: T)
    ensures After(s, ops + [op], idle) == Do(After(s, ops, idle), op, idle)
    ensures AllowedAll(s, ops + [op], idle) <==> AllowedAll(s, ops, idle) && Allowed(After(s, ops, idle), op, idle)
    decreases |ops|
  {
    if ops == [] {
      assert ops + [op] == [op] && [op][1..] == [];
    } else {
      AfterNext(Do(s, ops[0], idle), ops[1..], op, idle);
      assert (ops + [op])[1..] == ops[1..] + [op];
    }
  }

  lemma {:induction false} RunInv<T>(s: Sched<T>, ops: seq<Op<T>>, idle: T)
    requires Inv(s, idle) && AllowedAll(s, ops, idle)
    ensures Inv(After(s, ops, idle), idle)
    decreases |ops|
  {
    if ops != [] {
      DoInv(s, ops[0], idle);
      RunInv(Do(s, ops[0], idle), ops[1..], idle);
    }
  }

  /** The operations that let thread t run again. */
  predicate Revives<T(==)>(op: Op<T>, t: T) {
    (op.PreemptOp? && t in op.ready) || (op.Spawn? && op.t == t)
  }

  /** A thread that blocked, or stopped, is not alive and not picked until an operation revives it. */
  lemma {:induction false} DeadUntilRevived<T>(s: Sched<T>, ops: seq<Op<T>>, idle: T, t: T)
    requires Inv(s, idle) && AllowedAll(s, ops, idle) && t !in s.alive
    requires forall n: nat :: n < |ops| ==> !Revives(ops[n], t)
    ensures t !in After(s, ops, idle).alive
    ensures ops != [] && ops[|ops| - 1].PreemptOp? ==> After(s, ops, idle).cur != t
    decreases |ops|
  {
    if ops != [] {
      var op := ops[0];
      DoInv(s, op, idle);
      if op.PreemptOp? {
        PreemptWakes(s, op.ready, op.forced, idle);
        PreemptInv(s, op.ready, op.forced, idle);
      }
      DeadUntilRevived(Do(s, op, idle), ops[1..], idle, t);
    }
  }

  /** What the other operations do: the running thread is blocked, a thread is added at the end, or stops. */
  lemma OpEffects<T>(s: Sched<T>, t: T, idle: T)
    requires Inv(s, idle)
    ensures var b := Do(s, Block, idle);
            s.cur !in b.alive && s.cur in b.blocked && b.queue == s.queue && b.alive == s.alive - {s.cur}
    ensures t !in s.alive && t !in s.queue && t != idle ==>
              var a := Do(s, Spawn(t), idle); a.queue == s.queue + [t] && a.alive == s.alive + {t} && a.cur == s.cur
    ensures var d := Do(s, Stop(t), idle);
            t !in d.alive && t !in d.blocked && d.queue == s.queue && d.alive == s.alive - {t}
  {
  }

  /** A thread at place k that can run throughout is picked by one of the first k + 1 preemptions. */
  lemma {:induction false} PickedInTurn<T>(s: Sched<T>, ops: seq<Op<T>>, idle: T, t: T, k: nat) returns (n: nat)
    requires Inv(s, idle) && AllowedAll(s, ops, idle) && At(s.queue, k, t) && AliveThroughout(s, ops, idle, t)
    requires Preempts(ops) > k
    ensures n < |ops| && ops[n].PreemptOp? && Preempts(ops[..n + 1]) <= k + 1
    ensures After(s, ops[..n + 1], idle).cur == t
    decreases |ops|
  {
    var op := ops[0];
    var s' := Do(s, op, idle);
    DoInv(s, op, idle);
    if op.PreemptOp? {
      var k' := PreemptAdvances(s, op.ready, op.forced, idle, t, k);
      if s'.cur == t {
        n := 0;
        assert ops[..1] == [op] && ops[..1][1..] == [];
        return;
      }
      n := PickedInTurn(s', ops[1..], idle, t, k');
    } else {
      n := PickedInTurn(s', ops[1..], idle, t, k);
    }
    n := n + 1;
    assert ops[..n + 1][1..] == ops[1..][..n];
  }

  /**
   A blocked thread whose blocker is ready at a preemption, and which can run from then on, is picked by one of the
   first |queue| + |ready| preemptions, that one included.
   */
  lemma WokenInTurn<T>(s: Sched<T>, ready: seq<T>, forced: bool, ops: seq<Op<T>>, idle: T, t: T) returns (n: nat)
    requires Inv(s, idle) && t in s.blocked && t in ready
    requires var p := Preempt(s, ready, forced, idle); AllowedAll(p, ops, idle) && AliveThroughout(p, ops, idle, t)
    requires Preempts(ops) + 1 >= |s.queue| + |ready|
    ensures var p := Preempt(s, ready, forced, idle);
            n <= |ops| && Preempts(ops[..n]) + 1 <= |s.queue| + |ready| && After(p, ops[..n], idle).cur == t
  {
    var w, p := Wake(s, ready, idle), Preempt(s, ready, forced, idle);
    WakeInv(s, ready, idle);
    WakeIs(s, ready, idle);
    ToQueueHas(s, ready, idle, t);
    PreemptInv(s, ready, forced, idle);
    assert t in w.queue;
    var k: nat :| k < |w.queue| && w.queue[k] == t;
    var k' := PreemptAdvances(w, [], forced, idle, t, k);
    n := 0;
    if p.cur != t {
      n := PickedInTurn(p, ops, idle, t, k');
      n := n + 1;
    }
  }
}
