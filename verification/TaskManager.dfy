/**
 The linked run queue of `kernel/tasking/TaskManager.cpp` and `kernel/tasking/Thread.cpp`, updated in place,
 against the steps of Scheduler.
 */
module TaskManager {
  import opened Scheduler

  datatype ThreadState = Alive | Blocked | Stopped

  class Thread {
    var state: ThreadState
    var next: Thread?

    constructor ()
      ensures state == Alive && next == null
    {
      state, next := Alive, null;
    }
  }

  /** `Returns(interrupted)`: without waiting. */
  datatype BlockOutcome = Waits | Returns(interrupted: bool) | Panics

  /** Calls to the task manager; threads are named by their places in its list. */
  datatype Call =
    | CallPreempt(wake: set<nat>, forced: bool)
    | CallBlock(ready: bool, signalled: bool, deadlock: bool)
    | CallSpawn
    | CallStop(i: nat, stopping: bool, critical: bool)

  ghost predicate Named(threads: seq<Thread>, wake: set<nat>, t: Thread) {
    exists i :: i in wake && i < |threads| && threads[i] == t
  }

  /**
   The operation that a call comes down to, in view v with the given threads. A preemption
   wakes exactly the blocked threads whose blocker is ready. The idle thread neither blocks nor stops.
   */
  ghost predicate Matches(c: Call, op: Op<Thread>, v: Sched<Thread>, threads: seq<Thread>, idle: Thread) {
    match c
    case CallPreempt(wake, forced) =>
      && op.PreemptOp? && op.forced == forced
      && (forall t :: t in op.ready ==> t in v.blocked && Named(threads, wake, t))
      && (forall t :: t in v.blocked && Named(threads, wake, t) ==> t in op.ready)
    case CallBlock(ready, signalled, deadlock) =>
      op == if v.cur != idle && v.cur in v.alive && !ready && !signalled && !deadlock then Op.Block else Nothing
    case CallSpawn => op.Spawn? && op.t !in threads
    case CallStop(i, stopping, critical) =>
      op == if i < |threads| && threads[i] != idle && threads[i] in v.alive && stopping && !critical
            then Stop(threads[i]) else Nothing
  }

  ghost function ThreadsAfter(threads: seq<Thread>, ops: seq<Op<Thread>>): seq<Thread> {
    if ops == [] then threads
    else
      var before, op := ThreadsAfter(threads, ops[..|ops| - 1]), ops[|ops| - 1];
      if op.Spawn? then before + [op.t] else before
  }

  /**
   Every call came down to the operation that matches it in the view before it, and every view keeps the invariant.
   */
  ghost predicate Follows(calls: seq<Call>, ops: seq<Op<Thread>>, views: seq<Sched<Thread>>, threads: seq<Thread>,
                          idle: Thread) {
    && |ops| == |calls| && |views| == |calls| + 1
    && (forall n: nat :: n < |calls| ==> Matches(calls[n], ops[n], views[n], ThreadsAfter(threads, ops[..n]), idle))
    && (forall n: nat :: n < |views| ==> Inv(views[n], idle))
  }

  lemma FollowsNone(v: Sched<Thread>, threads: seq<Thread>, idle: Thread)
    requires Inv(v, idle)
    ensures Follows([], [], [v], threads, idle) && After(v, [], idle) == v && AllowedAll(v, [], idle)
  {
  }

  lemma FollowsNext(calls: seq<Call>, ops: seq<Op<Thread>>, views: seq<Sched<Thread>>, threads: seq<Thread>,
                    idle: Thread,
                    c: Call, op: Op<Thread>, v: Sched<Thread>)
    requires Follows(calls, ops, views, threads, idle) && Inv(v, idle)
    requires Matches(c, op, views[|calls|], ThreadsAfter(threads, ops), idle)
    ensures Follows(calls + [c], ops + [op], views + [v], threads, idle)
  {
    hide Matches, Inv, ThreadsAfter;
    assert ops[..|ops|] == ops;
    assert forall n: nat :: n <= |ops| ==> (ops + [op])[..n] == ops[..n];
  }

  class TaskManager {
    var all: seq<Thread>
    const idle: Thread
    var cur: Thread
    var nextThread: Thread?
    ghost var queue: seq<Thread>
    ghost var alive: set<Thread>
    ghost var blocked: set<Thread>

    /** The chain from `g_next_thread` is the queue, without cycles; no other thread has a next. */
    ghost predicate Linked()
      reads this`all, this`nextThread, this`queue, all`next
    {
      && NoRepeats(queue) && (forall i: nat :: i < |queue| ==> queue[i] in all)
      && nextThread == (if queue == [] then null else queue[0])
      && (forall i: nat, j: nat :: i + 1 == j < |queue| ==> queue[i].next == queue[j])
      && (queue != [] ==> queue[|queue| - 1].next == null)
      && forall t :: t in all && t !in queue ==> t.next == null
    }

    ghost predicate Marked()
      reads this`all, this`alive, this`blocked, all`state
    {
      && (forall t :: t in alive ==> t in all) && (forall t :: t in blocked ==> t in all)
      && (forall t :: t in all ==> (t in alive <==> t.state == Alive) && (t in blocked <==> t.state == Blocked))
    }

    ghost predicate Valid()
      reads this, all
    {
      Linked() && Marked() && cur in all && idle in all && Inv(View(), idle)
    }

    ghost function View(): Sched<Thread>
      reads this
    {
      Sched(queue, cur, alive, blocked)
    }

    /** The idle thread alone. */
    constructor ()
      ensures Valid() && fresh(all) && View() == Sched([], idle, {idle}, {})
    {
      var t := new Thread();
      idle, cur, nextThread := t, t, null;
      all, queue, alive, blocked := [t], [], {t}, {};
    }

    /** The i-th thread of the queue points to the one after it. */
    lemma AtFacts(i: nat)
      requires Linked() && i < |queue|
      ensures queue[i] in all
      ensures i + 1 < |queue| ==> queue[i].next == queue[i + 1] && queue[..i + 1] == queue[..i] + [queue[i]]
      ensures i + 1 == |queue| ==> queue[i].next == null && queue == queue[..i] + [queue[i]]
    {
    }

    /** `enqueue_thread`, called on the i-th thread of the queue. */
    method EnqueueThread(at: Thread, t: Thread, ghost i: nat)
      requires Linked() && i < |queue| && queue[i] == at && t in all && t !in queue[..i]
      modifies all`next, this`queue
      ensures Linked() && queue == if t in old(queue) then old(queue) else old(queue) + [t]
      decreases |queue| - i
    {
      AtFacts(i);
      hide Linked;
      if t == at {
        return;
      }
      if at.next != null {
        EnqueueThread(at.next, t, i + 1);
      } else {
        LinkLast(at, t);
      }
    }

    method LinkLast(at: Thread, t: Thread)
      requires Linked() && queue != [] && queue[|queue| - 1] == at && t in all && t !in queue
      modifies all`next, this`queue
      ensures Linked() && queue == old(queue) + [t]
    {
      ghost var q := queue;
      at.next := t;
      queue := q + [t];
      assert forall i: nat :: i < |q| ==> queue[i] == q[i];
      assert forall i: nat :: i < |q| && q[i] == at ==> i == |q| - 1;
      assert forall x :: x in all && x !in queue ==> x !in q;
    }

    /** `queue_thread`. */
    method QueueThread(t: Thread)
      requires Linked() && Marked() && t in all
      modifies all`next, this`queue, this`nextThread
      ensures Linked() && Marked() && View() == Queued(old(View()), t, idle)
    {
      if t == idle || t.state != Alive {
        return;
      }
      if nextThread != null {
        EnqueueThread(nextThread, t, 0);
      } else {
        nextThread := t;
        queue := [t];
      }
    }

    /** `g_next_thread = g_next_thread->next_thread()`: the head leaves the queue and forgets its next. */
    method Advance()
      requires Linked() && nextThread != null
      modifies all`next, this`queue, this`nextThread
      ensures Linked() && queue == old(queue)[1..]
    {
      ghost var q := queue;
      var head: Thread := nextThread;
      nextThread := head.next;
      head.next := null;
      queue := q[1..];
      forall i: nat, j: nat | i + 1 == j < |queue| ensures queue[i].next == queue[j] {
        assert q[i + 1] != head && q[i + 1].next == q[j + 1];
      }
      forall t | t in all && t !in queue ensures t.next == null {
        assert t in q ==> t == head;
      }
    }

    /** `g_next_thread` is null exactly for an empty queue, and otherwise its head. */
    lemma HeadFacts()
      requires Linked()
      ensures nextThread == null <==> queue == []
      ensures nextThread != null ==> nextThread == queue[0] && queue[0] in all
    {
    }

    /** Threads at the head that cannot run are dropped. */
    method SkipStopped()
      requires Linked() && Marked()
      modifies all`next, this`queue, this`nextThread
      ensures Linked() && Marked() && queue == old(queue)[FirstAlive(old(queue), alive)..]
    {
      hide Linked;
      ghost var q, n := queue, 0;
      HeadFacts();
      while nextThread != null && nextThread.state != Alive
        invariant Linked() && Marked() && n <= |q| && queue == q[n..] && (nextThread == null <==> queue == [])
        invariant nextThread != null ==> nextThread == queue[0] && queue[0] in all
        invariant forall j: nat :: j < n ==> q[j] !in alive
        decreases |queue|
      {
        assert queue[0] == q[n];
        Advance();
        n := n + 1;
        HeadFacts();
      }
    }

    /** `pick_next_thread`. */
    method PickNextThread() returns (next: Thread)
      requires Valid()
      modifies all`next, this`queue, this`nextThread
      ensures Linked() && Marked() && next in all && (next, queue) == Pick(old(View()), idle)
    {
      hide Linked, Inv;
      SkipStopped();
      HeadFacts();
      if nextThread == null {
        if cur.state == Alive {
          return cur;
        } else {
          return idle;
        }
      }
      next := nextThread;
      Advance();
    }

    /** `unblock`. */
    method Unblock(t: Thread)
      requires Linked() && Marked() && t in all && t.state == Blocked
      modifies all, this`queue, this`nextThread, this`alive, this`blocked
      ensures Linked() && Marked()
      ensures View() == Queued(old(View()).(alive := old(alive) + {t}, blocked := old(blocked) - {t}), t, idle)
      ensures forall x :: x in all && x != t ==> x.state == old(x.state)
      ensures t.state == Alive
    {
      assert t !in alive;
      Awaken(t);
      QueueThread(t);
    }

    method Awaken(t: Thread)
      requires Linked() && Marked() && t in all
      modifies t`state, this`alive, this`blocked
      ensures Linked() && Marked() && t.state == Alive && alive == old(alive) + {t} && blocked == old(blocked) - {t}
    {
      t.state := Alive;
      alive, blocked := alive + {t}, blocked - {t};
    }

    /** The first part of `preempt`: blocked threads whose blocker is ready are unblocked. */
    method WakeAll(ready: set<Thread>) returns (ghost woken: seq<Thread>)
      requires Linked() && Marked()
      modifies all, this`queue, this`nextThread, this`alive, this`blocked
      ensures Linked() && Marked() && View() == Wake(old(View()), woken, idle)
      ensures forall t :: t in woken <==> t in all && old(t.state) == Blocked && t in ready
      ensures forall t :: t in all ==> t.state == if old(t.state) == Blocked && t in ready then Alive else old(t.state)
    {
      hide Linked;
      woken := [];
      ghost var v := View();
      for i := 0 to |all|
        invariant Linked() && Marked() && View() == Wake(v, woken, idle)
        invariant forall t :: t in woken <==> t in all[..i] && old(t.state) == Blocked && t in ready
        invariant forall t :: t in all ==> t.state == if t in woken then Alive else old(t.state)
      {
        var t := all[i];
        assert all[..i + 1] == all[..i] + [t];
        if t.state == Blocked && t in ready {
          assert t !in alive;
          Unblock(t);
          assert (woken + [t])[..|woken|] == woken;
          woken := woken + [t];
        }
      }
      assert all[..|all|] == all;
    }

    /** `preempt`, up to the switch of contexts. The thread it switches to can always run. */
    method Preempt(ready: set<Thread>, forced: bool) returns (ghost woken: seq<Thread>)
      requires Valid()
      modifies all, this`queue, this`nextThread, this`alive, this`blocked, this`cur
      ensures Valid() && cur.state == Alive && View() == Scheduler.Preempt(old(View()), woken, forced, idle)
      ensures forall t :: t in woken <==> t in all && old(t.state) == Blocked && t in ready
      ensures forall t :: t in all ==> t.state == if old(t.state) == Blocked && t in ready then Alive else old(t.state)
      ensures forall t :: t in all && old(t.state) == Blocked && t in ready ==> t == cur || t in queue
    {
      hide Linked, Inv, Wake, Pick;
      ValidInv();
      assert old(idle.state) == Alive;
      woken := WakeAll(ready);
      PreemptWakes(old(View()), woken, forced, idle);
      WakeInv(old(View()), woken, idle);
      PreemptInv(old(View()), woken, forced, idle);
      var next := PickNextThread();
      SwitchTo(next, forced);
    }

    /** The running thread is queued again if it can run, and the next one runs. */
    method SwitchTo(next: Thread, forced: bool)
      requires Linked() && Marked() && next in all && cur in all
      modifies all`next, this`queue, this`nextThread, this`cur
      ensures Linked() && Marked() && cur == next
      ensures View() ==
                if next == old(cur) && !forced then old(View()) else Queued(old(View()), old(cur), idle).(cur := next)
    {
      hide Linked;
      if cur != next || forced {
        if cur != idle && cur.state == Alive {
          QueueThread(cur);
        }
        cur := next;
      }
    }

    /**
     `block`, up to the yield. The running thread can no longer run, unless its blocker is ready or is interrupted by a
     pending signal. The kernel panics if the thread is not alive or would complete a deadlock.
     */
    method Block(ready: bool, signalled: bool, deadlock: bool) returns (out: BlockOutcome)
      requires Valid() && cur != idle
      modifies cur`state, this`alive, this`blocked
      ensures Valid() && View() == Do(old(View()), if out.Waits? then Op<Thread>.Block else Op<Thread>.Nothing, idle)
      ensures out ==
                if old(cur.state) != Alive then Panics
                else if ready then Returns(false) else if signalled then Returns(true)
                     else if deadlock then Panics else Waits
      ensures cur.state == if out.Waits? then Blocked else old(cur.state)
    {
      if cur.state != Alive {
        return Panics;
      }
      if ready {
        return Returns(false);
      }
      if signalled {
        return Returns(true);
      }
      if deadlock {
        return Panics;
      }
      DoInv(View(), Op<Thread>.Block, idle);
      hide Inv;
      cur.state := Blocked;
      alive, blocked := alive - {cur}, blocked + {cur};
      out := Waits;
    }

    /** `stop_if_should_stop`: a thread of a stopping process that is alive and not in a critical section stops. */
    method StopIfShouldStop(t: Thread, stopping: bool, critical: bool) returns (stopped: bool)
      requires Valid() && t in all && t != idle
      modifies t`state, this`alive, this`blocked
      ensures stopped <==> stopping && !critical && old(t.state) == Alive
      ensures t.state == if stopped then Stopped else old(t.state)
      ensures Valid() && View() == Do(old(View()), if stopped then Op<Thread>.Stop(t) else Op<Thread>.Nothing, idle)
    {
      stopped := stopping && t.state == Alive && !critical;
      if stopped {
        DoInv(View(), Op<Thread>.Stop(t), idle);
        hide Inv;
        t.state := Stopped;
        alive, blocked := alive - {t}, blocked - {t};
      }
    }

    /** A new thread of some process is queued. */
    method Spawn() returns (t: Thread)
      requires Valid()
      modifies this, all
      ensures Valid() && fresh(t) && all == old(all) + [t] && View() == Do(old(View()), Op<Thread>.Spawn(t), idle)
    {
      t := new Thread();
      DoInv(View(), Op<Thread>.Spawn(t), idle);
      AddThread(t);
      hide Linked, Inv, Marked;
      QueueThread(t);
    }

    method AddThread(t: Thread)
      requires Linked() && Marked() && t !in all && t.next == null && t.state == Alive
      modifies this`all, this`alive
      ensures Linked() && Marked() && all == old(all) + [t] && alive == old(alive) + {t} && blocked == old(blocked)
    {
      all := all + [t];
      alive := alive + {t};
    }

    /** One call. The idle thread neither blocks nor stops. */
    method Perform(c: Call) returns (ghost op: Op<Thread>)
      requires Valid()
      modifies this, all
      ensures Valid() && View() == Do(old(View()), op, idle) && Allowed(old(View()), op, idle)
      ensures Matches(c, op, old(View()), old(all), idle) && all == if op.Spawn? then old(all) + [op.t] else old(all)
      ensures forall i: nat :: i < |all| ==> all[i] in old(all) || fresh(all[i])
    {
      hide Linked, Inv, Scheduler.Preempt;
      op := Nothing;
      match c
      case CallPreempt(wake, forced) =>
        var threads := set i | i in wake && i < |all| :: all[i];
        ghost var woken := Preempt(threads, forced);
        op := PreemptOp(woken, forced);
      case CallBlock(ready, signalled, deadlock) =>
        if cur != idle {
          var out := Block(ready, signalled, deadlock);
          op := if out.Waits? then Op.Block else Nothing;
        }
      case CallSpawn =>
        var t := Spawn();
        op := Op.Spawn(t);
      case CallStop(i, stopping, critical) =>
        if i < |all| && all[i] != idle {
          var t := all[i];
          var stopped := StopIfShouldStop(t, stopping, critical);
          op := if stopped then Stop(t) else Nothing;
        }
    }

    /**
     Any run of calls is a run of the model, view by view: so the queue invariant holds after every call, and a thread
     that stays runnable is picked in turn.
     */
    method Run(calls: seq<Call>) returns (ghost ops: seq<Op<Thread>>, ghost views: seq<Sched<Thread>>)
      requires Valid()
      modifies this, all
      ensures Valid() && Follows(calls, ops, views, old(all), idle) && views[0] == old(View())
              && views[|calls|] == View()
      ensures AllowedAll(views[0], ops, idle)
              && forall n: nat :: n < |views| ==> views[n] == After(views[0], ops[..n], idle)
    {
      hide Linked, Marked, Do, Inv, Allowed, After, AllowedAll, Follows;
      ghost var v := View();
      ops, views := [], [v];
      ValidInv();
      FollowsNone(v, all, idle);
      for n := 0 to |calls|
        invariant Valid() && |ops| == n && |views| == n + 1 && views[0] == v && views[n] == View()
        invariant Follows(calls[..n], ops, views, old(all), idle) && all == ThreadsAfter(old(all), ops)
        invariant AllowedAll(v, ops, idle) && forall i: nat :: i <= n ==> views[i] == After(v, ops[..i], idle)
        invariant forall i: nat :: i < |all| ==> all[i] in old(all) || fresh(all[i])
      {
        ghost var op := Perform(calls[n]);
        ValidInv();
        FollowsNext(calls[..n], ops, views, old(all), idle, calls[n], op, View());
        AfterNext(v, ops, op, idle);
        assert calls[..n + 1] == calls[..n] + [calls[n]];
        assert ops[..n] == ops && (ops + [op])[..n + 1] == ops + [op];
        assert forall i: nat :: i <= n ==> (ops + [op])[..i] == ops[..i];
        ops, views := ops + [op], views + [View()];
      }
      assert calls[..|calls|] == calls;
    }

    lemma ValidInv()
      requires Valid()
      ensures Inv(View(), idle)
    {
    }
  }
}
