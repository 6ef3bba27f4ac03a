/** The round-robin scheduling policy: one FIFO ready queue per CPU, an idle
    thread per CPU that never enters a ready queue, and a time budget per
    thread that the timer tick counts down and that `rr_sched` refills.
    The CPU an operation runs on (`smp_get_cpu_id()`) is a parameter.

    The specification functions work on a `Policy` value (the ready queues
    and the thread contexts); the class `Scheduler` keeps the same state in
    the kernel's global arrays and each of its methods is proved to move it
    exactly as the matching function says. */
module RoundRobin {
  import opened Common

  /** Number of CPUs: one ready queue, one idle thread and one current thread
      each. */
  const PLAT_CPU_NUM: nat := 4
  /** Affinity value meaning "run on the CPU that enqueues the thread". */
  const NO_AFF: int := -1
  /** The budget, in timer ticks, a thread gets when it is scheduled. */
  const DEFAULT_BUDGET: nat := 2

  /** A thread: the idle thread of a CPU (`&idle_threads[cpu]`) or any other
      thread object. */
  datatype Thread = Idle(cpu: nat) | Task(id: nat)

  datatype ThreadType = IdleType | KernelType | UserType

  datatype ThreadState = Init | Ready | Inter | Running | Exit | Waiting

  /** The fields of a `thread_ctx` the policy reads or writes; `budget` is
      `sc->budget`, an unsigned counter. */
  datatype ThreadCtx = ThreadCtx(kind: ThreadType, state: ThreadState, affinity: int, cpuid: nat, budget: nat)

  /** The policy's state: `ready[i]` is the ready queue of CPU i, head first;
      a thread absent from `ctxs` has a NULL `thread_ctx`. */
  datatype Policy = Policy(ready: seq<seq<Thread>>, ctxs: map<Thread, ThreadCtx>)

  /** The result of `rr_sched`: its return value, the thread handed to
      `switch_to_thread` (none when it returns -1) and the new state. */
  datatype Outcome = Outcome(r: int, target: Option<Thread>, after: Policy)

  predicate InvalidAff(aff: int)
  {
    aff >= PLAT_CPU_NUM || aff < NO_AFF
  }

  /** The CPU whose queue a thread of affinity `aff` joins when enqueued on `cpu`. */
  function TargetCpu(aff: int, cpu: nat): (c: nat)
    requires !InvalidAff(aff) && cpu < PLAT_CPU_NUM
    ensures c < PLAT_CPU_NUM
    ensures aff == NO_AFF || c == aff
  {
    if aff == NO_AFF then cpu else aff
  }

  predicate Distinct(q: seq<Thread>)
  {
    forall j, k | 0 <= j < k < |q| :: q[j] != q[k]
  }

  /** `list_del` of t's node from the queue q holding it. */
  function Without(q: seq<Thread>, t: Thread): (r: seq<Thread>)
    ensures forall x :: x in r <==> x in q && x != t
    ensures |r| <= |q|
    ensures t !in q ==> r == q
  {
    if q == [] then []
    else if q[0] == t then Without(q[1..], t)
    else [q[0]] + Without(q[1..], t)
  }

  /** Deleting keeps a queue free of repeats. */
  lemma {:induction false} WithoutDistinct(q: seq<Thread>, t: Thread)
    requires Distinct(q)
    ensures Distinct(Without(q, t))
  {
    if q != [] {
      assert Distinct(q[1..]) by {
        forall j, k | 0 <= j < k < |q[1..]|
          ensures q[1..][j] != q[1..][k]
        {
          assert q[j + 1] != q[k + 1];
        }
      }
      WithoutDistinct(q[1..], t);
      if q[0] != t {
        var rest := Without(q[1..], t);
        assert q[0] !in rest;
        var r := [q[0]] + rest;
        forall j, k | 0 <= j < k < |r|
          ensures r[j] != r[k]
        {
          if j == 0 {
            assert r[k] == rest[k - 1];
          } else {
            assert r[j] == rest[j - 1] && r[k] == rest[k - 1];
          }
        }
      }
    }
  }

  /** Deleting the one occurrence of t keeps the threads before and after it
      in order. */
  lemma {:induction false} WithoutSplit(a: seq<Thread>, t: Thread, b: seq<Thread>)
    requires t !in a && t !in b
    ensures Without(a + [t] + b, t) == a + b
  {
    var q := a + [t] + b;
    if a == [] {
      assert q[0] == t && q[1..] == b;
    } else {
      assert q[0] == a[0] != t && q[1..] == a[1..] + [t] + b;
      WithoutSplit(a[1..], t, b);
      assert a + b == [a[0]] + (a[1..] + b);
    }
  }

  // ---------------------------------------------------------------------
  // The invariant.

  /** A thread waiting in the ready queue of CPU i: it has a context, is no
      idle thread, is marked ready for CPU i and has a valid affinity. */
  ghost predicate ReadyOn(ctxs: map<Thread, ThreadCtx>, t: Thread, i: nat)
  {
    t in ctxs && !t.Idle? && ctxs[t].kind != IdleType && ctxs[t].state == Ready
    && ctxs[t].cpuid == i && !InvalidAff(ctxs[t].affinity)
  }

  /** One queue per CPU, no thread twice in a queue, every queued thread ready
      on that queue's CPU (so no thread is in two queues and no idle thread is
      in any), and every CPU's idle thread has an idle-type context. */
  ghost predicate Wf(p: Policy)
  {
    && |p.ready| == PLAT_CPU_NUM
    && (forall i | 0 <= i < PLAT_CPU_NUM :: Distinct(p.ready[i]))
    && (forall i, t | 0 <= i < PLAT_CPU_NUM && t in p.ready[i] :: ReadyOn(p.ctxs, t, i))
    && (forall i | 0 <= i < PLAT_CPU_NUM :: Idle(i) in p.ctxs)
    && (forall t | t in p.ctxs && t.Idle? :: p.ctxs[t].kind == IdleType)
  }

  /** A queued thread sits in exactly one queue, and no idle thread is queued. */
  lemma QueuedOnce(p: Policy, t: Thread, i: nat, j: nat)
    requires Wf(p) && i < PLAT_CPU_NUM && j < PLAT_CPU_NUM && t in p.ready[i] && t in p.ready[j]
    ensures i == j && !t.Idle? && p.ctxs[t].kind != IdleType
  {
    assert ReadyOn(p.ctxs, t, i) && ReadyOn(p.ctxs, t, j);
  }

  // ---------------------------------------------------------------------
  // rr_sched_enqueue

  /** The value `rr_sched_enqueue` returns, from its checks in order. */
  function EnqueueCode(p: Policy, thread: Option<Thread>, cpu: nat): (r: int)
    ensures -4 <= r <= 0
    ensures r == -1 <==> thread.None? || thread.value !in p.ctxs
    ensures thread.Some? && thread.value in p.ctxs ==>
              var t, ctx := thread.value, p.ctxs[thread.value];
              && (ctx.kind == IdleType ==> r == 0)
              && (r == -2 <==> ctx.kind != IdleType && ctx.state == Ready)
              && (r == -3 <==> ctx.kind != IdleType && ctx.state != Ready && t == Idle(cpu))
              && (r == -4 <==> ctx.kind != IdleType && ctx.state != Ready && t != Idle(cpu)
                               && InvalidAff(ctx.affinity))
  {
    if thread.None? || thread.value !in p.ctxs then -1
    else
      var ctx := p.ctxs[thread.value];
      if ctx.kind == IdleType then 0
      else if ctx.state == Ready then -2
      else if thread.value == Idle(cpu) then -3
      else if InvalidAff(ctx.affinity) then -4
      else 0
  }

  /** The enqueue succeeds and actually appends (an idle-type thread is
      accepted with 0 but not queued). */
  predicate Appends(p: Policy, thread: Option<Thread>, cpu: nat)
  {
    thread.Some? && thread.value in p.ctxs && p.ctxs[thread.value].kind != IdleType
    && EnqueueCode(p, thread, cpu) == 0
  }

  /** The state after `rr_sched_enqueue(thread)` on `cpu`. */
  function Enqueued(p: Policy, thread: Option<Thread>, cpu: nat): (p': Policy)
    requires |p.ready| == PLAT_CPU_NUM && cpu < PLAT_CPU_NUM
    ensures |p'.ready| == PLAT_CPU_NUM && p'.ctxs.Keys == p.ctxs.Keys
    ensures !Appends(p, thread, cpu) ==> p' == p
  {
    if !Appends(p, thread, cpu) then p
    else
      var t := thread.value;
      var ctx := p.ctxs[t];
      var c := TargetCpu(ctx.affinity, cpu);
      Policy(p.ready[c := p.ready[c] + [t]], p.ctxs[t := ctx.(cpuid := c, state := Ready)])
  }

  /** A successful enqueue puts the thread at the tail of the queue of its
      affinity CPU (this CPU for NO_AFF), which did not hold it before, marks
      it ready for that CPU, and touches no other queue or context. */
  lemma EnqueueAppends(p: Policy, thread: Option<Thread>, cpu: nat)
    requires Wf(p) && cpu < PLAT_CPU_NUM && Appends(p, thread, cpu)
    ensures var t := thread.value;
            var aff := p.ctxs[t].affinity;
            var c := if aff == NO_AFF then cpu else aff;
            var p' := Enqueued(p, thread, cpu);
            && 0 <= c < PLAT_CPU_NUM
            && (forall i | 0 <= i < PLAT_CPU_NUM :: t !in p.ready[i])
            && p'.ready[c] == p.ready[c] + [t]
            && (forall i | 0 <= i < PLAT_CPU_NUM && i != c :: p'.ready[i] == p.ready[i])
            && p'.ctxs[t].cpuid == c && p'.ctxs[t].state == Ready
            && (forall u | u in p.ctxs && u != t :: p'.ctxs[u] == p.ctxs[u])
  {
    var t := thread.value;
    forall i | 0 <= i < PLAT_CPU_NUM
      ensures t !in p.ready[i]
    {
    }
  }

  lemma EnqueueKeepsWf(p: Policy, thread: Option<Thread>, cpu: nat)
    requires Wf(p) && cpu < PLAT_CPU_NUM
    ensures Wf(Enqueued(p, thread, cpu))
  {
    if Appends(p, thread, cpu) {
      EnqueueAppends(p, thread, cpu);
      var t := thread.value;
      var p' := Enqueued(p, thread, cpu);
      var c := TargetCpu(p.ctxs[t].affinity, cpu);
      forall i, u | 0 <= i < PLAT_CPU_NUM && u in p'.ready[i]
        ensures ReadyOn(p'.ctxs, u, i)
      {
        if u != t {
          assert u in p.ready[i];
        }
      }
      forall i | 0 <= i < PLAT_CPU_NUM
        ensures Distinct(p'.ready[i])
      {
        if i == c {
          assert t !in p.ready[c];
        }
      }
    }
  }

  // ---------------------------------------------------------------------
  // rr_sched_dequeue

  /** The value `rr_sched_dequeue` returns, from its checks in order. */
  function DequeueCode(p: Policy, thread: Option<Thread>, cpu: nat): (r: int)
    ensures -4 <= r <= 0
    ensures r == -1 <==> thread.None? || thread.value !in p.ctxs
    ensures thread.Some? && thread.value in p.ctxs ==>
              var t, ctx := thread.value, p.ctxs[thread.value];
              && (r == -2 <==> t == Idle(cpu))
              && (r == -3 <==> t != Idle(cpu) && ctx.state == Running)
              && (r == -4 <==> t != Idle(cpu) && ctx.state != Running && InvalidAff(ctx.affinity))
  {
    if thread.None? || thread.value !in p.ctxs then -1
    else if thread.value == Idle(cpu) then -2
    else if p.ctxs[thread.value].state == Running then -3
    else if InvalidAff(p.ctxs[thread.value].affinity) then -4
    else 0
  }

  /** The state after `rr_sched_dequeue(thread)` on `cpu`: the thread's node
      leaves the queue of the CPU it was last enqueued on (a thread in no
      queue is left where it is) and the thread is marked TS_INTER. */
  function Dequeued(p: Policy, thread: Option<Thread>, cpu: nat): (p': Policy)
    requires |p.ready| == PLAT_CPU_NUM
    ensures |p'.ready| == PLAT_CPU_NUM && p'.ctxs.Keys == p.ctxs.Keys
    ensures DequeueCode(p, thread, cpu) != 0 ==> p' == p
  {
    if DequeueCode(p, thread, cpu) != 0 then p
    else
      var t := thread.value;
      var ctx := p.ctxs[t];
      var ready := if ctx.cpuid < PLAT_CPU_NUM then p.ready[ctx.cpuid := Without(p.ready[ctx.cpuid], t)] else p.ready;
      Policy(ready, p.ctxs[t := ctx.(state := Inter)])
  }

  /** A successful dequeue removes exactly that thread from the queue holding
      it, keeping the others in order, leaves it in no queue and marks it
      TS_INTER. */
  lemma DequeueRemoves(p: Policy, thread: Option<Thread>, cpu: nat, i: nat, j: nat)
    requires Wf(p) && DequeueCode(p, thread, cpu) == 0
    requires i < PLAT_CPU_NUM && j < |p.ready[i]| && p.ready[i][j] == thread.value
    ensures var p' := Dequeued(p, thread, cpu);
            && p'.ready == p.ready[i := p.ready[i][..j] + p.ready[i][j + 1..]]
            && (forall k | 0 <= k < PLAT_CPU_NUM :: thread.value !in p'.ready[k])
            && p'.ctxs == p.ctxs[thread.value := p.ctxs[thread.value].(state := Inter)]
  {
    var t := thread.value;
    var q := p.ready[i];
    assert ReadyOn(p.ctxs, t, i);
    assert q == q[..j] + [t] + q[j + 1..];
    assert t !in q[..j] && t !in q[j + 1..] by {
      forall k | 0 <= k < |q| && k != j
        ensures q[k] != t
      {
        if k < j {
          assert q[k] != q[j];
        } else {
          assert q[j] != q[k];
        }
      }
    }
    WithoutSplit(q[..j], t, q[j + 1..]);
    var p' := Dequeued(p, thread, cpu);
    forall k | 0 <= k < PLAT_CPU_NUM
      ensures t !in p'.ready[k]
    {
      if k != i && t in p.ready[k] {
        QueuedOnce(p, t, i, k);
      }
    }
  }

  lemma DequeueKeepsWf(p: Policy, thread: Option<Thread>, cpu: nat)
    requires Wf(p)
    ensures Wf(Dequeued(p, thread, cpu))
  {
    if DequeueCode(p, thread, cpu) == 0 {
      var t := thread.value;
      var p' := Dequeued(p, thread, cpu);
      var c := p.ctxs[t].cpuid;
      if c < PLAT_CPU_NUM {
        WithoutDistinct(p.ready[c], t);
      }
      forall i, u | 0 <= i < PLAT_CPU_NUM && u in p'.ready[i]
        ensures ReadyOn(p'.ctxs, u, i)
      {
        assert u in p.ready[i];
      }
    }
  }

  // ---------------------------------------------------------------------
  // rr_sched_choose_thread

  /** The thread `rr_sched_choose_thread` returns on `cpu`. */
  function Chosen(p: Policy, cpu: nat): Thread
    requires |p.ready| == PLAT_CPU_NUM && cpu < PLAT_CPU_NUM
  {
    if p.ready[cpu] == [] then Idle(cpu) else p.ready[cpu][0]
  }

  /** The state after `rr_sched_choose_thread` on `cpu`: the head is dequeued
      (and stays queued when that dequeue fails). */
  function AfterChoose(p: Policy, cpu: nat): (p': Policy)
    requires |p.ready| == PLAT_CPU_NUM && cpu < PLAT_CPU_NUM
    ensures |p'.ready| == PLAT_CPU_NUM && p'.ctxs.Keys == p.ctxs.Keys
    ensures p.ready[cpu] == [] ==> p' == p
  {
    if p.ready[cpu] == [] then p else Dequeued(p, Some(p.ready[cpu][0]), cpu)
  }

  /** FIFO: with a non-empty queue the head is chosen, it leaves the queue,
      the rest keep their order, and it is marked TS_INTER; with an empty
      queue the CPU's idle thread is chosen and nothing changes. */
  lemma ChooseFifo(p: Policy, cpu: nat)
    requires Wf(p) && cpu < PLAT_CPU_NUM
    ensures p.ready[cpu] == [] ==> Chosen(p, cpu) == Idle(cpu) && AfterChoose(p, cpu) == p
    ensures p.ready[cpu] != [] ==>
              var t := p.ready[cpu][0];
              && Chosen(p, cpu) == t
              && AfterChoose(p, cpu).ready == p.ready[cpu := p.ready[cpu][1..]]
              && AfterChoose(p, cpu).ctxs == p.ctxs[t := p.ctxs[t].(state := Inter)]
  {
    if p.ready[cpu] != [] {
      var t := p.ready[cpu][0];
      assert ReadyOn(p.ctxs, t, cpu);
      DequeueRemoves(p, Some(t), cpu, cpu, 0);
    }
  }

  lemma ChooseKeepsWf(p: Policy, cpu: nat)
    requires Wf(p) && cpu < PLAT_CPU_NUM
    ensures Wf(AfterChoose(p, cpu))
  {
    if p.ready[cpu] != [] {
      DequeueKeepsWf(p, Some(p.ready[cpu][0]), cpu);
    }
  }

  // ---------------------------------------------------------------------
  // rr_sched and the timer tick

  /** The current thread may keep the CPU: it has a context and budget left. */
  predicate KeepsCpu(p: Policy, current: Option<Thread>)
  {
    current.Some? && current.value in p.ctxs && p.ctxs[current.value].budget > 0
  }

  /** The state after `rr_sched` puts a non-idle current thread back: it is
      enqueued and then marked TS_READY whatever the enqueue returned. */
  function Preempted(p: Policy, current: Option<Thread>, cpu: nat): (p': Policy)
    requires |p.ready| == PLAT_CPU_NUM && cpu < PLAT_CPU_NUM
    requires current.Some? && current.value != Idle(cpu) ==> current.value in p.ctxs
    ensures |p'.ready| == PLAT_CPU_NUM && p'.ctxs.Keys == p.ctxs.Keys
  {
    if current.Some? && current.value != Idle(cpu) then
      var p1 := Enqueued(p, current, cpu);
      var t := current.value;
      p1.(ctxs := p1.ctxs[t := p1.ctxs[t].(state := Ready)])
    else p
  }

  /** `rr_sched` on `cpu` whose current thread is `current`. */
  function Scheduled(p: Policy, current: Option<Thread>, cpu: nat): (o: Outcome)
    requires |p.ready| == PLAT_CPU_NUM && cpu < PLAT_CPU_NUM
    requires current.Some? && current.value != Idle(cpu) ==> current.value in p.ctxs
    ensures o.r == -1 <==> KeepsCpu(p, current)
    ensures o.r == -1 ==> o.target.None? && o.after == p
    ensures o.r != -1 ==> o.r == 0 && o.target.Some?
    ensures o.r == 0 && o.target.value in o.after.ctxs ==> o.after.ctxs[o.target.value].budget == DEFAULT_BUDGET
  {
    if KeepsCpu(p, current) then Outcome(-1, None, p)
    else
      var p1 := Preempted(p, current, cpu);
      var target := Chosen(p1, cpu);
      var p2 := AfterChoose(p1, cpu);
      var p3 := if target in p2.ctxs then p2.(ctxs := p2.ctxs[target := p2.ctxs[target].(budget := DEFAULT_BUDGET)]) else p2;
      Outcome(0, Some(target), p3)
  }

  lemma PreemptKeepsWf(p: Policy, current: Option<Thread>, cpu: nat)
    requires Wf(p) && cpu < PLAT_CPU_NUM
    requires current.Some? && current.value != Idle(cpu) ==> current.value in p.ctxs
    ensures Wf(Preempted(p, current, cpu))
  {
    if current.Some? && current.value != Idle(cpu) {
      EnqueueKeepsWf(p, current, cpu);
      var p1 := Enqueued(p, current, cpu);
      var t := current.value;
      var p' := Preempted(p, current, cpu);
      forall i, u | 0 <= i < PLAT_CPU_NUM && u in p'.ready[i]
        ensures ReadyOn(p'.ctxs, u, i)
      {
        assert ReadyOn(p1.ctxs, u, i);
      }
    }
  }

  /** A round of scheduling keeps the invariant: in particular the idle
      thread never enters a queue and no thread is queued twice. */
  lemma SchedKeepsWf(p: Policy, current: Option<Thread>, cpu: nat)
    requires Wf(p) && cpu < PLAT_CPU_NUM
    requires current.Some? && current.value != Idle(cpu) ==> current.value in p.ctxs
    ensures Wf(Scheduled(p, current, cpu).after)
  {
    if !KeepsCpu(p, current) {
      PreemptKeepsWf(p, current, cpu);
      var p1 := Preempted(p, current, cpu);
      ChooseKeepsWf(p1, cpu);
      var p2 := AfterChoose(p1, cpu);
      var target := Chosen(p1, cpu);
      var p3 := Scheduled(p, current, cpu).after;
      forall i, u | 0 <= i < PLAT_CPU_NUM && u in p3.ready[i]
        ensures ReadyOn(p3.ctxs, u, i)
      {
        assert ReadyOn(p2.ctxs, u, i);
      }
    }
  }

  /** When the current thread has run out of budget and is not idle, rr_sched
      puts it at the tail of its queue (if the enqueue admits it) before
      choosing, so a thread alone on its CPU is chosen again. */
  lemma SchedRequeuesCurrent(p: Policy, current: Option<Thread>, cpu: nat)
    requires Wf(p) && cpu < PLAT_CPU_NUM
    requires current.Some? && current.value != Idle(cpu) && current.value in p.ctxs
    requires !KeepsCpu(p, current) && Appends(p, current, cpu)
    requires p.ctxs[current.value].affinity == NO_AFF && p.ready[cpu] == []
    ensures Scheduled(p, current, cpu).target == current
    ensures Scheduled(p, current, cpu).after.ready == p.ready
  {
    EnqueueAppends(p, current, cpu);
    var p1 := Preempted(p, current, cpu);
    assert p1.ready[cpu] == [current.value];
    PreemptKeepsWf(p, current, cpu);
    ChooseFifo(p1, cpu);
    assert p1.ready[cpu := []] == p.ready;
  }

  /** `rr_sched_handle_timer_irq`: the current thread's budget drops by one
      when it is positive. */
  function Ticked(p: Policy, current: Option<Thread>): (p': Policy)
    requires current.Some? ==> current.value in p.ctxs
    ensures p'.ready == p.ready && p'.ctxs.Keys == p.ctxs.Keys
    ensures forall t | t in p.ctxs && (current.None? || t != current.value) :: p'.ctxs[t] == p.ctxs[t]
  {
    if current.Some? && p.ctxs[current.value].budget > 0 then
      var t := current.value;
      p.(ctxs := p.ctxs[t := p.ctxs[t].(budget := p.ctxs[t].budget - 1)])
    else p
  }

  /** n timer ticks in a row. */
  function Ticks(p: Policy, current: Option<Thread>, n: nat): (p': Policy)
    requires current.Some? ==> current.value in p.ctxs
    ensures p'.ctxs.Keys == p.ctxs.Keys
    decreases n
  {
    if n == 0 then p else Ticks(Ticked(p, current), current, n - 1)
  }

  /** The budget never goes below zero: after n ticks it is the old budget
      less n, or 0, and everything else is unchanged. */
  lemma {:induction false} TicksCount(p: Policy, current: Option<Thread>, n: nat)
    requires current.Some? && current.value in p.ctxs
    ensures var b := p.ctxs[current.value].budget;
            var p' := Ticks(p, current, n);
            && p'.ctxs[current.value] == p.ctxs[current.value].(budget := if b >= n then b - n else 0)
            && p'.ready == p.ready
            && (forall t | t in p.ctxs && t != current.value :: p'.ctxs[t] == p.ctxs[t])
    decreases n
  {
    if n > 0 {
      TicksCount(Ticked(p, current), current, n - 1);
    }
  }

  /** Once as many ticks as its budget have passed, the current thread no
      longer keeps the CPU and rr_sched schedules. */
  lemma BudgetRunsOut(p: Policy, current: Option<Thread>, cpu: nat)
    requires |p.ready| == PLAT_CPU_NUM && cpu < PLAT_CPU_NUM
    requires current.Some? && current.value in p.ctxs
    ensures var p' := Ticks(p, current, p.ctxs[current.value].budget);
            |p'.ready| == PLAT_CPU_NUM && Scheduled(p', current, cpu).r == 0
  {
    TicksCount(p, current, p.ctxs[current.value].budget);
  }

  lemma TickKeepsWf(p: Policy, current: Option<Thread>)
    requires Wf(p) && (current.Some? ==> current.value in p.ctxs)
    ensures Wf(Ticked(p, current))
  {
    var p' := Ticked(p, current);
    forall i, u | 0 <= i < PLAT_CPU_NUM && u in p'.ready[i]
      ensures ReadyOn(p'.ctxs, u, i)
    {
      assert ReadyOn(p.ctxs, u, i);
    }
  }

  // ---------------------------------------------------------------------
  // rr_sched_init

  /** The context `rr_sched_init` gives the idle thread of CPU i. */
  function IdleCtx(i: nat): ThreadCtx
  {
    ThreadCtx(IdleType, Init, i, i, DEFAULT_BUDGET)
  }

  /** The contexts right after initialisation: one idle context per CPU. */
  function IdleCtxs(): (m: map<Thread, ThreadCtx>)
    ensures forall t :: t in m <==> t.Idle? && t.cpu < PLAT_CPU_NUM
  {
    map i | 0 <= i < PLAT_CPU_NUM :: Idle(i) := IdleCtx(i)
  }

  function EmptyQueues(): (qs: seq<seq<Thread>>)
    ensures |qs| == PLAT_CPU_NUM && forall i | 0 <= i < PLAT_CPU_NUM :: qs[i] == []
  {
    seq(PLAT_CPU_NUM, _ => [])
  }

  /** The initial state is well formed and has all queues empty. */
  lemma InitWf()
    ensures Wf(Policy(EmptyQueues(), IdleCtxs()))
  {
    var m := IdleCtxs();
    forall t | t in m && t.Idle?
      ensures m[t].kind == IdleType
    {
      assert m[t] == IdleCtx(t.cpu);
    }
  }

  // ---------------------------------------------------------------------
  // The kernel's state.

  class Scheduler {
    /** rr_ready_queue: the ready queue of each CPU, head first. */
    var readyQueues: array<seq<Thread>>
    /** current_threads: the thread each CPU runs, if any. */
    var currentThreads: array<Option<Thread>>
    /** The thread_ctx of every thread that has one. */
    var ctxs: map<Thread, ThreadCtx>

    ghost function State(): Policy
      reads this, readyQueues
    {
      Policy(readyQueues[..], ctxs)
    }

    ghost predicate Shaped()
      reads this
    {
      readyQueues.Length == PLAT_CPU_NUM && currentThreads.Length == PLAT_CPU_NUM
    }

    ghost predicate Valid()
      reads this, readyQueues
    {
      Shaped() && Wf(State())
    }

    /** rr_sched_init: every CPU gets an empty ready queue, no current thread
        and an idle thread with an idle-type context. */
    constructor Init()
      ensures Valid() && fresh(readyQueues) && fresh(currentThreads)
      ensures forall i | 0 <= i < PLAT_CPU_NUM :: readyQueues[i] == [] && currentThreads[i] == None
      ensures ctxs == IdleCtxs()
    {
      var queues := new seq<Thread>[PLAT_CPU_NUM];
      var currents := new Option<Thread>[PLAT_CPU_NUM];
      for i := 0 to PLAT_CPU_NUM
        invariant forall j | 0 <= j < i :: queues[j] == [] && currents[j] == None
      {
        currents[i] := None;
        queues[i] := [];
      }
      var idle: map<Thread, ThreadCtx> := map[];
      for i := 0 to PLAT_CPU_NUM
        invariant forall t :: t in idle <==> t.Idle? && t.cpu < i
        invariant forall t | t in idle :: idle[t] == IdleCtx(t.cpu)
      {
        idle := idle[Idle(i) := IdleCtx(i)];
      }
      assert idle == IdleCtxs();
      readyQueues, currentThreads, ctxs := queues, currents, idle;
      new;
      InitWf();
      assert readyQueues[..] == EmptyQueues();
    }

    /** rr_sched_enqueue on `cpu`. */
    method Enqueue(thread: Option<Thread>, cpu: nat) returns (r: int)
      requires Shaped() && cpu < PLAT_CPU_NUM
      modifies this, readyQueues
      ensures Shaped() && readyQueues == old(readyQueues) && currentThreads == old(currentThreads)
      ensures r == EnqueueCode(old(State()), thread, cpu)
      ensures State() == Enqueued(old(State()), thread, cpu)
      ensures old(Valid()) ==> Valid()
    {
      ghost var p := State();
      if thread.None? || thread.value !in ctxs {
        return -1;
      }
      var t := thread.value;
      var ctx := ctxs[t];
      if ctx.kind == IdleType {
        return 0;
      }
      if ctx.state == Ready {
        return -2;
      }
      if t == Idle(cpu) {
        return -3;
      }
      if InvalidAff(ctx.affinity) {
        return -4;
      }
      var c := if ctx.affinity == NO_AFF then cpu else ctx.affinity;
      readyQueues[c] := readyQueues[c] + [t];
      ctxs := ctxs[t := ctx.(cpuid := c, state := Ready)];
      r := 0;
      assert State() == Enqueued(p, thread, cpu);
      if Wf(p) {
        EnqueueKeepsWf(p, thread, cpu);
      }
    }

    /** rr_sched_dequeue on `cpu`. */
    method Dequeue(thread: Option<Thread>, cpu: nat) returns (r: int)
      requires Shaped()
      modifies this, readyQueues
      ensures Shaped() && readyQueues == old(readyQueues) && currentThreads == old(currentThreads)
      ensures r == DequeueCode(old(State()), thread, cpu)
      ensures State() == Dequeued(old(State()), thread, cpu)
      ensures old(Valid()) ==> Valid()
    {
      ghost var p := State();
      if thread.None? || thread.value !in ctxs {
        return -1;
      }
      var t := thread.value;
      if t == Idle(cpu) {
        return -2;
      }
      var ctx := ctxs[t];
      if ctx.state == Running {
        return -3;
      }
      if InvalidAff(ctx.affinity) {
        return -4;
      }
      if ctx.cpuid < PLAT_CPU_NUM {
        readyQueues[ctx.cpuid] := Without(readyQueues[ctx.cpuid], t);
      }
      ctxs := ctxs[t := ctx.(state := Inter)];
      r := 0;
      assert State() == Dequeued(p, thread, cpu);
      if Wf(p) {
        DequeueKeepsWf(p, thread, cpu);
      }
    }

    /** rr_sched_choose_thread on `cpu`. */
    method ChooseThread(cpu: nat) returns (target: Thread)
      requires Shaped() && cpu < PLAT_CPU_NUM
      modifies this, readyQueues
      ensures Shaped() && readyQueues == old(readyQueues) && currentThreads == old(currentThreads)
      ensures target == Chosen(old(State()), cpu)
      ensures State() == AfterChoose(old(State()), cpu)
      ensures old(Valid()) ==> Valid()
    {
      if readyQueues[cpu] == [] {
        return Idle(cpu);
      }
      ghost var p := State();
      target := readyQueues[cpu][0];
      var err := Dequeue(Some(target), cpu);
      if Wf(p) {
        ChooseKeepsWf(p, cpu);
      }
    }

    /** rr_sched on `cpu`: returns -1 while the current thread has budget
        left; otherwise re-queues a non-idle current thread, chooses the next
        one, refills its budget and returns it for `switch_to_thread`. */
    method Sched(cpu: nat) returns (r: int, target: Option<Thread>)
      requires Shaped() && cpu < PLAT_CPU_NUM
      requires currentThreads[cpu].Some? && currentThreads[cpu].value != Idle(cpu) ==> currentThreads[cpu].value in ctxs
      modifies this, readyQueues
      ensures Shaped() && readyQueues == old(readyQueues) && currentThreads == old(currentThreads)
      ensures var o := Scheduled(old(State()), old(currentThreads[cpu]), cpu);
              r == o.r && target == o.target && State() == o.after
      ensures old(Valid()) ==> Valid()
    {
      ghost var p := State();
      var current := currentThreads[cpu];
      if current.Some? && current.value in ctxs && ctxs[current.value].budget > 0 {
        return -1, None;
      }
      if current.Some? && current.value != Idle(cpu) {
        var _ := Enqueue(current, cpu);
        var t := current.value;
        ctxs := ctxs[t := ctxs[t].(state := Ready)];
      }
      assert State() == Preempted(p, current, cpu);
      var chosen := ChooseThread(cpu);
      if chosen in ctxs {
        ctxs := ctxs[chosen := ctxs[chosen].(budget := DEFAULT_BUDGET)];
      }
      r, target := 0, Some(chosen);
      if Wf(p) {
        SchedKeepsWf(p, current, cpu);
      }
    }

    /** rr_sched_handle_timer_irq on `cpu`. */
    method HandleTimerIrq(cpu: nat)
      requires Shaped() && cpu < PLAT_CPU_NUM
      requires currentThreads[cpu].Some? ==> currentThreads[cpu].value in ctxs
      modifies this
      ensures Shaped() && readyQueues == old(readyQueues) && currentThreads == old(currentThreads)
      ensures State() == Ticked(old(State()), old(currentThreads[cpu]))
      ensures old(Valid()) ==> Valid()
    {
      ghost var p := State();
      var current := currentThreads[cpu];
      if current.Some? {
        var t := current.value;
        if ctxs[t].budget > 0 {
          ctxs := ctxs[t := ctxs[t].(budget := ctxs[t].budget - 1)];
        }
      }
      if Wf(p) {
        TickKeepsWf(p, current);
      }
    }
  }
}
