/** kernel/src/arch/i386/sched/scheduler.c over linked tasks, proved to refine SchedulerSpec. */
module Scheduler {
  import opened Words
  import opened SchedulerSpec
  import SchedulerRuns
  import opened SchedulerContexts

  /** A circular doubly linked ring.  A ring of one promises nothing about `previous`. */
  ghost predicate RingLinked(ring: seq<Task>)
    reads ring`next, ring`previous
  {
    ring != [] ==>
      && (forall i :: 0 <= i < |ring| - 1 ==> ring[i].next == ring[i + 1])
      && ring[|ring| - 1].next == ring[0]
      && (|ring| >= 2 ==>
          && (forall i :: 1 <= i < |ring| ==> ring[i].previous == ring[i - 1])
          && ring[0].previous == ring[|ring| - 1])
  }

  /** A null-terminated list threaded through `next`. */
  ghost predicate ListLinked(head: Task?, ts: seq<Task>)
    reads ts`next
  {
    && head == (if ts == [] then null else ts[0])
    && (forall i :: 0 <= i < |ts| - 1 ==> ts[i].next == ts[i + 1])
    && (ts != [] ==> ts[|ts| - 1].next == null)
  }

  /** ListLinked on values: links are the `next` fields. */
  ghost predicate ListShape(head: Task?, ts: seq<Task>, links: seq<Task?>) {
    && |links| == |ts| && head == (if ts == [] then null else ts[0])
    && (forall i :: 0 <= i < |ts| ==> links[i] == After(ts, i))
  }

  ghost function DeltasOf(ts: seq<Task>): (q: seq<Sleeper>)
    reads ts`remaining
    ensures |q| == |ts| && forall i :: 0 <= i < |ts| ==> q[i] == Sleeper(ts[i], ts[i].remaining)
  {
    if ts == [] then [] else [Sleeper(ts[0], ts[0].remaining)] + DeltasOf(ts[1..])
  }

  /** The link a null-terminated list has at index i. */
  ghost function After(ts: seq<Task>, i: nat): Task?
    requires i < |ts|
  {
    if i + 1 < |ts| then ts[i + 1] else null
  }

  lemma DeltasDrop(ts: seq<Task>, n: nat)
    requires n <= |ts|
    ensures DeltasOf(ts[n..]) == DeltasOf(ts)[n..] && TasksOf(DeltasOf(ts)[..n]) == ts[..n]
  {
    hide DeltasOf, TasksOf;
  }

  lemma HeadDecremented(d: seq<Sleeper>, e: seq<Sleeper>)
    requires |d| == |e| > 0 && d[0].delta >= 1 && e[0] == Sleeper(d[0].task, d[0].delta - 1)
    requires forall i :: 1 <= i < |d| ==> e[i] == d[i]
    ensures e == Decremented(d)
  {
  }

  lemma DistinctFromHead(ts: seq<Task>)
    requires NoDup(ts)
    ensures forall i :: 1 <= i < |ts| ==> ts[i] != ts[0]
  {
  }

  ghost predicate Apart(a: seq<Task>, b: seq<Task>) {
    forall i, j :: 0 <= i < |a| && 0 <= j < |b| ==> a[i] != b[j]
  }

  ghost predicate Within(a: seq<Task>, tasks: set<Task>) {
    forall i :: 0 <= i < |a| ==> a[i] in tasks
  }

  lemma RotateLinked(ring: seq<Task>)
    requires RingLinked(ring) && ring != []
    ensures RingLinked(Rotate(ring)) && ring[0].next == Rotate(ring)[0]
  {
  }

  /** TickStep case by case, with ring' the ring after the wake-ups. */
  lemma TickCases(s: State, ring': seq<Task>)
    requires var q := Decremented(s.sleepers); ring' == InsertAll(s.ring, TasksOf(q[..Due(q)]))
    ensures var q := Decremented(s.sleepers);
      var s' := State(ring', if s.left == 0 then 0 else s.left - 1, q[Due(q)..], [], s.reaped + SetOf(s.doomed));
      && (s.ring != [] && s.left > 1 ==> TickStep(s) == s')
      && (s.ring != [] && s.left <= 1 ==> TickStep(s) == s'.(ring := Rotate(ring'), left := Fresh(Rotate(ring'))))
      && (s.ring == [] ==> TickStep(s) == s'.(left := Fresh(ring')))
  {
  }

  class Scheduler {
    var current: Task?
    var switching: bool
    var switched: Task?
    var sleeping: Task?
    var doomed: Task?
    var idleContext: int
    ghost var ring: seq<Task>
    ghost var queue: seq<Task>
    ghost var dead: seq<Task>
    ghost var reaped: set<Task>
    ghost var tasks: set<Task>

    ghost predicate RingOk()
      reads this`ring, this`tasks, tasks`next, tasks`previous
    {
      Within(ring, tasks) && RingLinked(ring) && NoDup(ring)
    }

    ghost predicate QueueOk()
      reads this`ring, this`queue, this`sleeping, this`tasks, tasks`next
    {
      Within(queue, tasks) && ListLinked(sleeping, queue) && NoDup(queue) && Apart(ring, queue)
    }

    ghost predicate DeadOk()
      reads this`ring, this`queue, this`dead, this`doomed, this`tasks, tasks`next
    {
      Within(dead, tasks) && ListLinked(doomed, dead) && NoDup(dead) && Apart(ring, dead) && Apart(queue, dead)
    }

    /** The task put_in_schedule_ring inserts behind heads the ring; without one the ring is empty. */
    ghost predicate Anchored()
      reads this`ring, this`current, this`switched
    {
      var anchor := if current != null then current else switched;
      if anchor == null then ring == [] else ring != [] && ring[0] == anchor
    }

    /** The four assignments both non-empty branches of put_in_schedule_ring share. */
    method LinkBehind(anchor: Task, task: Task)
      requires RingOk() && task in tasks && task !in ring && ring != [] && ring[0] == anchor
      modifies this`ring, tasks`next, tasks`previous
      ensures ring == Insert(old(ring), task) && RingOk()
      ensures forall t :: t in tasks && t != task && t !in old(ring) ==> t.next == old(t.next)
    {
      ghost var n := |ring|;
      assert ring[0].next == if n == 1 then ring[0] else ring[1];
      task.next := anchor.next;
      task.previous := anchor;
      task.next.previous := task;
      anchor.next := task;
      ring := Insert(ring, task);
    }

    method PutInScheduleRing(task: Task)
      requires RingOk() && Anchored() && task in tasks && task !in ring
      modifies this`ring, this`switched, this`switching, tasks`next, tasks`previous
      ensures ring == Insert(old(ring), task) && RingOk() && Anchored()
      ensures forall t :: t in tasks && t != task && t !in old(ring) ==> t.next == old(t.next)
      ensures old(ring) != [] ==> switched == old(switched) && switching == old(switching)
      ensures old(ring) == [] ==> switched == task && switching
    {
      if current != null {
        LinkBehind(current, task);
      } else if switched != null {
        LinkBehind(switched, task);
      } else {
        task.next := task;
        task.previous := task;
        switched := task;
        switching := true;
        ring := Insert(ring, task);
      }
    }

    method RemoveFromScheduleRing() returns (removed: Task)
      requires RingOk() && ring != [] && current == ring[0]
      modifies this`ring, this`switched, tasks`next, tasks`previous
      ensures removed == old(ring)[0] && ring == old(ring)[1..] && RingOk()
      ensures switched == (if ring == [] then null else ring[0])
      ensures forall t :: t in tasks && t !in old(ring) ==> t.next == old(t.next)
    {
      removed := current;
      ghost var n := |ring|;
      assert ring[0].next == if n == 1 then ring[0] else ring[1];
      if current == current.next {
        switched := null;
        assert n == 1;
      } else {
        removed.previous.next := removed.next;
        removed.next.previous := removed.previous;
        switched := removed.next;
      }
      ring := ring[1..];
    }

    /** Releases every doomed task, newest first. */
    method CleanupDoomedTasks() returns (freed: seq<Task>)
      requires DeadOk()
      modifies this`doomed, this`dead, this`reaped
      ensures freed == old(dead) && dead == [] && doomed == null
      ensures reaped == old(reaped) + SetOf(old(dead))
    {
      var task := doomed;
      freed := [];
      while task != null
        invariant |freed| <= |dead| && freed == dead[..|freed|]
        invariant task == if |freed| < |dead| then dead[|freed|] else null
        decreases |dead| - |freed|
      {
        var nextTask := task.next;
        freed := freed + [task];
        task := nextTask;
      }
      doomed := null;
      reaped := reaped + SetOf(dead);
      dead := [];
    }

    /** One wake-up: the head of the sleep queue joins the ring. */
    method WakeOne()
      requires RingOk() && QueueOk() && Anchored() && queue != []
      modifies this`ring, this`queue, this`sleeping, this`switched, this`switching, tasks`next, tasks`previous
      ensures RingOk() && QueueOk() && Anchored()
      ensures queue == old(queue)[1..] && ring == Insert(old(ring), old(queue)[0])
      ensures old(ring) == [] || old(switching) ==> switching
    {
      hide *;
      QueueRest();
      var task, nextSleeping := sleeping, sleeping.next;
      ghost var rest := queue[1..];
      PutInScheduleRing(task);
      sleeping := nextSleeping;
      queue := rest;
      StillLinked(old(AllNext(rest)));
    }

    /** The links of a list, for comparing them before and after. */
    ghost function AllNext(ts: seq<Task>): (links: seq<Task?>)
      reads ts`next
      ensures |links| == |ts| && forall i :: 0 <= i < |ts| ==> links[i] == ts[i].next
    {
      if ts == [] then [] else [ts[0].next] + AllNext(ts[1..])
    }

    /** What the sleep queue is without its head. */
    lemma QueueRest()
      requires RingOk() && QueueOk() && queue != []
      ensures sleeping == queue[0] && queue[0] in tasks && queue[0] !in ring
      ensures var rest := queue[1..];
        && Within(rest, tasks) && NoDup(rest) && Apart(Insert(ring, queue[0]), rest)
        && ListShape(queue[0].next, rest, AllNext(rest))
        && forall i :: 0 <= i < |rest| ==> rest[i] in tasks && rest[i] != queue[0] && rest[i] !in ring
    {
      hide RingLinked;
      var rest := queue[1..];
      assert forall i :: 0 <= i < |rest| ==> rest[i] == queue[i + 1];
    }

    lemma StillLinked(links: seq<Task?>)
      requires Within(queue, tasks) && NoDup(queue) && Apart(ring, queue)
      requires ListShape(sleeping, queue, links) && forall i :: 0 <= i < |queue| ==> queue[i].next == links[i]
      ensures QueueOk()
    {
    }

    lemma QueueHead()
      requires QueueOk()
      ensures sleeping == if queue == [] then null else queue[0]
    {
    }

    /** The wake-up loop of sched_ms_tick: every sleeper with nothing left to wait joins the ring. */
    method WakeDue()
      requires RingOk() && QueueOk() && Anchored()
      modifies this`ring, this`queue, this`sleeping, this`switched, this`switching, tasks`next, tasks`previous
      ensures RingOk() && QueueOk() && Anchored()
      ensures var q := old(DeltasOf(queue));
        DeltasOf(queue) == q[Due(q)..] && ring == InsertAll(old(ring), TasksOf(q[..Due(q)]))
      ensures old(ring) == [] && ring != [] ==> switching
    {
      hide RingOk, QueueOk, Anchored, DeltasOf;
      ghost var q0, d0, n, i := queue, DeltasOf(queue), Due(DeltasOf(queue)), 0;
      DeltasDrop(q0, n);
      assert q0[0..n] == q0[..n] && q0[0..] == q0 && d0[0..] == d0;
      QueueHead();
      while sleeping != null && sleeping.remaining == 0
        invariant 0 <= i <= n <= |q0| && queue == q0[i..] && Due(d0[i..]) == n - i
        invariant RingOk() && QueueOk() && Anchored()
        invariant sleeping == if i == |q0| then null else q0[i]
        invariant InsertAll(ring, q0[i..n]) == InsertAll(old(ring), q0[..n])
        invariant old(ring) == [] && ring != [] ==> switching
        decreases |q0| - i
      {
        WakeStep(q0, d0, i, n);
        WakeOne();
        QueueHead();
        i := i + 1;
      }
      WakeEnd(q0, d0, i, n);
    }

    lemma WakeEnd(q0: seq<Task>, d0: seq<Sleeper>, i: nat, n: nat)
      requires i <= n <= |q0| && d0 == DeltasOf(q0) && Due(d0[i..]) == n - i
      requires i < |q0| ==> q0[i].remaining != 0
      ensures i == n && q0[i..n] == [] && DeltasOf(q0[n..]) == d0[n..]
    {
      DeltasDrop(q0, n);
    }

    /** Bookkeeping of one wake-up. */
    lemma WakeStep(q0: seq<Task>, d0: seq<Sleeper>, i: nat, n: nat)
      requires i < |q0| == |d0| && i <= n <= |q0| && d0[i].delta == 0 && Due(d0[i..]) == n - i
      ensures i < n && Due(d0[i + 1..]) == n - i - 1
      ensures q0[i..n] == [q0[i]] + q0[i + 1..n] && q0[i..n][1..] == q0[i + 1..n] && q0[i..][1..] == q0[i + 1..]
    {
      assert d0[i..][1..] == d0[i + 1..];
    }

    ghost function Abs(): State
      requires Within(ring, tasks) && Within(queue, tasks)
      reads this, tasks
    {
      State(ring, if ring == [] then 0 else ring[0].remaining, DeltasOf(queue), dead, reaped)
    }

    /** Between events: the running task heads the ring, and switched_task only matters when idle. */
    ghost predicate Valid()
      reads this, tasks
    {
      && RingOk() && QueueOk() && DeadOk() && Inv(Abs()) && Everyone(Abs()) == tasks
      && (if current == null then ring == [] && switched == null else ring != [] && ring[0] == current)
    }

    /** The task sched_switch_next_task is about to leave the CPU to. */
    ghost function Successor(): Task?
      reads this
    {
      if switching then switched else current
    }

    /** Between a handler and the switch: whatever runs next already heads the ring. */
    ghost predicate Decided()
      reads this, tasks
    {
      && RingOk() && QueueOk() && DeadOk() && (current != null ==> current in tasks)
      && (current == null && !switching ==> switched == null)
      && (if Successor() == null then ring == [] else ring != [] && ring[0] == Successor())
    }

    /** Who has the CPU and what is saved for everybody. */
    ghost function CpuOf(): Cpu
      reads this`current, this`idleContext, this`tasks, tasks`context
    {
      Cpu(current, map t | t in tasks :: t.context, idleContext)
    }

    /** The state the switch will produce. */
    ghost function Pending(): State
      requires Within(ring, tasks) && Within(queue, tasks)
      reads this, tasks
    {
      var left := if ring == [] then 0 else if switching then ring[0].priority else ring[0].remaining;
      State(ring, left, DeltasOf(queue), dead, reaped)
    }

    /**
     * sched_switch_next_task.  It saves the context of whoever leaves the CPU and returns the one saved
     * for whoever gets it; switched_task is only looked at when `switching` says it is up to date.
     */
    method SwitchNextTask(context: int) returns (restored: int)
      requires Decided()
      modifies this`current, this`idleContext, tasks`remaining, tasks`context
      ensures RingOk() && QueueOk() && DeadOk() && current == old(Successor())
      ensures Abs() == old(Pending())
      ensures Switched(old(CpuOf()), context, CpuOf(), restored) && (current == old(current) ==> restored == context)
    {
      hide RingLinked, ListLinked, NoDup;
      restored := context;
      assert switched != null && switching ==> forall i :: 0 <= i < |queue| ==> queue[i] != switched;
      if switching {
        if current != null {
          current.context := context;
        } else {
          idleContext := context;
        }
        if switched != null {
          current := switched;
          current.remaining := current.priority;
          restored := current.context;
        } else {
          current := null;
          restored := idleContext;
        }
      }
    }

    /** The tick's decrement of the first delta, in 32-bit arithmetic: it never wraps. */
    method DecrementHead()
      requires QueueOk() && RingOk() && (queue != [] ==> queue[0].remaining >= 1)
      modifies tasks`remaining
      ensures QueueOk() && RingOk() && DeltasOf(queue) == Decremented(old(DeltasOf(queue)))
      ensures ring != [] ==> ring[0].remaining == old(ring[0].remaining)
    {
      hide RingLinked, NoDup;
      if sleeping != null {
        assert queue != [] && sleeping == queue[0];
        assert ring != [] ==> ring[0] != queue[0];
        assert forall i :: 1 <= i < |queue| ==> queue[i] != sleeping by { DistinctFromHead(queue); }
        hide ListLinked, Apart, DeltasOf, Decremented;
        ghost var d := DeltasOf(queue);
        sleeping.remaining := ToU32(sleeping.remaining - 1);
        HeadDecremented(d, DeltasOf(queue));
      } else {
        assert DeltasOf(queue) == [];
      }
    }

    /** The tick's charge to the running task. */
    method ChargeCurrent()
      requires RingOk() && QueueOk()
      requires current != null ==> ring != [] && ring[0] == current && current.remaining >= 1
      modifies this`ring, this`switched, this`switching, tasks`remaining
      ensures RingOk() && QueueOk() && DeltasOf(queue) == old(DeltasOf(queue))
      ensures current == null ==> ring == old(ring) && switched == old(switched) && switching == old(switching)
      ensures current != null && old(current.remaining) == 1 ==>
        switching && ring == Rotate(old(ring)) && ring != [] && switched == ring[0]
      ensures current != null && old(current.remaining) > 1 ==>
        !switching && ring == old(ring) && current.remaining == old(current.remaining) - 1
    {
      hide RingLinked, ListLinked, NoDup;
      if current != null {
        assert forall i :: 0 <= i < |queue| ==> queue[i] != current;
        current.remaining := ToU32(current.remaining - 1);
        assert DeltasOf(queue) == old(DeltasOf(queue));
        if current.remaining == 0 {
          switched := current.next;
          switching := true;
          RotateRing();
        } else {
          switching := false;
        }
      }
    }

    /** Reading the ring from its second task on changes no link. */
    ghost method RotateRing()
      requires RingOk() && QueueOk() && ring != []
      modifies this`ring
      ensures RingOk() && QueueOk() && ring == Rotate(old(ring)) && ring != [] && ring[0] == old(ring[0].next)
      ensures old(DeadOk()) ==> DeadOk()
    {
      RotateLinked(ring);
      RotateTasks(ring);
      ring := Rotate(ring);
    }

    /** sched_ms_tick up to the charge: doomed tasks go, due sleepers come back. */
    method CleanAndWake() returns (freed: seq<Task>)
      requires Valid()
      modifies this`ring, this`queue, this`dead, this`reaped, this`sleeping, this`doomed, this`switched, this`switching
      modifies tasks`next, tasks`previous, tasks`remaining
      ensures RingOk() && QueueOk() && Anchored()
      ensures freed == old(dead) && dead == [] && doomed == null && reaped == old(reaped) + SetOf(freed)
      ensures var q := Decremented(old(DeltasOf(queue)));
        DeltasOf(queue) == q[Due(q)..] && ring == InsertAll(old(ring), TasksOf(q[..Due(q)]))
      ensures current != null ==> current.remaining == old(current.remaining)
      ensures current == null && ring != [] ==> switching
    {
      hide *;
      IdleOrRunning();
      freed := CleanupDoomedTasks();
      DecrementHead();
      WakeDue();
    }

    lemma IdleOrRunning()
      requires Valid()
      ensures RingOk() && QueueOk() && DeadOk() && Anchored() && Within(ring, tasks) && Within(queue, tasks)
      ensures queue != [] ==> queue[0].remaining >= 1
      ensures if current == null then ring == [] else ring != [] && ring[0] == current && current.remaining >= 1
      ensures current != null ==> current in tasks
    {
      assert queue != [] ==> DeltasOf(queue)[0].delta >= 1;
    }

    method MsTick() returns (freed: seq<Task>)
      requires Valid()
      modifies this`ring, this`queue, this`dead, this`reaped, this`sleeping, this`doomed, this`switched, this`switching
      modifies tasks`next, tasks`previous, tasks`remaining
      ensures Decided() && Pending() == TickStep(old(Abs()))
      ensures freed == old(dead)
    {
      hide RingOk, QueueOk, DeadOk, Valid, TickStep, Decremented, Due, InsertAll, Rotate, DeltasOf;
      IdleOrRunning();
      ghost var s := Abs();
      freed := CleanAndWake();
      TickCases(s, ring);
      ChargeCurrent();
      NoDead();
    }

    lemma NoDead()
      requires dead == [] && doomed == null
      ensures DeadOk()
    {
    }

    /** RemoveFromScheduleRing leaves the other two lists alone. */
    method TakeCurrent() returns (removed: Task)
      requires RingOk() && QueueOk() && DeadOk() && ring != [] && current == ring[0]
      modifies this`ring, this`switched, tasks`next, tasks`previous
      ensures RingOk() && QueueOk() && DeadOk()
      ensures removed == old(ring)[0] && removed in tasks && ring == old(ring)[1..]
      ensures switched == if ring == [] then null else ring[0]
      ensures removed !in ring && removed !in queue && removed !in dead
    {
      hide RingLinked;
      assert Apart(ring[1..], queue) && Apart(ring[1..], dead);
      assert ring[0] !in queue && ring[0] !in dead;
      assert forall i :: 0 <= i < |queue| ==> queue[i] in tasks && queue[i] !in ring;
      assert forall i :: 0 <= i < |dead| ==> dead[i] in tasks && dead[i] !in ring;
      DistinctFromHead(ring);
      removed := RemoveFromScheduleRing();
      assert forall i :: 0 <= i < |queue| ==> queue[i].next == old(queue[i].next);
      assert forall i :: 0 <= i < |dead| ==> dead[i].next == old(dead[i].next);
    }

    method KillTask()
      requires Valid() && current != null
      modifies this`ring, this`dead, this`doomed, this`switched, this`switching, tasks`next, tasks`previous
      ensures Decided() && Pending() == KillStep(old(Abs()))
    {
      hide Valid, RingOk, QueueOk, DeadOk, Decided, Pending, DeltasOf, Within, Fresh;
      IdleOrRunning();
      switching := true;
      var dead := TakeCurrent();
      Bury(dead);
      Settled();
    }

    /** With `switching` set and the head of the ring chosen, the switch will give it a fresh quantum. */
    lemma Settled()
      requires RingOk() && QueueOk() && DeadOk() && switching && (current != null ==> current in tasks)
      requires switched == if ring == [] then null else ring[0]
      ensures Within(ring, tasks) && Within(queue, tasks)
      ensures Decided() && Pending() == State(ring, Fresh(ring), DeltasOf(queue), dead, reaped)
    {
      hide RingLinked, ListLinked, NoDup, Apart, DeltasOf;
    }

    /** The end of sched_kill_task: the task goes on top of the doomed list. */
    method Bury(task: Task)
      requires RingOk() && QueueOk() && DeadOk() && task in tasks
      requires task !in ring && task !in queue && task !in dead
      modifies this`dead, this`doomed, task`next
      ensures RingOk() && QueueOk() && DeadOk() && dead == [task] + old(dead)
    {
      task.next := doomed;
      doomed := task;
      this.dead := [task] + this.dead;
    }

    /** The search loop of sched_park_task: the slot between `previous` and `t`, and what is left to wait there. */
    method FindSlot(ms: uint32, ghost x: Task) returns (previous: Task?, t: Task?, remaining: uint32, ghost k: nat)
      requires QueueOk() && ms > 0
      ensures k <= |queue| && 1 <= remaining <= ms
      ensures t == (if k < |queue| then queue[k] else null) && previous == (if k == 0 then null else queue[k - 1])
      ensures t != null ==> t.remaining >= remaining
      ensures var d := DeltasOf(queue);
        InsertSleeper(d, x, ms) == d[..k] + InsertSleeper(d[k..], x, remaining)
    {
      hide QueueOk, DeltasOf, InsertSleeper;
      QueueHead();
      ghost var d := DeltasOf(queue);
      previous, t, remaining, k := null, sleeping, ms, 0;
      assert d[0..] == d && d[..0] == [];
      while t != null && t.remaining < remaining
        invariant k <= |queue| && 1 <= remaining <= ms
        invariant t == (if k < |queue| then queue[k] else null) && previous == (if k == 0 then null else queue[k - 1])
        invariant InsertSleeper(d, x, ms) == d[..k] + InsertSleeper(d[k..], x, remaining)
        decreases |queue| - k
      {
        SlotStep(d, x, remaining, k);
        QueueNext(k);
        remaining := remaining - t.remaining;
        previous := t;
        t := t.next;
        k := k + 1;
      }
    }

    lemma QueueNext(k: nat)
      requires QueueOk() && k < |queue|
      ensures queue[k].next == if k + 1 < |queue| then queue[k + 1] else null
    {
    }

    lemma SlotStep(d: seq<Sleeper>, x: Task, remaining: nat, k: nat)
      requires k < |d| && d[k].delta < remaining
      ensures d[..k] + InsertSleeper(d[k..], x, remaining) == d[..k + 1] + InsertSleeper(d[k + 1..], x, remaining - d[k].delta)
    {
      assert d[k..][1..] == d[k + 1..];
      assert d[..k] + [d[k]] == d[..k + 1];
    }

    /** Links the task into the sleep queue between `previous` and `t`. */
    method LinkSleeper(task: Task, previous: Task?, t: Task?, ghost k: nat)
      requires RingOk() && QueueOk() && DeadOk() && task in tasks
      requires task !in ring && task !in queue && task !in dead && k <= |queue|
      requires t == (if k < |queue| then queue[k] else null) && previous == (if k == 0 then null else queue[k - 1])
      modifies this`sleeping, this`queue, tasks`next
      ensures RingOk() && QueueOk() && DeadOk() && queue == old(queue)[..k] + [task] + old(queue)[k..]
    {
      hide *;
      SpliceApart(task, previous, k);
      task.next := t;
      if previous != null {
        previous.next := task;
      } else {
        sleeping := task;
      }
      queue := queue[..k] + [task] + queue[k..];
      assert forall i :: 0 <= i < |old(queue)| && i != k - 1 ==> old(queue)[i].next == old(queue[i].next);
      SpliceLinked(old(queue), k, task, sleeping);
      Relinked();
    }

    /** What the splice must not disturb, before it happens. */
    lemma SpliceApart(task: Task, previous: Task?, k: nat)
      requires RingOk() && QueueOk() && DeadOk() && task in tasks
      requires task !in ring && task !in queue && task !in dead && k <= |queue|
      requires previous == if k == 0 then null else queue[k - 1]
      ensures var q := queue[..k] + [task] + queue[k..];
        Within(q, tasks) && NoDup(q) && Apart(ring, q) && Apart(q, dead)
      ensures RingLinked(ring) && Within(ring, tasks) && NoDup(ring)
      ensures ListLinked(doomed, dead) && Within(dead, tasks) && NoDup(dead) && Apart(ring, dead)
      ensures previous != null ==> previous in tasks
      ensures forall i :: 0 <= i < |ring| ==> ring[i] != task && ring[i] != previous
      ensures forall i :: 0 <= i < |dead| ==> dead[i] != task && dead[i] != previous
      ensures forall i :: 0 <= i < |queue| ==> queue[i] != task && (i != k - 1 ==> queue[i] != previous)
      ensures sleeping == if queue == [] then null else queue[0]
      ensures forall i :: 0 <= i < |queue| ==> queue[i].next == After(queue, i)
    {
      hide RingLinked;
      InsertAtTasks(queue, k, task);
    }

    lemma SpliceLinked(q: seq<Task>, k: nat, task: Task, head: Task?)
      requires k <= |q| && head == if k == 0 then task else q[0]
      requires forall i :: 0 <= i < |q| && i != k - 1 ==> q[i].next == After(q, i)
      requires k > 0 ==> q[k - 1].next == task
      requires task.next == if k < |q| then q[k] else null
      ensures ListLinked(head, q[..k] + [task] + q[k..])
    {
      var r := q[..k] + [task] + q[k..];
      forall i | 0 <= i < |r| ensures r[i].next == After(r, i) {
        if i < k {
          assert r[i] == q[i];
        } else if i > k {
          assert r[i] == q[i - 1];
        }
      }
    }

    lemma Relinked()
      requires Within(queue, tasks) && NoDup(queue) && Apart(ring, queue) && Apart(queue, dead)
      requires RingLinked(ring) && Within(ring, tasks) && NoDup(ring)
      requires ListLinked(doomed, dead) && Within(dead, tasks) && NoDup(dead) && Apart(ring, dead)
      requires ListLinked(sleeping, queue)
      ensures RingOk() && QueueOk() && DeadOk()
    {
    }

    /** The search-and-insert branch of sched_park_task. */
    method Enqueue(task: Task, ms: uint32)
      requires RingOk() && QueueOk() && DeadOk() && task in tasks && ms > 0
      requires task !in ring && task !in queue && task !in dead
      modifies this`sleeping, this`queue, tasks`next, tasks`remaining
      ensures RingOk() && QueueOk() && DeadOk()
      ensures DeltasOf(queue) == InsertSleeper(old(DeltasOf(queue)), task, ms)
    {
      hide *;
      ghost var q0, d := queue, DeltasOf(queue);
      var previous, t, remaining, k := FindSlot(ms, task);
      QueueDistinct(k);
      task.remaining := remaining;
      LinkSleeper(task, previous, t, k);
      if t != null {
        t.remaining := t.remaining - remaining;
      }
      QueueDeltas(q0, d, task, remaining, k);
    }

    /** The deltas of a queue with one link spliced in at k. */
    lemma QueueDeltas(q0: seq<Task>, d: seq<Sleeper>, task: Task, remaining: nat, k: nat)
      requires |d| == |q0| && k <= |q0| && queue == q0[..k] + [task] + q0[k..] && task.remaining == remaining
      requires forall i :: 0 <= i < |q0| ==> d[i].task == q0[i] && (i != k ==> q0[i].remaining == d[i].delta)
      requires k < |q0| ==> q0[k].remaining == d[k].delta - remaining
      ensures DeltasOf(queue) == d[..k] + InsertSleeper(d[k..], task, remaining)
    {
      hide DeltasOf, InsertSleeper;
      SlotFilled(d, DeltasOf(queue), task, remaining, k);
    }

    lemma QueueDistinct(k: nat)
      requires QueueOk() && k <= |queue|
      ensures k < |queue| ==> queue[k] in tasks && forall i :: 0 <= i < |queue| && i != k ==> queue[i] != queue[k]
    {
    }

    lemma SlotFilled(d: seq<Sleeper>, e: seq<Sleeper>, task: Task, remaining: nat, k: nat)
      requires k <= |d| && |e| == |d| + 1 && (k < |d| ==> d[k].delta >= remaining)
      requires forall i :: 0 <= i < k ==> e[i] == d[i]
      requires e[k] == Sleeper(task, remaining)
      requires k < |d| ==> e[k + 1] == Sleeper(d[k].task, d[k].delta - remaining)
      requires forall i :: k < i < |d| ==> e[i + 1] == d[i]
      ensures e == d[..k] + InsertSleeper(d[k..], task, remaining)
    {
      if k < |d| {
        assert d[k..][1..] == d[k + 1..];
        assert e == d[..k] + ([Sleeper(task, remaining), Sleeper(d[k].task, d[k].delta - remaining)] + d[k + 1..]);
      } else {
        assert e == d[..k] + [Sleeper(task, remaining)];
      }
    }

    /** sched_park_task after the task has left the ring. */
    method GoToBed(task: Task, ms: uint32)
      requires RingOk() && QueueOk() && DeadOk() && task in tasks && ms > 0
      requires task !in ring && task !in queue && task !in dead
      modifies this`sleeping, this`queue, tasks`next, tasks`remaining
      ensures RingOk() && QueueOk() && DeadOk()
      ensures DeltasOf(queue) == InsertSleeper(old(DeltasOf(queue)), task, ms)
    {
      if sleeping == null {
        task.next := null;
        task.remaining := ms;
        sleeping := task;
        queue := [task];
      } else {
        Enqueue(task, ms);
      }
    }

    method ParkTask(ms: uint32)
      requires Valid() && current != null
      modifies this`ring, this`queue, this`sleeping, this`switched, this`switching
      modifies tasks`next, tasks`previous, tasks`remaining
      ensures Decided() && Pending() == ParkStep(old(Abs()), ms)
    {
      hide Valid, RingOk, QueueOk, DeadOk, InsertSleeper, DeltasOf, Decided, Pending, Within, Fresh, Rotate;
      IdleOrRunning();
      switching := true;
      if ms == 0 {
        switched := current.next;
        RotateRing();
      } else {
        var goingToBed := TakeCurrent();
        GoToBed(goingToBed, ms);
      }
      Settled();
    }

    // ----- the events

    /** sched_init_tasks: the boot flow becomes the only task; its `previous` stays unset. */
    constructor (priority: uint32, context: int, idle: int)
      requires priority >= 1
      ensures Valid() && current != null && SchedulerRuns.IsInitial(Abs(), current) && fresh(tasks)
      ensures Abs() == State([current], priority, [], [], {})
      ensures CpuOf() == Cpu(current, map[current := context], idle)
    {
      var first := new Task(priority, context);
      first.next := first;
      current, switched, sleeping, doomed := first, null, null, null;
      switching, idleContext := false, idle;
      ring, queue, dead, reaped, tasks := [first], [], [], {}, {first};
      new;
      SchedulerRuns.InitialInv(Abs(), first);
    }

    lemma Resumed(s: State, e: Event)
      requires Inv(s) && Enabled(s, e) && RingOk() && QueueOk() && DeadOk()
      requires Abs() == Step(s, e) && tasks == Everyone(s) + (if e.Spawn? then {e.task} else {})
      requires if current == null then ring == [] && switched == null else ring != [] && ring[0] == current
      ensures Valid()
    {
      hide Inv, Enabled, Step, Everyone, RingOk, QueueOk, DeadOk;
      StepKeepsInv(s, e);
    }

    lemma Start()
      requires Valid()
      ensures Inv(Abs()) && Everyone(Abs()) == tasks && (current != null <==> Abs().ring != [])
      ensures current != null ==> Enabled(Abs(), Kill) && forall ms :: Enabled(Abs(), Park(ms))
    {
    }

    /** irq0_handler: one millisecond has passed. */
    method Irq0(context: int) returns (restored: int, freed: seq<Task>)
      requires Valid()
      modifies this, tasks
      ensures Valid() && tasks == old(tasks) && Abs() == Step(old(Abs()), Tick) && freed == old(Abs()).doomed
      ensures Switched(old(CpuOf()), context, CpuOf(), restored) && (current == old(current) ==> restored == context)
    {
      hide Valid, RingOk, QueueOk, DeadOk, TickStep, Inv, Everyone, DeltasOf, Switched;
      IdleOrRunning();
      Start();
      ghost var s := Abs();
      freed := MsTick();
      restored := SwitchNextTask(context);
      Resumed(s, Tick);
    }

    /** int50_handler: the running task sleeps for ms, or yields when ms is 0. */
    method Int50(ms: uint32, context: int) returns (restored: int)
      requires Valid() && current != null
      modifies this, tasks
      ensures Valid() && tasks == old(tasks) && Enabled(old(Abs()), Park(ms)) && Abs() == Step(old(Abs()), Park(ms))
      ensures Switched(old(CpuOf()), context, CpuOf(), restored) && (current == old(current) ==> restored == context)
    {
      hide Valid, RingOk, QueueOk, DeadOk, ParkStep, Inv, Everyone, DeltasOf, Switched;
      IdleOrRunning();
      Start();
      ghost var s := Abs();
      ParkTask(ms);
      restored := SwitchNextTask(context);
      Resumed(s, Park(ms));
    }

    /** int51_handler: the running task exits. */
    method Int51(context: int) returns (restored: int)
      requires Valid() && current != null
      modifies this, tasks
      ensures Valid() && tasks == old(tasks) && Enabled(old(Abs()), Kill) && Abs() == Step(old(Abs()), Kill)
      ensures Switched(old(CpuOf()), context, CpuOf(), restored) && (current == old(current) ==> restored == context)
    {
      hide Valid, RingOk, QueueOk, DeadOk, KillStep, Inv, Everyone, DeltasOf, Switched;
      IdleOrRunning();
      Start();
      ghost var s := Abs();
      KillTask();
      restored := SwitchNextTask(context);
      Resumed(s, Kill);
    }

    /** sched_new_thread as one step: the new task joins the ring right behind its creator. */
    method NewThread(priority: uint32, context: int) returns (task: Task)
      requires Valid() && current != null && priority >= 1
      modifies this, tasks
      ensures Valid() && fresh(task) && tasks == old(tasks) + {task}
      ensures Enabled(old(Abs()), Spawn(task)) && Abs() == Step(old(Abs()), Spawn(task))
      ensures CpuStep(old(CpuOf()), Create(task, context), CpuOf())
    {
      hide Valid, RingOk, QueueOk, DeadOk, Inv, Everyone, DeltasOf, Enabled, Step, CpuStep, Insert, Within;
      IdleOrRunning();
      ghost var s := Abs();
      task := new Task(priority, context);
      Admit(task);
      AddToRing(task);
      SpawnedState(s, task);
      Resumed(s, Spawn(task));
    }

    /** A new object becomes a task of the scheduler, on none of its lists yet. */
    ghost method Admit(task: Task)
      requires Valid() && current != null && task !in tasks && task.priority >= 1
      modifies this`tasks
      ensures tasks == old(tasks) + {task} && RingOk() && QueueOk() && DeadOk() && Within(ring, tasks) && Within(queue, tasks)
      ensures task !in ring && task !in queue && task !in dead && ring != [] && ring[0] == current
      ensures Abs() == old(Abs()) && Inv(Abs()) && Everyone(Abs()) == old(tasks) && Enabled(Abs(), Spawn(task))
      ensures CpuStep(old(CpuOf()), Create(task, task.context), CpuOf())
    {
      hide Inv, Everyone, DeltasOf, RingLinked, ListLinked, NoDup;
      Start();
      tasks := tasks + {task};
      assert task !in ring && task !in queue && task !in dead;
    }

    lemma SpawnedState(s: State, task: Task)
      requires Within(ring, tasks) && Within(queue, tasks) && Enabled(s, Spawn(task))
      requires ring == Insert(s.ring, task) && ring != [] && ring[0].remaining == s.left
      requires DeltasOf(queue) == s.sleepers && dead == s.doomed && reaped == s.reaped
      ensures Abs() == Step(s, Spawn(task))
    {
      hide DeltasOf;
    }

    /** put_in_schedule_ring for a task on none of the lists. */
    method AddToRing(task: Task)
      requires RingOk() && QueueOk() && DeadOk() && task in tasks && task !in ring && task !in queue && task !in dead
      requires current != null && ring != [] && ring[0] == current
      modifies this`ring, this`switched, this`switching, tasks`next, tasks`previous
      ensures RingOk() && QueueOk() && DeadOk() && Within(ring, tasks) && Within(queue, tasks)
      ensures ring == Insert(old(ring), task) && ring != [] && ring[0] == current
    {
      hide RingLinked, NoDup;
      assert forall i :: 0 <= i < |queue| ==> queue[i] in tasks && queue[i] !in ring && queue[i] != task;
      assert forall i :: 0 <= i < |dead| ==> dead[i] in tasks && dead[i] !in ring && dead[i] != task;
      PutInScheduleRing(task);
      assert forall i :: 0 <= i < |queue| ==> queue[i].next == old(queue[i].next);
      assert forall i :: 0 <= i < |dead| ==> dead[i].next == old(dead[i].next);
    }
  }
}
