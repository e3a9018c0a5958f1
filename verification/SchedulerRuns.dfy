/** Properties of whole runs of the scheduler. */
module SchedulerRuns {
  import opened Words
  import opened SchedulerSpec

  /** A run: one enabled event between any two consecutive states. */
  ghost predicate IsRun(states: seq<State>, events: seq<Event>) {
    && |states| == |events| + 1
    && forall i :: 0 <= i < |events| ==> Enabled(states[i], events[i]) && states[i + 1] == Step(states[i], events[i])
  }

  /** sched_init_tasks: the first task runs alone. */
  ghost predicate IsInitial(s: State, first: Task) {
    s == State([first], first.priority, [], [], {}) && first.priority >= 1
  }

  function Spawned(events: seq<Event>): set<Task> {
    if events == [] then {}
    else Spawned(events[..|events| - 1]) +
         match events[|events| - 1] { case Spawn(t) => {t} case _ => {} }
  }

  function Ticks(events: seq<Event>): nat {
    if events == [] then 0
    else Ticks(events[..|events| - 1]) + if events[|events| - 1].Tick? then 1 else 0
  }

  // ----- safety of every reachable state

  lemma InitialInv(s: State, first: Task)
    requires IsInitial(s, first)
    ensures Inv(s) && Everyone(s) == {first}
  {
    assert TasksOf([]) == [];
  }

  lemma {:induction false} RunKeepsInv(states: seq<State>, events: seq<Event>, i: nat)
    requires IsRun(states, events) && i <= |events| && Inv(states[0])
    ensures Inv(states[i])
    ensures Everyone(states[i]) == Everyone(states[0]) + Spawned(events[..i])
    ensures states[0].reaped <= states[i].reaped
  {
    if i != 0 {
      RunKeepsInv(states, events, i - 1);
      assert events[..i][..i - 1] == events[..i - 1];
      StepKeepsInv(states[i - 1], events[i - 1]);
    }
  }

  /**
   * In every reachable state the ring, the sleep queue, the doomed list and the reaped tasks partition
   * all tasks ever created, and a task once reaped never runs again.
   */
  lemma ReachableSafe(states: seq<State>, events: seq<Event>, first: Task, i: nat, j: nat)
    requires IsRun(states, events) && IsInitial(states[0], first) && i <= j <= |events|
    ensures Inv(states[j]) && Everyone(states[j]) == {first} + Spawned(events[..j])
    ensures states[i].reaped <= states[j].reaped
    ensures forall t :: t in states[i].reaped ==> t !in states[j].ring
  {
    InitialInv(states[0], first);
    RunKeepsInv(states, events, i);
    RunKeepsInv(states, events, j);
    var tail, tailEvents := states[i..], events[i..];
    assert IsRun(tail, tailEvents);
    RunKeepsInv(tail, tailEvents, j - i);
    forall t | t in states[i].reaped ensures t !in states[j].ring {
      assert t !in SetOf(states[j].ring);
    }
  }

  // ----- sleeping

  /** Delta insertion gives the new sleeper its own time and leaves every other wake time alone. */
  lemma {:induction false} InsertWake(q: seq<Sleeper>, t: Task, ms: nat, u: Task)
    requires t !in TasksOf(q) && (u == t || u in TasksOf(q))
    ensures u in TasksOf(InsertSleeper(q, t, ms))
    ensures WakeIn(InsertSleeper(q, t, ms), u) == if u == t then ms else WakeIn(q, u)
  {
    var q' := InsertSleeper(q, t, ms);
    InsertSleeperShape(q, t, ms);
    TasksOfTail(q');
    if q != [] {
      TasksOfTail(q);
      if q[0].delta < ms {
        assert q'[1..] == InsertSleeper(q[1..], t, ms - q[0].delta);
        if u != q[0].task {
          InsertWake(q[1..], t, ms - q[0].delta, u);
        }
      } else {
        assert q'[1..][1..] == q[1..];
        assert q'[1..][0] == Sleeper(q[0].task, q[0].delta - ms);
        TasksOfTail(q'[1..]);
      }
    }
  }

  lemma DecrementWake(q: seq<Sleeper>, u: Task)
    requires u in TasksOf(q) && q[0].delta >= 1
    ensures TasksOf(Decremented(q)) == TasksOf(q)
    ensures WakeIn(Decremented(q), u) == WakeIn(q, u) - 1
  {
    TasksOfTail(q);
    assert Decremented(q)[1..] == q[1..];
    assert TasksOf(Decremented(q)) == TasksOf(q);
  }

  /** The leading zero deltas are exactly the sleepers with no time left. */
  lemma {:induction false} DueWake(q: seq<Sleeper>, u: Task)
    requires u in TasksOf(q) && NoDup(TasksOf(q))
    ensures WakeIn(q, u) == 0 ==> u in TasksOf(q[..Due(q)])
    ensures WakeIn(q, u) > 0 ==> u in TasksOf(q[Due(q)..]) && WakeIn(q[Due(q)..], u) == WakeIn(q, u)
  {
    hide TasksOf;
    TasksOfTail(q);
    var n, r := Due(q), q[1..];
    if q[0].delta != 0 {
      assert q[n..] == q;
    } else {
      DueHead(q);
      if q[0].task != u {
        NoDupTail(q);
        DueWake(r, u);
      }
    }
  }

  /** The due part of a queue whose head is due. */
  lemma DueHead(q: seq<Sleeper>)
    requires q != [] && q[0].delta == 0
    ensures Due(q) == Due(q[1..]) + 1 && q[Due(q)..] == q[1..][Due(q[1..])..]
    ensures TasksOf(q[..Due(q)]) == [q[0].task] + TasksOf(q[1..][..Due(q[1..])])
  {
    var n := Due(q);
    assert q[..n] == [q[0]] + q[1..][..n - 1];
    TasksOfTail(q[..n]);
  }

  lemma NoDupTail(q: seq<Sleeper>)
    requires q != [] && NoDup(TasksOf(q))
    ensures NoDup(TasksOf(q[1..]))
  {
  }

  /** One tick takes one ms off every sleeper and wakes exactly those that had one left. */
  lemma TickWake(s: State, u: Task)
    requires Inv(s) && u in TasksOf(s.sleepers)
    ensures WakeIn(s.sleepers, u) >= 1
    ensures WakeIn(s.sleepers, u) == 1 ==> u in TickStep(s).ring
    ensures WakeIn(s.sleepers, u) > 1 ==>
      u in TasksOf(TickStep(s).sleepers) && WakeIn(TickStep(s).sleepers, u) == WakeIn(s.sleepers, u) - 1
  {
    var q := Decremented(s.sleepers);
    DecrementWake(s.sleepers, u);
    DueWake(q, u);
    TickTasks(s);
    if WakeIn(s.sleepers, u) == 1 {
      assert u in SetOf(TasksOf(q[..Due(q)]));
      assert u in SetOf(TickStep(s).ring);
    }
  }

  lemma StepWake(s: State, e: Event, u: Task)
    requires Inv(s) && Enabled(s, e) && u in TasksOf(s.sleepers)
    ensures !e.Tick? ==> u in TasksOf(Step(s, e).sleepers) && WakeIn(Step(s, e).sleepers, u) == WakeIn(s.sleepers, u)
    ensures e.Tick? && WakeIn(s.sleepers, u) > 1 ==>
      u in TasksOf(Step(s, e).sleepers) && WakeIn(Step(s, e).sleepers, u) == WakeIn(s.sleepers, u) - 1
    ensures e.Tick? && WakeIn(s.sleepers, u) == 1 ==> u in Step(s, e).ring
    ensures WakeIn(s.sleepers, u) >= 1
  {
    TickWake(s, u);
    if e.Park? && e.ms != 0 {
      assert s.ring[0] in SetOf(s.ring);
      assert s.ring[0] !in SetOf(TasksOf(s.sleepers));
      InsertWake(s.sleepers, s.ring[0], e.ms, u);
    }
  }

  lemma {:induction false} Countdown(states: seq<State>, events: seq<Event>, u: Task, ms: nat, i: nat)
    requires IsRun(states, events) && Inv(states[0]) && i <= |events|
    requires u in TasksOf(states[0].sleepers) && WakeIn(states[0].sleepers, u) == ms
    requires Ticks(events[..i]) < ms
    ensures u in TasksOf(states[i].sleepers) && WakeIn(states[i].sleepers, u) == ms - Ticks(events[..i])
    ensures u !in states[i].ring
  {
    RunKeepsInv(states, events, i);
    if i != 0 {
      assert events[..i][..i - 1] == events[..i - 1];
      Countdown(states, events, u, ms, i - 1);
      RunKeepsInv(states, events, i - 1);
      StepWake(states[i - 1], events[i - 1], u);
    }
    assert u in SetOf(TasksOf(states[i].sleepers));
    assert u !in SetOf(states[i].ring);
  }

  /** A sleeper with ms to go is back in the ring right after the ms-th tick and not before. */
  lemma WakesExactly(states: seq<State>, events: seq<Event>, u: Task, ms: nat, i: nat)
    requires IsRun(states, events) && Inv(states[0]) && i <= |events|
    requires u in TasksOf(states[0].sleepers) && WakeIn(states[0].sleepers, u) == ms
    ensures Ticks(events[..i]) < ms ==> u in TasksOf(states[i].sleepers) && u !in states[i].ring
    ensures i > 0 && Ticks(events[..i]) == ms && events[i - 1].Tick? ==> u in states[i].ring
  {
    hide Inv, WakeIn, Step;
    if Ticks(events[..i]) < ms {
      Countdown(states, events, u, ms, i);
    } else if i > 0 && Ticks(events[..i]) == ms && events[i - 1].Tick? {
      assert events[..i][..i - 1] == events[..i - 1];
      Countdown(states, events, u, ms, i - 1);
      RunKeepsInv(states, events, i - 1);
      StepWake(states[i - 1], events[i - 1], u);
    }
  }

  lemma ParkStarts(s: State, ms: uint32)
    requires Inv(s) && s.ring != [] && ms > 0
    ensures Inv(ParkStep(s, ms)) && s.ring[0] in TasksOf(ParkStep(s, ms).sleepers)
    ensures WakeIn(ParkStep(s, ms).sleepers, s.ring[0]) == ms
  {
    assert s.ring[0] in SetOf(s.ring);
    assert s.ring[0] !in SetOf(TasksOf(s.sleepers));
    InsertWake(s.sleepers, s.ring[0], ms, s.ring[0]);
    ParkKeepsInv(s, ms);
  }

  /**
   * A task parked for ms > 0 sleeps through the next ms - 1 ticks and is back in the run ring right after
   * the ms-th, whatever else is parked, woken, killed or spawned in between.
   */
  lemma SleepsExactly(states: seq<State>, events: seq<Event>, ms: uint32, i: nat)
    requires IsRun(states, events) && Inv(states[0]) && states[0].ring != []
    requires 1 <= i <= |events| && events[0] == Park(ms) && ms > 0
    ensures var t := states[0].ring[0];
      && (Ticks(events[..i]) < ms ==> t in TasksOf(states[i].sleepers) && t !in states[i].ring)
      && (Ticks(events[..i]) == ms && events[i - 1].Tick? ==> t in states[i].ring)
  {
    ParkStarts(states[0], ms);
    assert states[1] == ParkStep(states[0], ms);
    var tail, rest := states[1..], events[1..];
    assert IsRun(tail, rest);
    hide Inv, WakeIn, Step, ParkStep;
    FirstIsNoTick(events, i);
    WakesExactly(tail, rest, states[0].ring[0], ms, i - 1);
    assert i > 1 ==> rest[i - 2] == events[i - 1];
    assert i == 1 ==> !events[i - 1].Tick?;
  }

  lemma {:induction false} FirstIsNoTick(events: seq<Event>, i: nat)
    requires 1 <= i <= |events| && !events[0].Tick?
    ensures Ticks(events[1..][..i - 1]) == Ticks(events[..i])
  {
    assert events[..i][..i - 1] == events[..i - 1];
    if i > 1 {
      FirstIsNoTick(events, i - 1);
      assert events[1..][..i - 1][..i - 2] == events[1..][..i - 2];
    } else {
      assert Ticks(events[..0]) == 0;
    }
  }

  // ----- round robin

  /** The ring as seen from its k-th task. */
  function Turned(ring: seq<Task>, k: nat): seq<Task>
    requires k <= |ring|
  {
    ring[k..] + ring[..k]
  }

  /** The ticks the k-th task of the ring gets at its next turn. */
  function Quantum(s: State, k: nat): nat
    requires s.ring != [] && k <= |s.ring|
  {
    if k == 0 then s.left else if k < |s.ring| then s.ring[k].priority else s.ring[0].priority
  }

  /** The ticks until the k-th task of the ring is switched in. */
  function Before(s: State, k: nat): nat
    requires s.ring != [] && k <= |s.ring|
  {
    if k == 0 then 0 else Before(s, k - 1) + Quantum(s, k - 1)
  }

  function SumPriorities(ring: seq<Task>): nat {
    if ring == [] then 0 else SumPriorities(ring[..|ring| - 1]) + ring[|ring| - 1].priority
  }

  lemma QuietTick(s: State)
    requires s.ring != []
    requires s.sleepers != [] ==> s.sleepers[0].delta >= 2
    ensures var s' := TickStep(s);
      && (s.left > 1 ==> s'.ring == s.ring && s'.left == s.left - 1)
      && (s.left == 1 ==> s'.ring == Rotate(s.ring) && s'.left == s'.ring[0].priority)
      && (s.sleepers == [] ==> s'.sleepers == [])
      && (s.sleepers != [] ==> s'.sleepers != [] && s'.sleepers[0].delta == s.sleepers[0].delta - 1)
  {
    var q := Decremented(s.sleepers);
    assert Due(q) == 0;
    assert TasksOf(q[..0]) == [];
  }

  lemma RotateTurned(ring: seq<Task>, k: nat)
    requires k < |ring|
    ensures Rotate(Turned(ring, k)) == Turned(ring, k + 1)
    ensures Turned(ring, k) != [] && Turned(ring, k)[0] == ring[k]
    ensures Turned(ring, k + 1)[0] == if k + 1 < |ring| then ring[k + 1] else ring[0]
  {
  }

  /**
   * As long as ticks are the only events and none of them wakes a sleeper, the ring is served in order, each
   * task for exactly its quantum: j ticks into the turn of the k-th task, that task runs with the rest left.
   */
  lemma {:induction false} RoundRobin(states: seq<State>, events: seq<Event>, k: nat, j: nat)
    requires IsRun(states, events) && Inv(states[0]) && states[0].ring != []
    requires k <= |states[0].ring| && j < Quantum(states[0], k) && Before(states[0], k) + j <= |events|
    requires forall i :: 0 <= i < |events| ==> events[i].Tick?
    requires states[0].sleepers != [] ==> states[0].sleepers[0].delta > |events|
    ensures var s' := states[Before(states[0], k) + j];
      && s'.ring == Turned(states[0].ring, k) && s'.left == Quantum(states[0], k) - j
      && (s'.sleepers != [] ==> s'.sleepers[0].delta > |events| - Before(states[0], k) - j)
    decreases k, j
  {
    hide Inv, TickStep;
    var s := states[0];
    var n := Before(s, k) + j;
    if j > 0 {
      RoundRobin(states, events, k, j - 1);
      QuietTick(states[n - 1]);
      assert events[n - 1] == Tick;
    } else if k > 0 {
      QuantumPositive(s, k - 1);
      RoundRobin(states, events, k - 1, Quantum(s, k - 1) - 1);
      RotateTurned(s.ring, k - 1);
      QuietTick(states[n - 1]);
      assert events[n - 1] == Tick;
    }
  }

  lemma QuantumPositive(s: State, k: nat)
    requires Inv(s) && s.ring != [] && k <= |s.ring|
    ensures Quantum(s, k) >= 1
  {
    var t := if k < |s.ring| then s.ring[k] else s.ring[0];
    assert t in SetOf(s.ring);
  }

  /** Every task of the ring runs within the sum of the ring's priorities. */
  lemma NoStarvation(states: seq<State>, events: seq<Event>, k: nat)
    requires IsRun(states, events) && Inv(states[0])
    requires k < |states[0].ring| && SumPriorities(states[0].ring) <= |events|
    requires forall i :: 0 <= i < |events| ==> events[i].Tick?
    requires states[0].sleepers != [] ==> states[0].sleepers[0].delta > |events|
    ensures Before(states[0], k) < SumPriorities(states[0].ring)
    ensures var s' := states[Before(states[0], k)];
      s'.ring != [] && s'.ring[0] == states[0].ring[k]
  {
    hide Inv, Step, Before, SumPriorities, Quantum;
    var s := states[0];
    TurnComes(s, k);
    RoundRobin(states, events, k, 0);
    RotateTurned(s.ring, k);
  }

  lemma TurnComes(s: State, k: nat)
    requires Inv(s) && k < |s.ring|
    ensures Quantum(s, k) >= 1 && Before(s, k) < SumPriorities(s.ring)
  {
    hide *;
    QuantumPositive(s, k);
    BeforeNext(s, k);
    BeforeBound(s, k + 1);
    SumMonotone(s.ring, k + 1);
  }

  lemma BeforeNext(s: State, k: nat)
    requires s.ring != [] && k < |s.ring|
    ensures Before(s, k + 1) == Before(s, k) + Quantum(s, k)
  {
  }

  lemma {:induction false} BeforeBound(s: State, k: nat)
    requires Inv(s) && s.ring != [] && k <= |s.ring|
    ensures Before(s, k) <= SumPriorities(s.ring[..k])
  {
    if k > 0 {
      BeforeBound(s, k - 1);
      assert s.ring[..k][..k - 1] == s.ring[..k - 1];
    }
  }

  lemma {:induction false} SumMonotone(ring: seq<Task>, k: nat)
    requires k <= |ring|
    ensures SumPriorities(ring[..k]) <= SumPriorities(ring)
    decreases |ring| - k
  {
    if k == |ring| {
      assert ring[..k] == ring;
    } else {
      SumMonotone(ring, k + 1);
      assert ring[..k + 1][..k] == ring[..k];
    }
  }
}
