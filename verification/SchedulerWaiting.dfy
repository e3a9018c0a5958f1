/** How long a task of the ring waits for the CPU, whatever happens meanwhile. */
module SchedulerWaiting {
  import opened Words
  import opened SchedulerSpec
  import opened SchedulerRuns

  function SumOf(ts: seq<Task>): nat {
    if ts == [] then 0 else ts[0].priority + SumOf(ts[1..])
  }

  /** The priorities in front of t. */
  function Ahead(ring: seq<Task>, t: Task): nat {
    if ring == [] || ring[0] == t then 0 else ring[0].priority + Ahead(ring[1..], t)
  }

  /** The ticks until t would be switched in if nothing but ticks happened and nobody woke. */
  function Wait(s: State, t: Task): nat {
    if s.ring == [] || s.ring[0] == t then 0 else s.left + Ahead(s.ring[1..], t)
  }

  /** The ticks an event uses up: a tick one, leaving the CPU early the rest of the quantum. */
  function Spent(s: State, e: Event): nat {
    match e
    case Tick => 1
    case Park(_) => s.left
    case Kill => s.left
    case Spawn(_) => 0
  }

  /** The sleepers the next tick wakes. */
  function Woken(s: State): seq<Task> {
    var q := Decremented(s.sleepers);
    TasksOf(q[..Due(q)])
  }

  /** The priorities an event puts between the running task and the rest of the ring. */
  function Arrivals(s: State, e: Event): nat {
    match e
    case Tick => SumOf(Woken(s))
    case Spawn(t) => t.priority
    case _ => 0
  }

  // ----- one event

  lemma WaitZero(s: State, t: Task)
    requires Inv(s) && t in s.ring
    ensures Wait(s, t) == 0 <==> s.ring[0] == t
  {
  }

  lemma {:induction false} AheadAppend(ring: seq<Task>, t: Task, last: Task)
    requires t in ring
    ensures Ahead(ring + [last], t) == Ahead(ring, t)
  {
    assert (ring + [last])[0] == ring[0];
    if ring[0] != t {
      assert (ring + [last])[1..] == ring[1..] + [last];
      AheadAppend(ring[1..], t, last);
    }
  }

  /** Woken tasks pile up right behind the running one. */
  lemma {:induction false} AheadInsertAll(ring: seq<Task>, ts: seq<Task>, t: Task)
    requires ring != [] && t !in ts
    ensures InsertAll(ring, ts) != [] && InsertAll(ring, ts)[0] == ring[0]
    ensures Ahead(InsertAll(ring, ts)[1..], t) == Ahead(ring[1..], t) + SumOf(ts)
    ensures t in ring[1..] ==> t in InsertAll(ring, ts)[1..]
    decreases |ts|
  {
    if ts != [] {
      var ring' := Insert(ring, ts[0]);
      assert ring'[1..] == [ts[0]] + ring[1..];
      assert ([ts[0]] + ring[1..])[1..] == ring[1..];
      AheadInsertAll(ring', ts[1..], t);
    }
  }

  /** Once the running task steps back, what was ahead of t is all that is left to wait for. */
  lemma NextInLine(s: State, s': State, t: Task, tail: seq<Task>)
    requires tail != [] && t in tail && s'.left == Fresh(s'.ring)
    requires s'.ring == tail || exists last :: s'.ring == tail + [last]
    ensures Wait(s', t) == Ahead(tail, t)
  {
    if s'.ring != tail {
      var last :| s'.ring == tail + [last];
      if tail[0] != t {
        assert s'.ring[1..] == tail[1..] + [last];
        AheadAppend(tail[1..], t, last);
      }
    }
  }

  lemma WaitTick(s: State, t: Task)
    requires Inv(s) && t in s.ring && s.ring[0] != t
    ensures Wait(TickStep(s), t) + 1 == Wait(s, t) + SumOf(Woken(s)) && t in TickStep(s).ring
  {
    hide Inv;
    var ring, ts, s' := s.ring, Woken(s), TickStep(s);
    NotWoken(s, t);
    AheadInsertAll(ring, ts, t);
    var ring' := InsertAll(ring, ts);
    hide InsertAll, Due, Decremented;
    if s.left > 1 {
      assert s'.ring == ring';
    } else {
      assert s'.ring == ring'[1..] + [ring'[0]];
      NextInLine(s, s', t, ring'[1..]);
    }
  }

  lemma NotWoken(s: State, t: Task)
    requires Inv(s) && t in s.ring && s.ring[0] != t
    ensures t !in Woken(s) && t in s.ring[1..] && s.left >= 1
  {
    TickTasks(s);
    assert t in SetOf(s.ring);
    assert SetOf(Woken(s)) <= SetOf(TasksOf(s.sleepers));
    assert t !in SetOf(Woken(s));
  }

  /** The account of one event: what t has to wait changes by exactly arrivals less ticks used up. */
  lemma WaitStep(s: State, e: Event, t: Task)
    requires Inv(s) && Enabled(s, e) && t in s.ring && s.ring[0] != t
    ensures Wait(Step(s, e), t) + Spent(s, e) == Wait(s, t) + Arrivals(s, e) && t in Step(s, e).ring
  {
    hide TickStep;
    NotWoken(s, t);
    var s', tail := Step(s, e), s.ring[1..];
    match e
    case Tick => WaitTick(s, t);
    case Park(ms) =>
      if ms == 0 {
        assert s'.ring == tail + [s.ring[0]];
      }
      NextInLine(s, s', t, tail);
    case Kill => NextInLine(s, s', t, tail);
    case Spawn(u) =>
      assert s'.ring[1..] == [u] + tail;
      assert ([u] + tail)[1..] == tail;
  }

  // ----- whole runs

  function SpentIn(states: seq<State>, events: seq<Event>, n: nat): nat
    requires n <= |events| < |states|
  {
    if n == 0 then 0 else SpentIn(states, events, n - 1) + Spent(states[n - 1], events[n - 1])
  }

  function ArrivalsIn(states: seq<State>, events: seq<Event>, n: nat): nat
    requires n <= |events| < |states|
  {
    if n == 0 then 0 else ArrivalsIn(states, events, n - 1) + Arrivals(states[n - 1], events[n - 1])
  }

  /**
   * Over any run in which t has not had the CPU yet, its waiting time is exactly balanced: it runs in the
   * first state in which the ticks used up make good its first wait and all arrivals.
   */
  lemma {:induction false} WaitExact(states: seq<State>, events: seq<Event>, t: Task, n: nat)
    requires IsRun(states, events) && Inv(states[0]) && t in states[0].ring && n <= |events|
    requires forall i :: 0 <= i < n ==> states[i].ring == [] || states[i].ring[0] != t
    ensures t in states[n].ring
    ensures Wait(states[n], t) + SpentIn(states, events, n) == Wait(states[0], t) + ArrivalsIn(states, events, n)
    ensures states[n].ring[0] == t <==> SpentIn(states, events, n) == Wait(states[0], t) + ArrivalsIn(states, events, n)
  {
    hide Wait, Spent, Arrivals, Step, Inv;
    RunKeepsInv(states, events, n);
    if n > 0 {
      WaitExact(states, events, t, n - 1);
      RunKeepsInv(states, events, n - 1);
      WaitStep(states[n - 1], events[n - 1], t);
    }
    WaitZero(states[n], t);
  }

  lemma {:induction false} TicksSpent(states: seq<State>, events: seq<Event>, n: nat)
    requires n <= |events| < |states|
    ensures Ticks(events[..n]) <= SpentIn(states, events, n)
  {
    if n > 0 {
      TicksSpent(states, events, n - 1);
      assert events[..n][..n - 1] == events[..n - 1];
    }
  }

  lemma {:induction false} AheadBound(ring: seq<Task>, t: Task)
    requires t in ring
    ensures Ahead(ring, t) + t.priority <= SumOf(ring)
  {
    if ring[0] != t {
      AheadBound(ring[1..], t);
    }
  }

  lemma FirstWait(s: State, t: Task)
    requires Inv(s) && t in s.ring
    ensures Wait(s, t) < SumOf(s.ring)
  {
    assert t in SetOf(s.ring);
    if s.ring[0] != t {
      AheadBound(s.ring[1..], t);
    }
  }

  /**
   * A task that has not run yet has waited for fewer ticks than the priorities of the ring and of everyone
   * spawned or woken since; without arrivals, fewer than the priorities of the ring.
   */
  lemma WaitBound(states: seq<State>, events: seq<Event>, t: Task, n: nat)
    requires IsRun(states, events) && Inv(states[0]) && t in states[0].ring && n <= |events|
    requires forall i :: 0 <= i <= n ==> states[i].ring == [] || states[i].ring[0] != t
    ensures Ticks(events[..n]) < SumOf(states[0].ring) + ArrivalsIn(states, events, n)
  {
    hide Wait, Inv, Step;
    WaitExact(states, events, t, n);
    TicksSpent(states, events, n);
    FirstWait(states[0], t);
  }

  // ----- and with arrivals there is no bound

  /** One generation: it runs for a tick, has a child, and exits. */
  function Generation(child: Task): seq<Event> {
    [Tick, Spawn(child), Kill]
  }

  function Lineage(ts: seq<Task>, n: nat): seq<Event>
    requires n < |ts|
  {
    if n == 0 then [] else Lineage(ts, n - 1) + Generation(ts[n])
  }

  /** The n-th of the line runs, t waits, and those before are dead. */
  ghost predicate Outrun(s: State, ts: seq<Task>, t: Task, n: nat)
    requires n < |ts|
  {
    && s.ring == [ts[n], t] && s.left == ts[n].priority && s.sleepers == []
    && Everyone(s) <= SetOf(ts[..n + 1]) + {t}
  }

  ghost predicate Line(ts: seq<Task>, t: Task) {
    NoDup(ts) && t !in ts && t.priority >= 1 && forall k :: 0 <= k < |ts| ==> ts[k].priority >= 2
  }

  lemma OneGeneration(s: State, ts: seq<Task>, t: Task, n: nat) returns (s1: State, s2: State, s3: State)
    requires Line(ts, t) && n + 1 < |ts| && Outrun(s, ts, t, n)
    ensures Enabled(s, Tick) && s1 == Step(s, Tick) && s1.ring == [ts[n], t]
    ensures Enabled(s1, Spawn(ts[n + 1])) && s2 == Step(s1, Spawn(ts[n + 1])) && s2.ring == [ts[n], ts[n + 1], t]
    ensures Enabled(s2, Kill) && s3 == Step(s2, Kill) && s3.ring == [ts[n + 1], t] && Outrun(s3, ts, t, n + 1)
  {
    s1 := Step(s, Tick);
    QuietTick(s);
    assert Decremented([]) == [] && Due([]) == 0;
    assert s1.reaped == s.reaped + SetOf(s.doomed) && s1.doomed == [] && s1.sleepers == [];
    assert Everyone(s1) <= Everyone(s) + SetOf(s1.ring);
    NotYetBorn(ts, n);
    s2 := Step(s1, Spawn(ts[n + 1]));
    s3 := Step(s2, Kill);
    assert SetOf(ts[..n + 2]) == SetOf(ts[..n + 1]) + {ts[n + 1]};
    assert ts[n] in ts[..n + 1];
  }

  lemma NotYetBorn(ts: seq<Task>, n: nat)
    requires NoDup(ts) && n + 1 < |ts|
    ensures ts[n + 1] !in SetOf(ts[..n + 1])
  {
  }

  /** t is in the ring all along and never has the CPU. */
  ghost predicate KeptOff(states: seq<State>, t: Task) {
    forall i :: 0 <= i < |states| ==> t in states[i].ring && states[i].ring[0] != t
  }

  /** A run from s with those events that keeps t off and ends in s'. */
  ghost predicate KeepsOff(states: seq<State>, events: seq<Event>, s: State, s': State, t: Task) {
    IsRun(states, events) && states[0] == s && states[|states| - 1] == s' && KeptOff(states, t)
  }

  /**
   * Insertion is behind the running task, so a line of tasks that each run for a tick, spawn the next and
   * exit keeps t from ever running: for every n there is such a run of n ticks.
   */
  lemma {:induction false} Starvation(s: State, ts: seq<Task>, t: Task, n: nat) returns (states: seq<State>, s': State)
    requires Line(ts, t) && n < |ts| && Outrun(s, ts, t, 0)
    ensures KeepsOff(states, Lineage(ts, n), s, s', t) && Ticks(Lineage(ts, n)) == n && Outrun(s', ts, t, n)
  {
    hide *;
    if n == 0 {
      s' := s;
      states := NoGeneration(s, ts, t);
    } else {
      var before, last := Starvation(s, ts, t, n - 1);
      var s1, s2, s3 := OneGeneration(last, ts, t, n - 1);
      LineNext(ts, t, n);
      var events := Lineage(ts, n - 1);
      RunOn(before, events, s, last, Tick, s1, t);
      RunOn(before + [s1], events + [Tick], s, s1, Spawn(ts[n]), s2, t);
      RunOn(before + [s1] + [s2], events + [Tick] + [Spawn(ts[n])], s, s2, Kill, s3, t);
      states, s' := before + [s1] + [s2] + [s3], s3;
      TicksOfGeneration(events, ts[n]);
    }
  }

  lemma NoGeneration(s: State, ts: seq<Task>, t: Task) returns (states: seq<State>)
    requires Line(ts, t) && ts != [] && Outrun(s, ts, t, 0)
    ensures KeepsOff(states, Lineage(ts, 0), s, s, t) && Ticks(Lineage(ts, 0)) == 0
  {
    states := [s];
  }

  lemma LineNext(ts: seq<Task>, t: Task, n: nat)
    requires Line(ts, t) && 0 < n < |ts|
    ensures Lineage(ts, n) == Lineage(ts, n - 1) + Generation(ts[n])
    ensures Lineage(ts, n - 1) + [Tick] + [Spawn(ts[n])] + [Kill] == Lineage(ts, n)
    ensures t != ts[n] && t != ts[n - 1]
  {
  }

  lemma RunOn(states: seq<State>, events: seq<Event>, s: State, last: State, e: Event, s': State, t: Task)
    requires KeepsOff(states, events, s, last, t) && Enabled(last, e) && s' == Step(last, e)
    requires t in s'.ring && s'.ring[0] != t
    ensures KeepsOff(states + [s'], events + [e], s, s', t)
  {
    hide Enabled, Step;
  }

  lemma TicksOfGeneration(events: seq<Event>, child: Task)
    ensures Ticks(events + Generation(child)) == Ticks(events) + 1
  {
    var e := events + Generation(child);
    assert e[..|e| - 1] == events + [Tick, Spawn(child)];
    assert (events + [Tick, Spawn(child)])[..|e| - 2] == events + [Tick];
    assert (events + [Tick])[..|e| - 3] == events;
    assert Ticks(events + [Tick]) == Ticks(events) + 1;
    assert Ticks(events + [Tick, Spawn(child)]) == Ticks(events) + 1;
  }
}
