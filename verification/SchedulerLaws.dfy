/** Who is where after each event, and what becomes of the dead. */
module SchedulerLaws {
  import opened Words
  import opened SchedulerSpec
  import opened SchedulerRuns
  import opened SchedulerWaiting

  /** The invariant, task by task. */
  lemma EachInOnePlace(s: State)
    requires Inv(s)
    ensures forall t :: t in s.ring ==> t !in TasksOf(s.sleepers) && t !in s.doomed && t !in s.reaped
    ensures forall t :: t in TasksOf(s.sleepers) ==> t !in s.doomed && t !in s.reaped
    ensures forall t :: t in s.doomed ==> t !in s.reaped
    ensures forall i, j :: 0 <= i < j < |s.ring| ==> s.ring[i] != s.ring[j]
    ensures s.sleepers != [] ==> s.sleepers[0].delta >= 1
    ensures s.ring != [] ==> 1 <= s.left <= s.ring[0].priority
  {
    forall t ensures (t in s.ring <==> t in SetOf(s.ring)) && (t in s.doomed <==> t in SetOf(s.doomed)) {
    }
    forall t ensures t in TasksOf(s.sleepers) <==> t in SetOf(TasksOf(s.sleepers)) {
    }
    assert NoDup(s.ring);
  }

  /** Whoever is switched in, by a tick, a yield, a sleep or an exit, gets exactly its priority in ticks. */
  lemma QuantumExact(s: State, e: Event)
    requires Inv(s) && Enabled(s, e)
    ensures var s' := Step(s, e);
      && (e.Park? || e.Kill? || (e.Tick? && s.left <= 1) ==> s'.left == if s'.ring == [] then 0 else s'.ring[0].priority)
      && (e.Tick? && s.left > 1 ==> s'.left == s.left - 1 && s'.ring != [] && s'.ring[0] == s.ring[0])
      && (e.Spawn? ==> s'.left == s.left && s'.ring != [] && s'.ring[0] == s.ring[0])
  {
    hide InsertAll, Due, Decremented, NoDup;
    if e.Tick? {
      if s.ring != [] {
        AheadInsertAll(s.ring, [], s.ring[0]);
        InsertAllHead(s.ring, Woken(s));
      }
    }
  }

  lemma {:induction false} InsertAllHead(ring: seq<Task>, ts: seq<Task>)
    requires ring != []
    ensures InsertAll(ring, ts) != [] && InsertAll(ring, ts)[0] == ring[0]
    decreases |ts|
  {
    if ts != [] {
      InsertAllHead(Insert(ring, ts[0]), ts[1..]);
    }
  }

  function Backwards(ts: seq<Task>): (r: seq<Task>)
    ensures |r| == |ts| && forall i :: 0 <= i < |ts| ==> r[i] == ts[|ts| - 1 - i]
  {
    seq(|ts|, i requires 0 <= i < |ts| => ts[|ts| - 1 - i])
  }

  lemma BackwardsCons(ts: seq<Task>)
    requires ts != []
    ensures Backwards(ts) == Backwards(ts[1..]) + [ts[0]]
  {
  }

  /** Inserting one after the other right behind the first leaves them in reverse. */
  lemma {:induction false} InsertAllBackwards(ring: seq<Task>, ts: seq<Task>)
    requires ring != []
    ensures InsertAll(ring, ts) == [ring[0]] + Backwards(ts) + ring[1..]
    decreases |ts|
  {
    hide Backwards, InsertAll, Insert;
    InsertAllFirst(ring, ts);
    if ts == [] {
      NoneBackwards();
      assert ring == [ring[0]] + [] + ring[1..];
    } else {
      InsertAllBackwards(Insert(ring, ts[0]), ts[1..]);
      BackwardsCons(ts);
      Regroup([ring[0]], Backwards(ts[1..]), [ts[0]], ring[1..]);
    }
  }

  lemma NoneBackwards()
    ensures Backwards([]) == []
  {
  }

  lemma InsertAllFirst(ring: seq<Task>, ts: seq<Task>)
    requires ring != []
    ensures ts == [] ==> InsertAll(ring, ts) == ring
    ensures ts != [] ==> var ring' := Insert(ring, ts[0]);
      InsertAll(ring, ts) == InsertAll(ring', ts[1..]) && ring' != [] && ring'[0] == ring[0] && ring'[1..] == [ts[0]] + ring[1..]
  {
  }

  lemma Regroup(a: seq<Task>, b: seq<Task>, c: seq<Task>, d: seq<Task>)
    ensures a + b + (c + d) == a + (b + c) + d
  {
  }

  /**
   * The ring after a tick: the sleepers that wake come right behind the running task, the last of the queue
   * first; a task whose ticks are used up goes to the end; on an idle CPU the first to wake runs.
   */
  lemma TickRing(s: State)
    requires Inv(s)
    ensures var ts, s' := Woken(s), TickStep(s);
      && ts <= TasksOf(s.sleepers) && TasksOf(s'.sleepers) == TasksOf(s.sleepers)[|ts|..]
      && (s.ring != [] && s.left > 1 ==> s'.ring == [s.ring[0]] + Backwards(ts) + s.ring[1..])
      && (s.ring != [] && s.left == 1 ==> s'.ring == Backwards(ts) + s.ring[1..] + [s.ring[0]])
      && (s.ring == [] && ts != [] ==> s'.ring == [ts[0]] + Backwards(ts[1..]))
      && (s.ring == [] && ts == [] ==> s'.ring == [])
  {
    hide Inv, TickStep, Woken, Backwards, InsertAll;
    var ts := Woken(s);
    WokenPrefix(s);
    TickInserts(s);
    if s.ring != [] {
      InsertAllBackwards(s.ring, ts);
      TailOf(s.ring[0], Backwards(ts), s.ring[1..]);
    } else if ts != [] {
      FirstOfAll(ts);
      InsertAllBackwards([ts[0]], ts[1..]);
      TailOf(ts[0], Backwards(ts[1..]), []);
    }
  }

  lemma TickInserts(s: State)
    ensures var ring, s' := InsertAll(s.ring, Woken(s)), TickStep(s);
      && (s.ring != [] && s.left > 1 ==> s'.ring == ring)
      && (s.ring != [] && s.left <= 1 && ring != [] ==> s'.ring == ring[1..] + [ring[0]])
      && (s.ring == [] ==> s'.ring == ring)
      && (s.ring == [] && Woken(s) == [] ==> s'.ring == [])
  {
    hide Due, Decremented;
  }

  lemma TailOf(t: Task, a: seq<Task>, b: seq<Task>)
    ensures ([t] + a + b)[1..] == a + b && ([t] + a + b)[0] == t
    ensures [t][1..] == [] && (b == [] ==> [t] + a + b == [t] + a)
  {
  }

  lemma FirstOfAll(ts: seq<Task>)
    requires ts != []
    ensures InsertAll([], ts) == InsertAll([ts[0]], ts[1..])
  {
  }

  lemma WokenPrefix(s: State)
    ensures var q := Decremented(s.sleepers);
      && Woken(s) == TasksOf(q[..Due(q)]) && Woken(s) <= TasksOf(s.sleepers)
      && TasksOf(q[Due(q)..]) == TasksOf(s.sleepers)[|Woken(s)|..]
      && TickStep(s).sleepers == q[Due(q)..]
  {
    var q := Decremented(s.sleepers);
    SameTasks(s.sleepers);
    hide Decremented, Due;
    assert TasksOf(q[..Due(q)]) == TasksOf(q)[..Due(q)];
    assert TasksOf(q[Due(q)..]) == TasksOf(q)[Due(q)..];
  }

  lemma SameTasks(q: seq<Sleeper>)
    ensures TasksOf(Decremented(q)) == TasksOf(q)
  {
  }

  /** The ring after the other events. */
  lemma EventRing(s: State, e: Event)
    requires Enabled(s, e) && !e.Tick?
    ensures s.ring != []
    ensures var head, rest, s' := s.ring[0], s.ring[1..], Step(s, e);
      && (e == Park(0) ==> s'.ring == rest + [head] && s'.sleepers == s.sleepers)
      && (e.Park? && e.ms > 0 ==> s'.ring == rest)
      && (e.Kill? ==> s'.ring == rest && s'.doomed == [head] + s.doomed && s'.sleepers == s.sleepers)
      && (e.Spawn? ==> s'.ring == [head, e.task] + rest && s'.sleepers == s.sleepers)
      && (!e.Kill? ==> s'.doomed == s.doomed) && s'.reaped == s.reaped
  {
  }

  /** A new sleeper comes behind all that wake before it and in front of all others, ties included. */
  lemma {:induction false} SleepersOrder(q: seq<Sleeper>, t: Task, ms: nat)
    requires NoDup(TasksOf(q)) && t !in TasksOf(q)
    ensures var k := InsertPos(q, ms);
      && TasksOf(InsertSleeper(q, t, ms)) == TasksOf(q)[..k] + [t] + TasksOf(q)[k..]
      && forall i :: 0 <= i < |q| ==> (WakeIn(q, TasksOf(q)[i]) < ms <==> i < k)
  {
    hide NoDup, WakeIn, TasksOf;
    InsertSleeperShape(q, t, ms);
    if q != [] {
      TasksOfTail(q);
      NoDupTail(q);
      WakeHead(q);
      if q[0].delta < ms {
        SleepersOrder(q[1..], t, ms - q[0].delta);
      }
      forall i | 0 <= i < |q| ensures WakeIn(q, TasksOf(q)[i]) < ms <==> i < InsertPos(q, ms) {
        if i > 0 {
          WakeBehind(q, i);
        }
      }
    }
  }

  lemma WakeHead(q: seq<Sleeper>)
    requires q != []
    ensures q[0].task in TasksOf(q) && TasksOf(q)[0] == q[0].task && WakeIn(q, q[0].task) == q[0].delta
  {
  }

  lemma WakeBehind(q: seq<Sleeper>, i: nat)
    requires 0 < i < |q| && NoDup(TasksOf(q))
    ensures var u := TasksOf(q)[i];
      u in TasksOf(q) && u in TasksOf(q[1..]) && u == TasksOf(q[1..])[i - 1] && WakeIn(q, u) == q[0].delta + WakeIn(q[1..], u)
  {
    TasksOfTail(q);
  }

  // ----- the dead

  lemma StepDead(s: State, e: Event, t: Task)
    requires Enabled(s, e)
    ensures t in s.doomed || t in s.reaped ==> t in Step(s, e).doomed || t in Step(s, e).reaped
    ensures t in s.reaped ==> t in Step(s, e).reaped
    ensures e.Tick? && t in s.doomed ==> t in Step(s, e).reaped
  {
    hide InsertAll, Due, Decremented, InsertSleeper;
  }

  lemma {:induction false} Dead(states: seq<State>, events: seq<Event>, t: Task, i: nat, j: nat)
    requires IsRun(states, events) && Inv(states[0]) && i <= j <= |events|
    requires t in states[i].doomed || t in states[i].reaped
    ensures t in states[j].doomed || t in states[j].reaped
    ensures (exists k :: i <= k < j && events[k].Tick?) ==> t in states[j].reaped
    decreases j
  {
    hide Step, Inv, Enabled;
    if i < j {
      Dead(states, events, t, i, j - 1);
      StepDead(states[j - 1], events[j - 1], t);
    }
  }

  /** A task that exits never runs or wakes again, and its memory is given back by the next tick. */
  lemma ExitIsFinal(states: seq<State>, events: seq<Event>, i: nat, j: nat)
    requires IsRun(states, events) && Inv(states[0]) && i < j <= |events| && events[i] == Kill
    ensures states[i].ring != []
    ensures var t := states[i].ring[0];
      && t !in states[j].ring && t !in TasksOf(states[j].sleepers)
      && (if exists k :: i < k < j && events[k].Tick? then t in states[j].reaped else t in states[j].doomed || t in states[j].reaped)
  {
    assert Enabled(states[i], events[i]) && states[i + 1] == Step(states[i], events[i]);
    EventRing(states[i], Kill);
    var t := states[i].ring[0];
    assert states[i + 1].doomed[0] == t;
    hide Step, Inv, Enabled;
    Dead(states, events, t, i + 1, j);
    RunKeepsInv(states, events, j);
    EachInOnePlace(states[j]);
  }
}
