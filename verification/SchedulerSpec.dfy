/** The scheduler as a state machine on values: what kernel/src/arch/i386/sched/scheduler.c does per event. */
module SchedulerSpec {
  import opened Words

  /** A task_t.  The context stands for the saved ss and esp. */
  class Task {
    const priority: uint32
    var next: Task?
    var previous: Task?
    var remaining: uint32
    var context: int

    constructor (priority: uint32, context: int)
      ensures this.priority == priority && this.context == context && remaining == priority
    {
      this.priority := priority;
      this.context := context;
      next, previous, remaining := null, null, priority;
    }
  }

  /** One link of the sleep queue: the task wakes `delta` ms after the one before it. */
  datatype Sleeper = Sleeper(task: Task, delta: nat)

  /**
   * ring: the run ring read from the running task on; empty when the CPU idles.
   * left: ticks left to the running task.
   * reaped: every task whose memory has been given back (history).
   */
  datatype State = State(ring: seq<Task>, left: nat, sleepers: seq<Sleeper>, doomed: seq<Task>, reaped: set<Task>)

  datatype Event = Tick | Park(ms: uint32) | Kill | Spawn(task: Task)

  // ----- sets of tasks

  function TasksOf(q: seq<Sleeper>): (ts: seq<Task>)
    ensures |ts| == |q| && forall i :: 0 <= i < |q| ==> ts[i] == q[i].task
  {
    seq(|q|, i requires 0 <= i < |q| => q[i].task)
  }

  ghost predicate NoDup(ts: seq<Task>) {
    forall i, j :: 0 <= i < j < |ts| ==> ts[i] != ts[j]
  }

  function SetOf(ts: seq<Task>): set<Task> {
    set t | t in ts
  }

  function Everyone(s: State): set<Task> {
    SetOf(s.ring) + SetOf(TasksOf(s.sleepers)) + SetOf(s.doomed) + s.reaped
  }

  /** What every event keeps. */
  ghost predicate Inv(s: State) {
    && NoDup(s.ring) && NoDup(TasksOf(s.sleepers)) && NoDup(s.doomed)
    && SetOf(s.ring) !! SetOf(TasksOf(s.sleepers)) !! SetOf(s.doomed) !! s.reaped
    && (forall t :: t in Everyone(s) ==> t.priority >= 1)
    && (s.sleepers != [] ==> s.sleepers[0].delta >= 1)
    && (s.ring != [] ==> 1 <= s.left <= s.ring[0].priority)
    && (s.ring == [] ==> s.left == 0)
  }

  // ----- the sleep queue, delta by delta

  function InsertSleeper(q: seq<Sleeper>, t: Task, ms: nat): seq<Sleeper> {
    if q == [] then [Sleeper(t, ms)]
    else if q[0].delta < ms then [q[0]] + InsertSleeper(q[1..], t, ms - q[0].delta)
    else [Sleeper(t, ms), Sleeper(q[0].task, q[0].delta - ms)] + q[1..]
  }

  /** The queue after the tick's decrement of the head. */
  function Decremented(q: seq<Sleeper>): seq<Sleeper> {
    if q == [] || q[0].delta == 0 then q else [Sleeper(q[0].task, q[0].delta - 1)] + q[1..]
  }

  /** Number of sleepers whose time is up. */
  function Due(q: seq<Sleeper>): (n: nat)
    ensures n <= |q|
  {
    if q != [] && q[0].delta == 0 then 1 + Due(q[1..]) else 0
  }

  /** Ms until t wakes: the sum of the deltas up to and including its own. */
  function WakeIn(q: seq<Sleeper>, t: Task): nat
    requires t in TasksOf(q)
  {
    if q[0].task == t then q[0].delta
    else
      assert t in TasksOf(q[1..]) by { TasksOfTail(q); }
      q[0].delta + WakeIn(q[1..], t)
  }

  lemma TasksOfTail(q: seq<Sleeper>)
    requires q != []
    ensures TasksOf(q) == [q[0].task] + TasksOf(q[1..])
  {
  }

  // ----- events

  /** put_in_schedule_ring: right behind the running task, or as the only one. */
  function Insert(ring: seq<Task>, t: Task): seq<Task> {
    if ring == [] then [t] else [ring[0], t] + ring[1..]
  }

  function InsertAll(ring: seq<Task>, ts: seq<Task>): seq<Task>
    decreases |ts|
  {
    if ts == [] then ring else InsertAll(Insert(ring, ts[0]), ts[1..])
  }

  function Rotate(ring: seq<Task>): seq<Task> {
    if ring == [] then [] else ring[1..] + [ring[0]]
  }

  /** A freshly switched-in head has its whole priority to run. */
  function Fresh(ring: seq<Task>): nat {
    if ring == [] then 0 else ring[0].priority
  }

  function TickStep(s: State): State {
    var q := Decremented(s.sleepers);
    var n := Due(q);
    var ring := InsertAll(s.ring, TasksOf(q[..n]));
    var s' := s.(sleepers := q[n..], doomed := [], reaped := s.reaped + SetOf(s.doomed));
    if s.ring != [] && s.left > 1 then s'.(ring := ring, left := s.left - 1)
    else
      var ring' := if s.ring == [] then ring else Rotate(ring);
      s'.(ring := ring', left := Fresh(ring'))
  }

  function ParkStep(s: State, ms: uint32): State
    requires s.ring != []
  {
    if ms == 0 then s.(ring := Rotate(s.ring), left := Fresh(Rotate(s.ring)))
    else s.(ring := s.ring[1..], left := Fresh(s.ring[1..]), sleepers := InsertSleeper(s.sleepers, s.ring[0], ms))
  }

  function KillStep(s: State): State
    requires s.ring != []
  {
    s.(ring := s.ring[1..], left := Fresh(s.ring[1..]), doomed := [s.ring[0]] + s.doomed)
  }

  /** Only the running task can park, exit or spawn, and a spawned task is a new one. */
  ghost predicate Enabled(s: State, e: Event) {
    match e
    case Tick => true
    case Park(_) => s.ring != []
    case Kill => s.ring != []
    case Spawn(t) => s.ring != [] && t !in Everyone(s) && t.priority >= 1
  }

  ghost function Step(s: State, e: Event): State
    requires Enabled(s, e)
  {
    match e
    case Tick => TickStep(s)
    case Park(ms) => ParkStep(s, ms)
    case Kill => KillStep(s)
    case Spawn(t) => s.(ring := Insert(s.ring, t))
  }

  // ----- every event keeps the invariant

  /** Where the search loop of sched_park_task stops. */
  function InsertPos(q: seq<Sleeper>, ms: nat): (k: nat)
    ensures k <= |q|
  {
    if q == [] || q[0].delta >= ms then 0 else 1 + InsertPos(q[1..], ms - q[0].delta)
  }

  lemma {:induction false} InsertSleeperShape(q: seq<Sleeper>, t: Task, ms: nat)
    ensures var k := InsertPos(q, ms);
      TasksOf(InsertSleeper(q, t, ms)) == TasksOf(q)[..k] + [t] + TasksOf(q)[k..]
  {
    hide TasksOf;
    var q' := InsertSleeper(q, t, ms);
    TasksOfTail(q');
    if q != [] && q[0].delta < ms {
      InsertSleeperShape(q[1..], t, ms - q[0].delta);
      TasksOfTail(q);
      assert q'[1..] == InsertSleeper(q[1..], t, ms - q[0].delta);
      InsertBehind(q[0].task, TasksOf(q[1..]), InsertPos(q[1..], ms - q[0].delta), t);
    } else {
      InsertInFront(q, q', t, ms);
    }
  }

  lemma InsertBehind(first: Task, ts: seq<Task>, k: nat, t: Task)
    requires k <= |ts|
    ensures [first] + (ts[..k] + [t] + ts[k..]) == ([first] + ts)[..k + 1] + [t] + ([first] + ts)[k + 1..]
  {
  }

  lemma InsertInFront(q: seq<Sleeper>, q': seq<Sleeper>, t: Task, ms: nat)
    requires q' == InsertSleeper(q, t, ms) && (q == [] || q[0].delta >= ms)
    ensures TasksOf(q') == TasksOf(q)[..0] + [t] + TasksOf(q)[0..]
  {
  }

  lemma InsertAtTasks(ts: seq<Task>, k: nat, t: Task)
    requires k <= |ts| && NoDup(ts) && t !in ts
    ensures NoDup(ts[..k] + [t] + ts[k..]) && SetOf(ts[..k] + [t] + ts[k..]) == SetOf(ts) + {t}
  {
    var us := ts[..k] + [t] + ts[k..];
    forall x ensures x in us <==> x in ts || x == t {
      assert ts == ts[..k] + ts[k..];
    }
  }

  lemma InsertSleeperTasks(q: seq<Sleeper>, t: Task, ms: nat)
    requires NoDup(TasksOf(q)) && t !in TasksOf(q)
    ensures var q' := InsertSleeper(q, t, ms);
      NoDup(TasksOf(q')) && SetOf(TasksOf(q')) == SetOf(TasksOf(q)) + {t}
    ensures var q' := InsertSleeper(q, t, ms);
      q' != [] && (ms >= 1 && (q != [] ==> q[0].delta >= 1) ==> q'[0].delta >= 1)
  {
    InsertSleeperShape(q, t, ms);
    InsertAtTasks(TasksOf(q), InsertPos(q, ms), t);
  }

  lemma InsertTasks(ring: seq<Task>, t: Task)
    requires NoDup(ring) && t !in ring
    ensures NoDup(Insert(ring, t)) && SetOf(Insert(ring, t)) == SetOf(ring) + {t}
    ensures Insert(ring, t) != [] && (ring != [] ==> Insert(ring, t)[0] == ring[0])
  {
  }

  lemma {:induction false} InsertAllTasks(ring: seq<Task>, ts: seq<Task>)
    requires NoDup(ring) && NoDup(ts) && SetOf(ring) !! SetOf(ts)
    ensures NoDup(InsertAll(ring, ts)) && SetOf(InsertAll(ring, ts)) == SetOf(ring) + SetOf(ts)
    ensures ring != [] ==> InsertAll(ring, ts) != [] && InsertAll(ring, ts)[0] == ring[0]
    ensures ring == [] && ts != [] ==> InsertAll(ring, ts) != [] && InsertAll(ring, ts)[0] == ts[0]
    decreases |ts|
  {
    if ts != [] {
      assert ts[0] in SetOf(ts);
      InsertTasks(ring, ts[0]);
      assert SetOf(ts) == {ts[0]} + SetOf(ts[1..]);
      InsertAllTasks(Insert(ring, ts[0]), ts[1..]);
    }
  }

  lemma RotateTasks(ring: seq<Task>)
    requires NoDup(ring)
    ensures NoDup(Rotate(ring)) && SetOf(Rotate(ring)) == SetOf(ring)
  {
  }

  /** The tasks on a split queue are those of its two parts. */
  lemma SplitTasks(q: seq<Sleeper>, n: nat)
    requires n <= |q| && NoDup(TasksOf(q))
    ensures NoDup(TasksOf(q[..n])) && NoDup(TasksOf(q[n..]))
    ensures SetOf(TasksOf(q[..n])) !! SetOf(TasksOf(q[n..]))
    ensures SetOf(TasksOf(q[..n])) + SetOf(TasksOf(q[n..])) == SetOf(TasksOf(q))
  {
    assert TasksOf(q[..n]) == TasksOf(q)[..n];
    assert TasksOf(q[n..]) == TasksOf(q)[n..];
  }

  lemma {:induction false} DueRest(q: seq<Sleeper>)
    ensures Due(q) < |q| ==> q[Due(q)].delta >= 1
    ensures forall i :: 0 <= i < Due(q) ==> q[i].delta == 0
  {
    if q != [] && q[0].delta == 0 {
      DueRest(q[1..]);
    }
  }

  /** Who is where after a tick. */
  lemma TickTasks(s: State)
    requires Inv(s)
    ensures var q := Decremented(s.sleepers);
      var n := Due(q);
      && TasksOf(q) == TasksOf(s.sleepers)
      && NoDup(TickStep(s).ring) && SetOf(TickStep(s).ring) == SetOf(s.ring) + SetOf(TasksOf(q[..n]))
      && NoDup(TasksOf(q[n..])) && SetOf(TasksOf(q[..n])) !! SetOf(TasksOf(q[n..]))
      && SetOf(TasksOf(q[..n])) + SetOf(TasksOf(q[n..])) == SetOf(TasksOf(s.sleepers))
  {
    var q := Decremented(s.sleepers);
    assert TasksOf(q) == TasksOf(s.sleepers);
    SplitTasks(q, Due(q));
    InsertAllTasks(s.ring, TasksOf(q[..Due(q)]));
    RotateTasks(InsertAll(s.ring, TasksOf(q[..Due(q)])));
  }

  lemma TickLeft(s: State)
    requires Inv(s)
    ensures var s' := TickStep(s);
      && (s'.ring == [] ==> s'.left == 0)
      && (s'.ring != [] ==> s'.left == s'.ring[0].priority || (s.ring != [] && s'.ring[0] == s.ring[0] && s'.left == s.left - 1 >= 1))
      && (s'.sleepers != [] ==> s'.sleepers[0].delta >= 1)
  {
    var q := Decremented(s.sleepers);
    DueRest(q);
    assert TasksOf(q) == TasksOf(s.sleepers);
    SplitTasks(q, Due(q));
    InsertAllTasks(s.ring, TasksOf(q[..Due(q)]));
  }

  lemma TickReaps(s: State)
    ensures TickStep(s).doomed == [] && TickStep(s).reaped == s.reaped + SetOf(s.doomed)
    ensures var q := Decremented(s.sleepers);
      TickStep(s).sleepers == q[Due(q)..]
  {
  }

  /** Where everyone is: the sets of tasks behind the invariant. */
  ghost predicate Apart4(ring: set<Task>, asleep: set<Task>, doomed: set<Task>, reaped: set<Task>) {
    ring !! asleep && ring !! doomed && ring !! reaped && asleep !! doomed && asleep !! reaped && doomed !! reaped
  }

  lemma InvSets(s: State)
    requires Inv(s)
    ensures Apart4(SetOf(s.ring), SetOf(TasksOf(s.sleepers)), SetOf(s.doomed), s.reaped)
    ensures forall t :: t in Everyone(s) ==> t.priority >= 1
    ensures s.ring != [] ==> 1 <= s.left <= s.ring[0].priority
  {
  }

  lemma InvFromSets(s: State)
    requires NoDup(s.ring) && NoDup(TasksOf(s.sleepers)) && NoDup(s.doomed)
    requires Apart4(SetOf(s.ring), SetOf(TasksOf(s.sleepers)), SetOf(s.doomed), s.reaped)
    requires forall t :: t in Everyone(s) ==> t.priority >= 1
    requires s.sleepers != [] ==> s.sleepers[0].delta >= 1
    requires s.ring != [] ==> s.left == s.ring[0].priority || 1 <= s.left <= s.ring[0].priority
    requires s.ring == [] ==> s.left == 0
    ensures Inv(s)
  {
    hide NoDup, TasksOf;
    if s.ring != [] {
      assert s.ring[0] in SetOf(s.ring);
    }
  }

  /** The due sleepers join the ring and the doomed are reaped. */
  lemma TickSets(ring: set<Task>, due: set<Task>, rest: set<Task>, asleep: set<Task>, doomed: set<Task>, reaped: set<Task>)
    requires due !! rest && due + rest == asleep && Apart4(ring, asleep, doomed, reaped)
    ensures Apart4(ring + due, rest, {}, reaped + doomed)
    ensures ring + due + rest + {} + (reaped + doomed) == ring + asleep + doomed + reaped
  {
  }

  lemma TickKeepsInv(s: State)
    requires Inv(s)
    ensures Inv(TickStep(s)) && Everyone(TickStep(s)) == Everyone(s)
  {
    hide TickStep, Decremented, Due, Inv, SetOf, TasksOf, Apart4;
    var q, s' := Decremented(s.sleepers), TickStep(s);
    InvSets(s);
    TickTasks(s);
    TickLeft(s);
    TickReaps(s);
    NobodyThere();
    TickSets(SetOf(s.ring), SetOf(TasksOf(q[..Due(q)])), SetOf(TasksOf(q[Due(q)..])), SetOf(TasksOf(s.sleepers)),
      SetOf(s.doomed), s.reaped);
    assert Everyone(s') == Everyone(s);
    InvFromSets(s');
  }

  lemma NobodyThere()
    ensures SetOf([]) == {} && NoDup([])
  {
  }

  lemma RemoveHead(ring: seq<Task>)
    requires NoDup(ring) && ring != []
    ensures NoDup(ring[1..]) && SetOf(ring[1..]) == SetOf(ring) - {ring[0]} && ring[0] in SetOf(ring)
  {
  }

  lemma ParkKeepsInv(s: State, ms: uint32)
    requires Inv(s) && s.ring != []
    ensures Inv(ParkStep(s, ms)) && Everyone(ParkStep(s, ms)) == Everyone(s)
  {
    var s' := ParkStep(s, ms);
    if ms == 0 {
      RotateTasks(s.ring);
      assert s'.ring[0] in SetOf(s'.ring);
    } else {
      RemoveHead(s.ring);
      assert s.ring[0] !in SetOf(TasksOf(s.sleepers));
      InsertSleeperTasks(s.sleepers, s.ring[0], ms);
      assert Everyone(s') == Everyone(s);
      if s'.ring != [] {
        assert s'.ring[0] in SetOf(s'.ring);
      }
    }
  }

  lemma KillKeepsInv(s: State)
    requires Inv(s) && s.ring != []
    ensures Inv(KillStep(s)) && Everyone(KillStep(s)) == Everyone(s)
  {
    var s' := KillStep(s);
    RemoveHead(s.ring);
    assert SetOf(s'.doomed) == SetOf(s.doomed) + {s.ring[0]};
    assert Everyone(s') == Everyone(s);
    if s'.ring != [] {
      assert s'.ring[0] in SetOf(s'.ring);
    }
  }

  /** Every enabled event keeps the invariant; tasks are never lost, and only a spawn adds one. */
  lemma StepKeepsInv(s: State, e: Event)
    requires Inv(s) && Enabled(s, e)
    ensures Inv(Step(s, e))
    ensures Everyone(Step(s, e)) == Everyone(s) + (if e.Spawn? then {e.task} else {})
    ensures e.Tick? ==> Step(s, e).reaped == s.reaped + SetOf(s.doomed)
    ensures !e.Tick? ==> Step(s, e).reaped == s.reaped
  {
    match e
    case Tick => TickKeepsInv(s);
    case Park(ms) => ParkKeepsInv(s, ms);
    case Kill => KillKeepsInv(s);
    case Spawn(t) => InsertTasks(s.ring, t);
  }
}
