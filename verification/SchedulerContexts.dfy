/** Which saved context a task resumes with, over whole runs. */
module SchedulerContexts {
  import opened SchedulerSpec

  /** Who runs (null: the idle task), and the context saved for every task and for idle. */
  datatype Cpu = Cpu(current: Task?, saved: map<Task, int>, idle: int)

  function Saved(cpu: Cpu, t: Task?): int {
    if t == null then cpu.idle else if t in cpu.saved then cpu.saved[t] else 0
  }

  /**
   * An interrupt taken in `context` and returning to `restored`: whoever leaves the CPU is saved, whoever
   * gets it is restored, and nobody else's context is touched.
   */
  ghost predicate Switched(a: Cpu, context: int, b: Cpu, restored: int) {
    && b.saved.Keys == a.saved.Keys && (a.current != null ==> a.current in a.saved)
    && (b.current == a.current ==> restored == context)
    && (b.current != a.current ==> Saved(b, a.current) == context && restored == Saved(a, b.current))
    && (forall t :: t in a.saved && t != a.current ==> Saved(b, t) == Saved(a, t))
    && (a.current != null ==> b.idle == a.idle)
  }

  datatype CpuEvent = Interrupt(context: int, restored: int) | Create(task: Task, context: int)

  ghost predicate CpuStep(a: Cpu, e: CpuEvent, b: Cpu) {
    match e
    case Interrupt(c, r) => Switched(a, c, b, r)
    case Create(t, c) => t !in a.saved && t != a.current && b == a.(saved := a.saved[t := c])
  }

  ghost predicate IsCpuRun(cpus: seq<Cpu>, events: seq<CpuEvent>) {
    |cpus| == |events| + 1 && forall i :: 0 <= i < |events| ==> CpuStep(cpus[i], events[i], cpus[i + 1])
  }

  /** t (null: idle) does not have the CPU from the i-th to the j-th state. */
  ghost predicate Off(cpus: seq<Cpu>, t: Task?, i: nat, j: nat) {
    j < |cpus| && forall k :: i <= k <= j ==> cpus[k].current != t
  }

  /** Off the CPU, a task's saved context does not change. */
  lemma {:induction false} SavedStays(cpus: seq<Cpu>, events: seq<CpuEvent>, t: Task?, i: nat, j: nat)
    requires IsCpuRun(cpus, events) && i <= j && Off(cpus, t, i, j) && (t == null || t in cpus[i].saved)
    ensures Saved(cpus[j], t) == Saved(cpus[i], t) && (t == null || t in cpus[j].saved)
    decreases j
  {
    if i < j {
      SavedStays(cpus, events, t, i, j - 1);
      assert CpuStep(cpus[j - 1], events[j - 1], cpus[j]);
    }
  }

  /** Step i is the last interrupt up to step j that took the CPU from t (null: idle). */
  ghost predicate LastInterrupt(cpus: seq<Cpu>, events: seq<CpuEvent>, t: Task?, i: nat, j: nat) {
    && i <= j < |events| < |cpus| && events[i].Interrupt? && cpus[i].current == t
    && forall k :: i < k <= j ==> !(events[k].Interrupt? && cpus[k].current == t)
  }

  lemma {:induction false} OffSince(cpus: seq<Cpu>, events: seq<CpuEvent>, t: Task?, i: nat, j: nat, k: nat)
    requires IsCpuRun(cpus, events) && i < k <= j < |events| && events[j].Interrupt?
    requires forall m :: i < m <= j ==> !(events[m].Interrupt? && cpus[m].current == t)
    ensures cpus[k].current != t
    decreases j - k
  {
    if k < j {
      OffSince(cpus, events, t, i, j, k + 1);
      assert CpuStep(cpus[k], events[k], cpus[k + 1]);
    }
  }

  /**
   * Whoever has the CPU after an interrupt, having lost it or not, goes on in exactly the context of its own
   * last interrupt, this one included.
   */
  lemma ResumesLastContext(cpus: seq<Cpu>, events: seq<CpuEvent>, t: Task?, i: nat, j: nat)
    requires IsCpuRun(cpus, events) && LastInterrupt(cpus, events, t, i, j)
    requires events[j].Interrupt? && cpus[j + 1].current == t
    ensures events[j].restored == events[i].context
  {
    if i == j {
      assert CpuStep(cpus[i], events[i], cpus[i + 1]);
    } else {
      forall k | i + 1 <= k <= j ensures cpus[k].current != t {
        OffSince(cpus, events, t, i, j, k);
      }
      ResumesAsLeft(cpus, events, t, i, j);
    }
  }

  /** An interrupt that switches nothing returns to exactly where it came from. */
  lemma StaysPut(cpus: seq<Cpu>, events: seq<CpuEvent>, j: nat)
    requires IsCpuRun(cpus, events) && j < |events| && events[j].Interrupt? && cpus[j + 1].current == cpus[j].current
    ensures events[j].restored == events[j].context
  {
    assert CpuStep(cpus[j], events[j], cpus[j + 1]);
  }

  /** A task, or idle, that leaves the CPU in step i and gets it back in step j resumes exactly as it left. */
  lemma ResumesAsLeft(cpus: seq<Cpu>, events: seq<CpuEvent>, t: Task?, i: nat, j: nat)
    requires IsCpuRun(cpus, events) && i < j < |events|
    requires cpus[i].current == t && Off(cpus, t, i + 1, j) && cpus[j + 1].current == t
    ensures events[i].Interrupt? && events[j].Interrupt? && events[j].restored == events[i].context
  {
    assert CpuStep(cpus[i], events[i], cpus[i + 1]) && CpuStep(cpus[j], events[j], cpus[j + 1]);
    SavedStays(cpus, events, t, i + 1, j);
  }

  /** A new task starts exactly in the context it was created with. */
  lemma StartsAsCreated(cpus: seq<Cpu>, events: seq<CpuEvent>, t: Task, i: nat, j: nat)
    requires IsCpuRun(cpus, events) && i < j < |events| && events[i].Create? && events[i].task == t
    requires Off(cpus, t, i + 1, j) && cpus[j + 1].current == t
    ensures events[j].Interrupt? && events[j].restored == events[i].context
  {
    assert CpuStep(cpus[i], events[i], cpus[i + 1]) && CpuStep(cpus[j], events[j], cpus[j + 1]);
    SavedStays(cpus, events, t, i + 1, j);
  }
}
