/** Whole histories of the page list and of the flat address space. */
module PageRuns {
  import opened Frames
  import opened PageTables

  // ----- pages handed out and taken back

  /** The free list and the pages callers hold. */
  datatype Pool = Pool(free: seq<nat>, held: set<nat>)

  datatype PoolEvent = Take | Give(page: nat)

  function SetOf(s: seq<nat>): set<nat> {
    set p | p in s
  }

  /** Proper use: only a held page is given back. */
  predicate Proper(s: Pool, e: PoolEvent) {
    e.Give? ==> e.page in s.held
  }

  function PoolStep(s: Pool, e: PoolEvent): Pool {
    match e
    case Take => if s.free == [] then s else Pool(s.free[1..], s.held + {s.free[0]})
    case Give(p) => Pool([p] + s.free, s.held - {p})
  }

  ghost predicate PoolOk(s: Pool) {
    NoRepeat(s.free) && SetOf(s.free) !! s.held
  }

  lemma PoolStepOk(s: Pool, e: PoolEvent)
    requires PoolOk(s) && Proper(s, e)
    ensures PoolOk(PoolStep(s, e))
    ensures SetOf(PoolStep(s, e).free) + PoolStep(s, e).held == SetOf(s.free) + s.held
  {
    match e
    case Take =>
      if s.free != [] {
        assert s.free == [s.free[0]] + s.free[1..];
        assert SetOf(s.free) == {s.free[0]} + SetOf(s.free[1..]);
      }
    case Give(p) =>
      assert SetOf([p] + s.free) == {p} + SetOf(s.free);
      NoRepeatConcat([p], s.free);
  }

  ghost predicate IsPoolRun(states: seq<Pool>, events: seq<PoolEvent>) {
    && |states| == |events| + 1
    && forall i :: 0 <= i < |events| ==> Proper(states[i], events[i]) && states[i + 1] == PoolStep(states[i], events[i])
  }

  /** Free and held pages together always are the pages there were at the start, none of them twice. */
  lemma {:induction false} PagesConserved(states: seq<Pool>, events: seq<PoolEvent>, i: nat)
    requires IsPoolRun(states, events) && PoolOk(states[0]) && i <= |events|
    ensures PoolOk(states[i])
    ensures SetOf(states[i].free) + states[i].held == SetOf(states[0].free) + states[0].held
  {
    if i > 0 {
      PagesConserved(states, events, i - 1);
      PoolStepOk(states[i - 1], events[i - 1]);
    }
  }

  // ----- mapping and unmapping

  datatype SpaceEvent = Map(page: int, phys: nat) | Unmap(page: int)

  function SpaceStep(s: Space, e: SpaceEvent): Space {
    match e
    case Map(v, phys) => if Refused(s, v) then s else Mapped(s, v, phys)
    case Unmap(v) => Unmapped(s, v)
  }

  ghost predicate IsSpaceRun(states: seq<Space>, events: seq<SpaceEvent>) {
    && |states| == |events| + 1
    && forall i :: 0 <= i < |events| ==> states[i + 1] == SpaceStep(states[i], events[i])
  }

  lemma SpaceStepOk(s: Space, e: SpaceEvent)
    requires SpaceOk(s)
    ensures SpaceOk(SpaceStep(s, e))
  {
    var s' := SpaceStep(s, e);
    forall v | v in s'.stale ensures v !in s'.maps && Shared(s'.maps, v) {
      if v in s.stale {
        var w :| w in s.maps && w / ENTRIES == v / ENTRIES;
        assert w in s'.maps || e == Unmap(w);
      }
    }
  }

  /** A binding lasts exactly until it is unmapped, whatever else is mapped or unmapped. */
  lemma {:induction false} BindingLasts(states: seq<Space>, events: seq<SpaceEvent>, v: int, i: nat, j: nat)
    requires IsSpaceRun(states, events) && i <= j <= |events| && v in states[i].maps
    requires forall k :: i <= k < j ==> events[k] != Unmap(v)
    ensures v in states[j].maps && states[j].maps[v] == states[i].maps[v]
    ensures j < |events| && events[j] == Unmap(v) ==> v !in states[j + 1].maps
    decreases j
  {
    if i < j {
      BindingLasts(states, events, v, i, j - 1);
      assert states[j] == SpaceStep(states[j - 1], events[j - 1]);
    }
  }

  /** A page unmapped from a table in use stays refused for as long as the table serves any page. */
  lemma {:induction false} RefusedWhileShared(states: seq<Space>, events: seq<SpaceEvent>, v: int, i: nat, j: nat)
    requires IsSpaceRun(states, events) && SpaceOk(states[0]) && i <= j <= |events| && v in states[i].stale
    requires forall k :: i < k <= j ==> Shared(states[k].maps, v)
    ensures v in states[j].stale && v !in states[j].maps
    decreases j
  {
    SpaceRunOk(states, events, j);
    if i < j {
      RefusedWhileShared(states, events, v, i, j - 1);
      StaleStep(states[j - 1], events[j - 1], v);
    }
  }

  lemma StaleStep(s: Space, e: SpaceEvent, v: int)
    requires v in s.stale
    ensures Shared(SpaceStep(s, e).maps, v) ==> v in SpaceStep(s, e).stale
  {
    if e.Unmap? && e.page in s.maps && Shared(SpaceStep(s, e).maps, v) {
      var w :| w in SpaceStep(s, e).maps && w / ENTRIES == v / ENTRIES;
      assert v / ENTRIES == e.page / ENTRIES ==> Shared(s.maps - {e.page}, e.page);
    }
  }

  lemma {:induction false} SpaceRunOk(states: seq<Space>, events: seq<SpaceEvent>, i: nat)
    requires IsSpaceRun(states, events) && SpaceOk(states[0]) && i <= |events|
    ensures SpaceOk(states[i])
  {
    if i > 0 {
      SpaceRunOk(states, events, i - 1);
      SpaceStepOk(states[i - 1], events[i - 1]);
    }
  }
}
