/** What the growth loop of malloc needs of the page allocator, page by page and in total. */
module HeapGrowth {
  import opened Words
  import opened Frames
  import opened PageTables

  /** The address space and the free pages. */
  datatype Supply = Supply(space: Space, free: seq<nat>)

  /** NoPage and NoMap panic; NoTable is where mm_map_page would take physical page 0 for a table. */
  datatype Growth = Grown(supply: Supply) | NoPage | NoMap | NoTable

  /** One page more, mapped at virtual page v; a new table takes a second one. */
  function GrowOne(p: Supply, v: int): Growth {
    if p.free == [] then NoPage
    else if Refused(p.space, v) then NoMap
    else if Shared(p.space.maps, v) then Grown(Supply(Mapped(p.space, v, p.free[0]), p.free[1..]))
    else if |p.free| == 1 then NoTable
    else Grown(Supply(Mapped(p.space, v, p.free[0]), p.free[2..]))
  }

  /** How one page more can fail, and what it takes and maps when it does not. */
  lemma GrowKinds(p: Supply, v: int)
    ensures var g, table := GrowOne(p, v), exists w :: w in p.space.maps && w / 1024 == v / 1024;
      var taken := v in p.space.maps || v in p.space.stale;
      && (g.NoPage? <==> p.free == [])
      && (g.NoMap? <==> p.free != [] && taken)
      && (g.NoTable? <==> |p.free| == 1 && !taken && !table)
      && (g.Grown? ==> g.supply.space == p.space.(maps := p.space.maps[v := p.free[0]]))
      && (g.Grown? ==> g.supply.free == if table then p.free[1..] else p.free[2..])
  {
  }

  function GrowBy(p: Supply, v: int, k: nat): Growth {
    if k == 0 then Grown(p)
    else
      var g := GrowBy(p, v, k - 1);
      if g.Grown? then GrowOne(g.supply, v + k - 1) else g
  }

  lemma GrowNot(p: Supply, v: int)
    ensures GrowBy(p, v, 0) == Grown(p)
  {
  }

  lemma GrowNext(p: Supply, v: int, k: nat)
    requires GrowBy(p, v, k).Grown?
    ensures GrowBy(p, v, k + 1) == GrowOne(GrowBy(p, v, k).supply, v + k)
  {
  }

  /** A growth that has failed stays failed. */
  lemma {:induction false} GrowFails(p: Supply, v: int, k: nat, m: nat)
    requires k <= m && !GrowBy(p, v, k).Grown?
    ensures GrowBy(p, v, m) == GrowBy(p, v, k)
    decreases m
  {
    if k < m {
      GrowFails(p, v, k, m - 1);
    }
  }

  // ----- the total

  /** Virtual page v + k - 1 is the first of the stretch in a table that does not exist yet. */
  predicate OpensTable(s: Space, v: int, k: nat)
    requires k > 0
  {
    !Shared(s.maps, v + k - 1) && (k == 1 || (v + k - 1) % ENTRIES == 0)
  }

  /** The tables that k pages from v on need. */
  function NewTables(s: Space, v: int, k: nat): nat {
    if k == 0 then 0 else NewTables(s, v, k - 1) + if OpensTable(s, v, k) then 1 else 0
  }

  ghost predicate Unrefused(s: Space, v: int, k: nat) {
    forall w :: v <= w < v + k ==> !Refused(s, w)
  }

  /** What k rounds of growth leave: the stretch is mapped, all else is as it was. */
  ghost predicate After(p: Supply, v: int, k: nat, q: Supply) {
    && |q.free| + k + NewTables(p.space, v, k) == |p.free| && q.space.stale == p.space.stale
    && (forall w :: w in q.space.maps <==> w in p.space.maps || v <= w < v + k)
  }

  lemma TableOpen(p: Supply, v: int, k: nat, q: Supply)
    requires After(p, v, k, q) && 0 <= v
    ensures Shared(q.space.maps, v + k) <==> !OpensTable(p.space, v, k + 1)
  {
    var x := v + k;
    if Shared(p.space.maps, x) {
      var w :| w in p.space.maps && w / ENTRIES == x / ENTRIES;
      assert w in q.space.maps;
    } else if k > 0 && x % ENTRIES != 0 {
      SameTable(x);
      assert x - 1 in q.space.maps;
    } else {
      forall w | w in q.space.maps ensures w / ENTRIES != x / ENTRIES {
        LowerTable(w, x);
      }
    }
  }

  lemma SameTable(x: int)
    requires x % ENTRIES != 0
    ensures (x - 1) / ENTRIES == x / ENTRIES
  {
  }

  lemma LowerTable(w: int, x: int)
    ensures w < x && x % ENTRIES == 0 ==> w / ENTRIES != x / ENTRIES
  {
  }

  lemma OneRound(p: Supply, v: int, k: nat, q: Supply)
    requires After(p, v, k, q) && 0 <= v
    ensures var g := GrowOne(q, v + k);
      && (g.Grown? <==> !Refused(p.space, v + k) && |p.free| >= k + 1 + NewTables(p.space, v, k + 1))
      && (g.Grown? ==> After(p, v, k + 1, g.supply))
  {
    TableOpen(p, v, k, q);
    hide Shared;
  }

  lemma {:induction false} MoreTables(s: Space, v: int, j: nat, k: nat)
    requires j <= k
    ensures NewTables(s, v, j) <= NewTables(s, v, k)
    decreases k
  {
    if j < k {
      MoreTables(s, v, j, k - 1);
    }
  }

  /**
   * The heap grows by k pages exactly when none of them is mapped or refused and there is a free page for
   * each and for every page table that has to be opened.
   */
  lemma {:induction false} GrowsExactly(p: Supply, v: nat, k: nat)
    ensures GrowBy(p, v, k).Grown? <==> Unrefused(p.space, v, k) && |p.free| >= k + NewTables(p.space, v, k)
    ensures GrowBy(p, v, k).Grown? ==> After(p, v, k, GrowBy(p, v, k).supply)
  {
    hide GrowOne, Refused, OpensTable;
    if k > 0 {
      GrowsExactly(p, v, k - 1);
      MoreTables(p.space, v, k - 1, k);
      var g := GrowBy(p, v, k - 1);
      if g.Grown? {
        OneRound(p, v, k - 1, g.supply);
      }
    }
  }
}
