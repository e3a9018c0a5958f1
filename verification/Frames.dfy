/** The physical page list of kernel/src/arch/i386/mm/page_allocator.c, threaded through the free pages. */
module Frames {
  import opened Words

  const ENTRIES := 1024

  /** A page of physical memory as 32-bit words. */
  type Page = p: seq<uint32> | |p| == 1024 witness seq(1024, i => 0)

  type Ram = map<nat, Page>

  function ZeroPage(): Page { seq(ENTRIES, i => 0) }

  /** From `first` the first words of the pages lead through exactly `free`, and then to 0. */
  ghost predicate Chain(ram: Ram, first: nat, free: seq<nat>) {
    && first == NextOf(free, -1)
    && (forall i :: 0 <= i < |free| ==> free[i] in ram && free[i] > 0 && ram[free[i]][0] == NextOf(free, i))
    && NoRepeat(free)
  }

  function NextOf(free: seq<nat>, i: int): nat
    requires -1 <= i
  {
    if i + 1 < |free| then free[i + 1] else 0
  }

  ghost predicate NoRepeat(s: seq<nat>) {
    forall i, j :: 0 <= i < j < |s| ==> s[i] != s[j]
  }

  /** The list is a function of memory: no other sequence is a chain from the same head. */
  lemma {:induction false} ChainUnique(ram: Ram, first: nat, a: seq<nat>, b: seq<nat>)
    requires Chain(ram, first, a) && Chain(ram, first, b)
    ensures a == b
    decreases |a|
  {
    hide Chain, NextOf;
    ChainHead(ram, first, a);
    ChainHead(ram, first, b);
    if a != [] && b != [] {
      ChainTail(ram, first, a);
      ChainTail(ram, first, b);
      ChainUnique(ram, NextOf(a, 0), a[1..], b[1..]);
      assert a == [a[0]] + a[1..] && b == [b[0]] + b[1..];
    }
  }

  lemma ChainHead(ram: Ram, first: nat, free: seq<nat>)
    requires Chain(ram, first, free)
    ensures free == [] <==> first == 0
    ensures free != [] ==> free[0] == first && first in ram && NextOf(free, 0) == ram[first][0]
  {
  }

  lemma ChainTail(ram: Ram, first: nat, free: seq<nat>)
    requires Chain(ram, first, free) && free != []
    ensures Chain(ram, NextOf(free, 0), free[1..])
  {
    forall i | 0 <= i < |free[1..]|
      ensures free[1..][i] in ram && free[1..][i] > 0 && ram[free[1..][i]][0] == NextOf(free[1..], i)
    {
      assert free[1..][i] == free[i + 1];
    }
  }

  /** Changing a page that is not on the list keeps the chain. */
  lemma ChainSkip(ram: Ram, first: nat, free: seq<nat>, page: nat, content: Page)
    requires Chain(ram, first, free) && page !in free
    ensures Chain(ram[page := content], first, free)
  {
  }

  lemma ChainPush(ram: Ram, first: nat, free: seq<nat>, page: nat)
    requires Chain(ram, first, free) && page in ram && page > 0 && page !in free && first < TWO_32
    ensures Chain(ram[page := ram[page][0 := first]], page, [page] + free)
  {
    var content := ram[page][0 := first];
    ChainSkip(ram, first, free, page, content);
    ChainCons(ram[page := content], first, free, page);
  }

  lemma ChainCons(ram: Ram, first: nat, free: seq<nat>, page: nat)
    requires Chain(ram, first, free) && page in ram && page > 0 && page !in free && ram[page][0] == first
    ensures Chain(ram, page, [page] + free)
  {
    var free' := [page] + free;
    forall i | 0 <= i < |free'|
      ensures free'[i] in ram && free'[i] > 0 && ram[free'[i]][0] == NextOf(free', i)
    {
      if i > 0 {
        assert free'[i] == free[i - 1];
      }
    }
  }

  // ----- the boot-time list

  /** One entry of the Multiboot memory map; usable stands for type 1. */
  datatype Region = Region(addr: nat, len: nat, usable: bool)

  function Max(a: nat, b: nat): nat { if a < b then b else a }
  function Min(a: nat, b: nat): nat { if a < b then a else b }

  /** The pages the inner loop visits from `next` on. */
  function PagesFrom(next: nat, end: nat): (ps: seq<nat>)
    decreases end - next
  {
    if next >= end then [] else [next] + PagesFrom(next + PAGE, end)
  }

  function RegionPages(r: Region, after: nat): seq<nat> {
    if r.usable then PagesFrom(Max(after, r.addr), Min(r.addr + r.len, 0xFFFF_FFFF)) else []
  }

  function UsablePages(rs: seq<Region>, after: nat): seq<nat> {
    if rs == [] then [] else UsablePages(rs[..|rs| - 1], after) + RegionPages(rs[|rs| - 1], after)
  }

  /** Page-aligned address ranges. */
  ghost predicate Aligned(rs: seq<Region>) {
    forall i :: 0 <= i < |rs| ==> rs[i].addr % PAGE == 0 && rs[i].len % PAGE == 0 && rs[i].addr + rs[i].len < TWO_64
  }

  ghost predicate Disjoint(rs: seq<Region>) {
    forall i, j :: 0 <= i < j < |rs| ==> rs[i].addr + rs[i].len <= rs[j].addr || rs[j].addr + rs[j].len <= rs[i].addr
  }

  lemma {:induction false} PagesFromMembers(next: nat, end: nat, p: nat)
    requires next % PAGE == 0
    ensures p in PagesFrom(next, end) <==> next <= p < end && p % PAGE == 0
    decreases end - next
  {
    if next < end {
      PagesFromMembers(next + PAGE, end, p);
    }
  }

  lemma {:induction false} PagesFromIncreasing(next: nat, end: nat)
    ensures forall i :: 0 <= i < |PagesFrom(next, end)| ==> next <= PagesFrom(next, end)[i]
    ensures forall i, j :: 0 <= i < j < |PagesFrom(next, end)| ==> PagesFrom(next, end)[i] < PagesFrom(next, end)[j]
    decreases end - next
  {
    if next < end {
      PagesFromIncreasing(next + PAGE, end);
    }
  }

  /** A page is usable when it is aligned, past the kernel, below 4G and inside a usable region. */
  ghost predicate IsUsable(rs: seq<Region>, after: nat, p: nat) {
    p % PAGE == 0 && after <= p < 0xFFFF_FFFF &&
    exists i :: 0 <= i < |rs| && rs[i].usable && rs[i].addr <= p < rs[i].addr + rs[i].len
  }

  lemma {:induction false} UsablePagesMembers(rs: seq<Region>, after: nat, p: nat)
    requires Aligned(rs) && after % PAGE == 0
    ensures p in UsablePages(rs, after) <==> IsUsable(rs, after, p)
  {
    if rs != [] {
      var init, r := rs[..|rs| - 1], rs[|rs| - 1];
      UsablePagesMembers(init, after, p);
      RegionPagesMembers(r, after, p);
      hide RegionPages;
      IsUsableLast(rs, after, p);
    }
  }

  lemma RegionPagesMembers(r: Region, after: nat, p: nat)
    requires r.addr % PAGE == 0 && after % PAGE == 0
    ensures p in RegionPages(r, after) <==>
      p % PAGE == 0 && after <= p < 0xFFFF_FFFF && r.usable && r.addr <= p < r.addr + r.len
  {
    PagesFromMembers(Max(after, r.addr), Min(r.addr + r.len, 0xFFFF_FFFF), p);
  }

  lemma IsUsableLast(rs: seq<Region>, after: nat, p: nat)
    requires rs != []
    ensures var r := rs[|rs| - 1];
      IsUsable(rs, after, p) <==>
      (IsUsable(rs[..|rs| - 1], after, p) || (p % PAGE == 0 && after <= p < 0xFFFF_FFFF && r.usable && r.addr <= p < r.addr + r.len))
  {
    var init, r := rs[..|rs| - 1], rs[|rs| - 1];
    if IsUsable(init, after, p) {
      var i :| 0 <= i < |init| && init[i].usable && init[i].addr <= p < init[i].addr + init[i].len;
      assert rs[i] == init[i];
    }
    if IsUsable(rs, after, p) {
      var i :| 0 <= i < |rs| && rs[i].usable && rs[i].addr <= p < rs[i].addr + rs[i].len;
      assert i < |init| ==> init[i] == rs[i];
    }
  }

  /** The list follows the map, region by region, and within a region the addresses. */
  lemma {:induction false} UsableInOrder(rs: seq<Region>, after: nat, i: nat, j: nat) returns (a: nat, b: nat)
    requires Aligned(rs) && after % PAGE == 0 && i < j < |UsablePages(rs, after)|
    ensures a <= b < |rs| && rs[a].usable && rs[b].usable
    ensures var ps := UsablePages(rs, after);
      && rs[a].addr <= ps[i] < rs[a].addr + rs[a].len && rs[b].addr <= ps[j] < rs[b].addr + rs[b].len
      && (a == b ==> ps[i] < ps[j])
  {
    hide RegionPages, Aligned;
    AlignedLast(rs);
    var k := |rs| - 1;
    var init, r := rs[..k], rs[k];
    var front, back := UsablePages(init, after), RegionPages(r, after);
    assert UsablePages(rs, after) == front + back;
    if j < |front| {
      a, b := UsableInOrder(init, after, i, j);
    } else {
      b := k;
      assert back[j - |front|] in back;
      RegionPagesMembers(r, after, back[j - |front|]);
      if i < |front| {
        a := UsableFrom(init, after, i);
      } else {
        a := k;
        assert back[i - |front|] in back;
        RegionPagesMembers(r, after, back[i - |front|]);
        RegionIncreasing(r, after, i - |front|, j - |front|);
      }
    }
  }

  lemma AlignedLast(rs: seq<Region>)
    requires Aligned(rs)
    ensures rs != [] ==> Aligned(rs[..|rs| - 1]) && rs[|rs| - 1].addr % PAGE == 0
  {
  }

  lemma RegionIncreasing(r: Region, after: nat, i: nat, j: nat)
    requires i < j < |RegionPages(r, after)|
    ensures RegionPages(r, after)[i] < RegionPages(r, after)[j]
  {
    PagesFromIncreasing(Max(after, r.addr), Min(r.addr + r.len, 0xFFFF_FFFF));
  }

  lemma UsableFrom(rs: seq<Region>, after: nat, i: nat) returns (a: nat)
    requires Aligned(rs) && after % PAGE == 0 && i < |UsablePages(rs, after)|
    ensures a < |rs| && rs[a].usable && rs[a].addr <= UsablePages(rs, after)[i] < rs[a].addr + rs[a].len
  {
    var p := UsablePages(rs, after)[i];
    hide UsablePages, Aligned;
    UsablePagesMembers(rs, after, p);
    a :| 0 <= a < |rs| && rs[a].usable && rs[a].addr <= p < rs[a].addr + rs[a].len;
  }

  /** What the list is, link by link. */
  lemma ChainLinks(ram: Ram, first: nat, free: seq<nat>)
    requires Chain(ram, first, free)
    ensures first == if free == [] then 0 else free[0]
    ensures forall i :: 0 <= i < |free| ==>
      free[i] in ram && free[i] > 0 && ram[free[i]][0] == if i + 1 < |free| then free[i + 1] else 0
    ensures forall i, j :: 0 <= i < j < |free| ==> free[i] != free[j]
  {
    hide NextOf;
    NextIs(free, -1);
    forall i | 0 <= i < |free|
      ensures free[i] in ram && free[i] > 0 && ram[free[i]][0] == if i + 1 < |free| then free[i + 1] else 0
    {
      NextIs(free, i);
    }
  }

  lemma NextIs(free: seq<nat>, i: int)
    requires -1 <= i
    ensures NextOf(free, i) == if i + 1 < |free| then free[i + 1] else 0
  {
  }

  /** Disjoint regions never list a page twice. */
  lemma {:induction false} UsablePagesNoRepeat(rs: seq<Region>, after: nat)
    requires Aligned(rs) && Disjoint(rs) && after % PAGE == 0
    ensures NoRepeat(UsablePages(rs, after))
  {
    if rs != [] {
      var init, r := rs[..|rs| - 1], rs[|rs| - 1];
      UsablePagesNoRepeat(init, after);
      var a, b := UsablePages(init, after), RegionPages(r, after);
      PagesFromIncreasing(Max(after, r.addr), Min(r.addr + r.len, 0xFFFF_FFFF));
      forall p | p in a ensures p !in b {
        UsablePagesMembers(init, after, p);
        RegionPagesMembers(r, after, p);
        NotInLast(rs, after, p);
      }
      NoRepeatConcat(a, b);
    }
  }

  lemma NotInLast(rs: seq<Region>, after: nat, p: nat)
    requires rs != [] && Disjoint(rs) && IsUsable(rs[..|rs| - 1], after, p)
    ensures var r := rs[|rs| - 1]; !(r.addr <= p < r.addr + r.len)
  {
    var init := rs[..|rs| - 1];
    var i :| 0 <= i < |init| && init[i].usable && init[i].addr <= p < init[i].addr + init[i].len;
    assert rs[i] == init[i];
  }

  lemma NoRepeatConcat(a: seq<nat>, b: seq<nat>)
    requires NoRepeat(a) && NoRepeat(b) && forall p :: p in a ==> p !in b
    ensures NoRepeat(a + b)
  {
    forall i, j | 0 <= i < j < |a + b| ensures (a + b)[i] != (a + b)[j] {
      if i < |a| <= j {
        assert a[i] in a && b[j - |a|] in b;
      }
    }
  }

  lemma {:induction false} UsablePagesPrefix(rs: seq<Region>, after: nat, k: nat)
    requires k <= |rs|
    ensures UsablePages(rs[..k], after) <= UsablePages(rs, after)
    decreases |rs| - k
  {
    if k == |rs| {
      assert rs[..k] == rs;
    } else {
      UsablePagesPrefix(rs, after, k + 1);
      assert rs[..k + 1][..k] == rs[..k];
    }
  }

  /** The links written so far: each page but the last leads to the next. */
  ghost predicate Threaded(ram: Ram, done: seq<nat>) {
    forall i :: 0 <= i < |done| ==> done[i] in ram && done[i] > 0 && (i + 1 < |done| ==> ram[done[i]][0] == NextOf(done, i))
  }

  lemma ThreadStep(ram: Ram, done: seq<nat>, next: uint32)
    requires Threaded(ram, done) && NoRepeat(done) && next in ram && next > 0
    ensures done == [] ==> Threaded(ram, done + [next])
    ensures done != [] ==> var previous := done[|done| - 1];
      Threaded(ram[previous := ram[previous][0 := next]], done + [next])
  {
    if done != [] {
      var previous := done[|done| - 1];
      var ram', done' := ram[previous := ram[previous][0 := next]], done + [next];
      forall i | 0 <= i < |done'|
        ensures done'[i] in ram' && done'[i] > 0 && (i + 1 < |done'| ==> ram'[done'[i]][0] == NextOf(done', i))
      {
        if i < |done| {
          assert done'[i] == done[i];
        }
      }
    }
  }

  lemma ThreadEnd(ram: Ram, done: seq<nat>)
    requires Threaded(ram, done) && NoRepeat(done)
    ensures done == [] ==> Chain(ram, 0, done)
    ensures done != [] ==> var last := done[|done| - 1];
      Chain(ram[last := ram[last][0 := 0]], done[0], done)
  {
    if done != [] {
      var last := done[|done| - 1];
      var ram' := ram[last := ram[last][0 := 0]];
      forall i | 0 <= i < |done|
        ensures done[i] in ram' && done[i] > 0 && ram'[done[i]][0] == NextOf(done, i)
      {
        assert i < |done| - 1 ==> done[i] != last;
      }
    }
  }
}
