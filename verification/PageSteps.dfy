/** What single writes to pages, tables and the directory do to the page list and the flat address space. */
module PageSteps {
  import opened Words
  import opened LittleEndian
  import opened Frames
  import opened Multiboot
  import opened PageTables
  import opened PageRuns

  /** The allocator's invariant, on values. */
  ghost predicate ValidAt(ram: Ram, dir: Page, first: nat, free: seq<nat>, held: set<nat>) {
    && Chain(ram, first, free) && TablesOk(ram, dir, free) && PageAddresses(free) && 0 in ram
    && PoolOk(Pool(free, held)) && TablePages(dir) <= held
  }

  /** No page is left for the table that v needs. */
  ghost predicate Starved(s: Space, free: seq<nat>, v: int) {
    !Shared(s.maps, v) && free == []
  }

  /** Physical page 0 holds nothing but possibly its j-th word. */
  ghost predicate EmptyBut(ram: Ram, j: nat) {
    0 in ram && forall k :: 0 <= k < ENTRIES && k != j ==> ram[0][k] == 0
  }

  // ----- taking and giving back

  lemma HeadOf(ram: Ram, dir: Page, first: nat, free: seq<nat>, held: set<nat>)
    requires ValidAt(ram, dir, first, free, held)
    ensures first == 0 <==> free == []
    ensures free != [] ==> first == free[0] && first in ram && first % PAGE == 0 && first + 3 < TWO_32
  {
    hide TablesOk, PoolOk, TablePages;
    ChainHead(ram, first, free);
  }

  lemma TakeHead(ram: Ram, dir: Page, first: nat, free: seq<nat>, held: set<nat>, content: Page)
    requires ValidAt(ram, dir, first, free, held) && free != [] && first in ram
    ensures ValidAt(ram[first := content], dir, ram[first][0], free[1..], held + {first})
    ensures SpaceOf(ram[first := content], dir) == SpaceOf(ram, dir)
  {
    hide TablesOk, PoolOk, Chain, SpaceOf, TablePages;
    ChainHead(ram, first, free);
    ChainTail(ram, first, free);
    TakenPageIsNoTable(ram, first, dir, free, content);
    HeadOff(ram, first, free);
    ChainSkip(ram, ram[first][0], free[1..], first, content);
    TakeStep(Pool(free, held));
    PoolStepOk(Pool(free, held), Take);
  }

  lemma ChainStart(ram: Ram, first: nat, free: seq<nat>)
    requires Chain(ram, first, free)
    ensures first == NextOf(free, -1)
  {
  }

  /** Entries in numbers: the low bit says present, the upper 20 bits are the page. */
  lemma EntryNumbers(w: uint32)
    ensures Present(w) <==> w % 2 == 1
    ensures FrameOf(w) == w / 4096 * 4096
  {
  }

  /**
   * One entry written: in the table that is there, or in the page at the head of the list, which becomes
   * the table; first is 0 when the list is empty.
   */
  ghost predicate WritesEntry(ram: Ram, dir: Page, first: nat, ram': Ram, dir': Page, i: nat, j: nat, w: nat)
    requires i < SLOTS && j < ENTRIES
  {
    if w >= TWO_32 then false
    else if Present(dir[i]) then
      var t := FrameOf(dir[i]);
      t in ram && dir' == dir && ram' == ram[t := ram[t][j := w]]
    else
      first in ram && first + 3 < TWO_32 && dir' == dir[i := first + 3] &&
      ram' == ram[first := (if first == 0 then ram[first] else ZeroPage())[j := w]]
  }

  /** Which words of memory and directory that changes, and to what. */
  lemma WordsWritten(ram: Ram, dir: Page, first: nat, ram': Ram, dir': Page, i: nat, j: nat, w: nat)
    requires i < 1023 && j < 1024 && first % 4096 == 0 && WritesEntry(ram, dir, first, ram', dir', i, j, w)
    ensures var t := dir'[i] / 4096 * 4096;
      && t in ram && ram'.Keys == ram.Keys && ram'[t][j] == w
      && (forall p :: p in ram && p != t ==> ram'[p] == ram[p])
      && (dir[i] % 2 == 1 ==> dir' == dir && forall k :: 0 <= k < 1024 && k != j ==> ram'[t][k] == ram[t][k])
      && (dir[i] % 2 == 0 ==> t == first && dir'[i] == first + 3 && forall k :: 0 <= k < 1024 && k != i ==> dir'[k] == dir[k])
      && (dir[i] % 2 == 0 && first > 0 ==> forall k :: 0 <= k < 1024 && k != j ==> ram'[t][k] == 0)
  {
    EntryNumbers(dir[i]);
    hide Present, FrameOf, ZeroPage;
    ZeroWords();
    if dir[i] % 2 == 0 {
      PageOf(first);
    }
  }

  lemma PageOf(first: nat)
    requires first % 4096 == 0
    ensures (first + 3) / 4096 * 4096 == first
  {
  }

  /** One entry cleared; the directory entry too when it was the last present one of its table. */
  ghost predicate ClearsEntry(ram: Ram, dir: Page, ram': Ram, dir': Page, i: nat, j: nat)
    requires i < SLOTS && j < ENTRIES
  {
    if !Present(dir[i]) then ram' == ram && dir' == dir
    else
      var t := FrameOf(dir[i]);
      if t !in ram then false
      else if !Present(ram[t][j]) then ram' == ram && dir' == dir
      else if HasPresent(ram[t][j := 2]) then ram' == ram[t := ram[t][j := 2]] && dir' == dir
      else dir' == dir[i := 2] && ram'.Keys == ram.Keys && forall p :: p in ram && p != t ==> ram'[p] == ram[p]
  }

  /** Which words that changes, and to what. */
  lemma WordsCleared(ram: Ram, dir: Page, ram': Ram, dir': Page, i: nat, j: nat)
    requires i < 1023 && j < 1024 && ClearsEntry(ram, dir, ram', dir', i, j)
    ensures ram'.Keys == ram.Keys && forall k :: 0 <= k < 1024 && k != i ==> dir'[k] == dir[k]
    ensures var t := dir[i] / 4096 * 4096;
      && (forall p :: p in ram && p != t ==> ram'[p] == ram[p])
      && (dir[i] % 2 == 1 ==> t in ram)
      && (dir[i] % 2 == 0 || ram[t][j] % 2 == 0 ==> ram' == ram && dir' == dir)
      && (dir[i] % 2 == 1 && ram[t][j] % 2 == 1 ==>
            if exists k :: 0 <= k < 1024 && k != j && ram[t][k] % 2 == 1
            then dir' == dir && ram'[t] == ram[t][j := 2]
            else dir'[i] == 2)
  {
    EntryNumbers(dir[i]);
    if dir[i] % 2 == 1 {
      var page := ram[FrameOf(dir[i])];
      EntryNumbers(page[j]);
      LastPresent(page, j);
    }
  }

  lemma LastPresent(page: Page, j: nat)
    requires j < 1024
    ensures HasPresent(page[j := 2]) <==> exists k :: 0 <= k < 1024 && k != j && page[k] % 2 == 1
  {
    if HasPresent(page[j := 2]) {
      var k :| 0 <= k < ENTRIES && Present(page[j := 2][k]);
      assert k != j && page[k] % 2 == 1;
    }
    if k :| 0 <= k < 1024 && k != j && page[k] % 2 == 1 {
      assert Present(page[j := 2][k]);
    }
  }

  lemma TableWrites(ram: Ram, dir: Page, first: nat, i: nat, j: nat, w: uint32)
    requires i < SLOTS && j < ENTRIES && Present(dir[i]) && FrameOf(dir[i]) in ram
    ensures WritesEntry(ram, dir, first, ram[FrameOf(dir[i]) := ram[FrameOf(dir[i])][j := w]], dir, i, j, w)
  {
  }

  lemma TakenWrites(ram: Ram, dir: Page, first: nat, taken: Ram, i: nat, j: nat, w: uint32)
    requires i < SLOTS && j < ENTRIES && !Present(dir[i]) && first in ram && first + 3 < TWO_32
    requires taken == if first == 0 then ram else ram[first := ZeroPage()]
    ensures WritesEntry(ram, dir, first, taken[first := taken[first][j := w]], dir[i := first + 3], i, j, w)
  {
    hide Present, ZeroPage;
    if first > 0 {
      assert taken[first := taken[first][j := w]] == ram[first := ZeroPage()[j := w]];
    }
  }

  lemma ZeroWords()
    ensures forall k :: 0 <= k < 1024 ==> ZeroPage()[k] == 0
  {
  }

  lemma HeadOff(ram: Ram, first: nat, free: seq<nat>)
    requires Chain(ram, first, free) && free != []
    ensures first !in free[1..]
  {
  }

  lemma TakeStep(p: Pool)
    ensures p.free == [] ==> PoolStep(p, Take) == p
    ensures p.free != [] ==> PoolStep(p, Take) == Pool(p.free[1..], p.held + {p.free[0]})
  {
  }

  lemma GiveStep(p: Pool, page: nat)
    ensures PoolStep(p, Give(page)) == Pool([page] + p.free, p.held - {page})
  {
  }

  lemma SamePage(ram: Ram, page: nat)
    requires page in ram
    ensures ram[page := ram[page]] == ram
  {
  }

  /** Giving back a held page that is no table. */
  lemma GiveBack(ram: Ram, dir: Page, first: nat, free: seq<nat>, held: set<nat>, page: nat)
    requires ValidAt(ram, dir, first, free, held) && first < TWO_32 && page in ram && page > 0
    requires page in held && page !in TablePages(dir) && page % PAGE == 0 && page + 3 < TWO_32
    ensures ValidAt(ram[page := ram[page][0 := first]], dir, page, [page] + free, held - {page})
    ensures SpaceOf(ram[page := ram[page][0 := first]], dir) == SpaceOf(ram, dir)
  {
    hide TablesOk, PoolOk, Chain, SpaceOf, TablePages;
    NotTable(dir, page);
    PoolStepOk(Pool(free, held), Give(page));
    HeldNotFree(Pool(free, held), page);
    GiveStep(Pool(free, held), page);
    ChainPush(ram, first, free, page);
    GivenPageIsNoTable(ram, dir, free, page, ram[page][0 := first]);
  }

  lemma HeldNotFree(p: Pool, page: nat)
    requires PoolOk(p) && page in p.held
    ensures page !in p.free
  {
    assert page !in SetOf(p.free);
  }

  lemma NotTable(dir: Page, page: nat)
    requires page !in TablePages(dir)
    ensures forall i :: 0 <= i < SLOTS && Present(dir[i]) ==> FrameOf(dir[i]) != page
  {
  }

  /** A page just taken from the list can be written at will: no table and no mapping changes. */
  lemma TakenPageIsNoTable(ram: Ram, first: nat, dir: Page, free: seq<nat>, content: Page)
    requires Chain(ram, first, free) && free != [] && TablesOk(ram, dir, free)
    ensures TablesOk(ram[free[0] := content], dir, free[1..])
    ensures SpaceOf(ram[free[0] := content], dir) == SpaceOf(ram, dir)
  {
    var ram' := ram[free[0] := content];
    assert forall i :: 0 <= i < SLOTS && Present(dir[i]) ==> FrameOf(dir[i]) in ram && FrameOf(dir[i]) != free[0];
    SameRaw(ram, ram', dir);
  }

  /** Nor does giving back a page that is no table. */
  lemma GivenPageIsNoTable(ram: Ram, dir: Page, free: seq<nat>, page: nat, content: Page)
    requires TablesOk(ram, dir, free) && forall i :: 0 <= i < SLOTS && Present(dir[i]) ==> FrameOf(dir[i]) != page
    ensures TablesOk(ram[page := content], dir, [page] + free)
    ensures SpaceOf(ram[page := content], dir) == SpaceOf(ram, dir)
  {
    SameRaw(ram, ram[page := content], dir);
  }

  lemma SameRaw(ram: Ram, ram': Ram, dir: Page)
    requires forall i :: 0 <= i < SLOTS && Present(dir[i]) ==>
      FrameOf(dir[i]) in ram && FrameOf(dir[i]) in ram' && ram'[FrameOf(dir[i])] == ram[FrameOf(dir[i])]
    ensures SpaceOf(ram', dir) == SpaceOf(ram, dir)
  {
    hide Present, FrameOf;
    forall v | 0 <= v < SPAN ensures RawAt(ram', dir, v) == RawAt(ram, dir, v) {
    }
  }

  /** The pages the allocator and the page table hold between them. */
  ghost function Owned(dir: Page, free: seq<nat>): set<nat> {
    SetOf(free) + TablePages(dir)
  }

  ghost function TablePages(dir: Page): set<nat> {
    set i | 0 <= i < SLOTS && Present(dir[i]) :: FrameOf(dir[i])
  }

  lemma OwnedMoves(dir: Page, free: seq<nat>, i: nat, t: nat)
    requires i < SLOTS && !Present(dir[i]) && free != [] && free[0] == t && t % PAGE == 0 && t + 3 < TWO_32
    ensures Owned(dir[i := t + 3], free[1..]) == Owned(dir, free)
  {
    EntryOf(t);
    var dir' := dir[i := t + 3];
    forall p ensures p in Owned(dir', free[1..]) <==> p in Owned(dir, free) {
      assert FrameOf(dir'[i]) == t;
      assert free == [free[0]] + free[1..];
      assert forall k :: 0 <= k < SLOTS && k != i ==> dir'[k] == dir[k];
    }
  }

  lemma OwnedReturns(dir: Page, free: seq<nat>, i: nat)
    requires i < SLOTS && Present(dir[i])
    ensures Owned(dir[i := 2], [FrameOf(dir[i])] + free) <= Owned(dir, free) <= Owned(dir[i := 2], [FrameOf(dir[i])] + free)
  {
    NotPresent();
    var dir', t := dir[i := 2], FrameOf(dir[i]);
    assert t in Owned(dir, free);
    assert forall k :: 0 <= k < SLOTS && k != i ==> dir'[k] == dir[k];
  }

  /** C's && on words. */
  function LogicalAnd(a: nat, b: nat): nat { if a != 0 && b != 0 then 1 else 0 }

  lemma NothingMapped(s: Space, v: int)
    requires v !in s.maps
    ensures Unmapped(s, v) == s
  {
  }

  /** With its entry cleared, the table still has a present one exactly when it serves another page. */
  lemma SharedIff(ram: Ram, dir: Page, free: seq<nat>, i: nat, j: nat, v: int)
    requires TablesOk(ram, dir, free) && i < SLOTS && j < ENTRIES && Present(dir[i]) && v == i * ENTRIES + j
    ensures FrameOf(dir[i]) in ram
    ensures HasPresent(ram[FrameOf(dir[i])][j := 2]) <==> Shared(SpaceOf(ram, dir).maps - {v}, v)
  {
    var page := ram[FrameOf(dir[i])];
    var maps := SpaceOf(ram, dir).maps;
    if HasPresent(page[j := 2]) {
      var k :| 0 <= k < ENTRIES && Present(page[j := 2][k]);
      var w := i * ENTRIES + k;
      assert w / ENTRIES == i && w % ENTRIES == k && v / ENTRIES == i && v % ENTRIES == j;
      assert k != j && page[k] == page[j := 2][k];
      assert w in maps - {v};
    }
    if Shared(maps - {v}, v) {
      var w :| w in maps - {v} && w / ENTRIES == v / ENTRIES;
      assert w % ENTRIES != j;
      assert Present(page[j := 2][w % ENTRIES]);
    }
  }

  /** Giving the table page back empties its slot and leaves every other entry alone. */
  lemma TableDropped(ram: Ram, dir: Page, free: seq<nat>, i: nat, cleared: Page, given: Page)
    requires TablesOk(ram, dir, free) && i < SLOTS && Present(dir[i])
    ensures var t, dir' := FrameOf(dir[i]), dir[i := 2];
      && (forall v :: 0 <= v < SPAN && v / ENTRIES == i ==> RawAt(ram[t := cleared][t := given], dir', v) == 0)
      && (forall v :: 0 <= v < SPAN && v / ENTRIES != i ==>
            RawAt(ram[t := cleared][t := given], dir', v) == RawAt(ram, dir, v))
      && TablesOk(ram[t := cleared][t := given], dir', [t] + free)
  {
    var t, dir' := FrameOf(dir[i]), dir[i := 2];
    var ram' := ram[t := cleared][t := given];
    NotPresent();
    forall v | 0 <= v < SPAN ensures v / ENTRIES == i ==> RawAt(ram', dir', v) == 0 {
    }
    forall v | 0 <= v < SPAN && v / ENTRIES != i ensures RawAt(ram', dir', v) == RawAt(ram, dir, v) {
      var a := v / ENTRIES;
      assert Present(dir[a]) ==> FrameOf(dir[a]) != t;
    }
  }

  lemma NoTableNoEntry(ram: Ram, dir: Page, v: int)
    requires 0 <= v < SPAN && !Present(dir[v / ENTRIES])
    ensures RawAt(ram, dir, v) == 0
  {
  }

  /** Writing one entry of a table changes one raw entry. */
  lemma EntryWritten(ram: Ram, dir: Page, free: seq<nat>, i: nat, j: nat, w: uint32)
    requires TablesOk(ram, dir, free) && i < SLOTS && j < ENTRIES && Present(dir[i])
    ensures var t := FrameOf(dir[i]);
      var ram' := ram[t := ram[t][j := w]];
      && Raw(ram', dir, i, j) == w
      && (forall v :: 0 <= v < SPAN && v != i * ENTRIES + j ==> RawAt(ram', dir, v) == RawAt(ram, dir, v))
      && (HasPresent(ram'[t]) ==> TablesOk(ram', dir, free))
      && (Present(w) ==> HasPresent(ram'[t]))
  {
    var t := FrameOf(dir[i]);
    var ram' := ram[t := ram[t][j := w]];
    assert ram'[t][j] == w;
    forall v | 0 <= v < SPAN && v != i * ENTRIES + j ensures RawAt(ram', dir, v) == RawAt(ram, dir, v) {
      var a, b := v / ENTRIES, v % ENTRIES;
      assert a != i ==> (Present(dir[a]) ==> FrameOf(dir[a]) != t);
    }
  }

  /** A new table with a single entry changes one raw entry. */
  lemma TableAdded(ram: Ram, dir: Page, free: seq<nat>, i: nat, j: nat, t: nat, w: uint32)
    requires TablesOk(ram, dir, free) && i < SLOTS && j < ENTRIES && !Present(dir[i]) && Present(w)
    requires free != [] && free[0] == t && t in ram && t > 0 && t + 3 < TWO_32 && t % PAGE == 0 && NoRepeat(free)
    ensures var dir', ram' := dir[i := t + 3], ram[t := ZeroPage()[j := w]];
      && Raw(ram', dir', i, j) == w
      && (forall v :: 0 <= v < SPAN && v != i * ENTRIES + j ==> RawAt(ram', dir', v) == RawAt(ram, dir, v))
      && TablesOk(ram', dir', free[1..])
  {
    EntryOf(t);
    var dir', ram' := dir[i := t + 3], ram[t := ZeroPage()[j := w]];
    assert ram'[t][j] == w;
    forall v | 0 <= v < SPAN && v != i * ENTRIES + j ensures RawAt(ram', dir', v) == RawAt(ram, dir, v) {
      var a, b := v / ENTRIES, v % ENTRIES;
    }
  }

  ghost predicate PageAddresses(free: seq<nat>) {
    forall i :: 0 <= i < |free| ==> free[i] % PAGE == 0 && free[i] + 3 < TWO_32
  }

  // ----- a new table

  lemma IndexOf(v: int, i: nat, j: nat)
    requires 0 <= v && v / ENTRIES == i && v % ENTRIES == j
    ensures v == i * ENTRIES + j && j < ENTRIES
  {
  }

  lemma RawIs(ram: Ram, dir: Page, v: int)
    requires 0 <= v < SPAN
    ensures RawAt(ram, dir, v) == Raw(ram, dir, v / ENTRIES, v % ENTRIES)
  {
  }

  /** Entering phys in a table just taken from the list. */
  lemma NewTable(ram: Ram, dir: Page, first: nat, free: seq<nat>, held: set<nat>, v: int, i: nat, j: nat, phys: nat)
    requires ValidAt(ram, dir, first, free, held) && free != [] && free[0] % PAGE == 0 && free[0] + 3 < TWO_32
    requires 0 <= v < SPAN && v / ENTRIES == i < SLOTS && v % ENTRIES == j && !Present(dir[i])
    requires phys % PAGE == 0 && phys + 3 < TWO_32
    ensures var t := free[0];
      var dir', ram' := dir[i := t + 3], ram[t := ZeroPage()[j := phys + 3]];
      && ValidAt(ram', dir', NextOf(free[1..], -1), free[1..], held + {t})
      && SpaceOf(ram', dir') == Mapped(SpaceOf(ram, dir), v, phys)
      && Owned(dir', free[1..]) == Owned(dir, free)
  {
    hide TablesOk, PoolOk, SpaceOf, TablePages, Mapped, RawAt, Raw, Present, FrameOf, Owned, ZeroPage;
    var t := free[0];
    var dir', ram' := dir[i := t + 3], ram[t := ZeroPage()[j := phys + 3]];
    IndexOf(v, i, j);
    EntryOf(phys);
    EntryOf(t);
    TableAdded(ram, dir, free, i, j, t, phys + 3);
    NoTableNoEntry(ram, dir, v);
    RawIs(ram', dir', v);
    MappedFromRaw(ram, dir, ram', dir', v, phys);
    OwnedMoves(dir, free, i, t);
    ChainHead(ram, first, free);
    ChainTail(ram, first, free);
    HeadOff(ram, first, free);
    ChainSkip(ram, NextOf(free, 0), free[1..], t, ZeroPage()[j := phys + 3]);
    TakeStep(Pool(free, held));
    PoolStepOk(Pool(free, held), Take);
    TableEntered(dir, i, t + 3);
  }

  lemma TableEntered(dir: Page, i: nat, w: uint32)
    requires i < SLOTS
    ensures TablePages(dir[i := w]) <= TablePages(dir) + {FrameOf(w)}
  {
    var dir' := dir[i := w];
    forall p | p in TablePages(dir') ensures p in TablePages(dir) + {FrameOf(w)} {
      var k :| 0 <= k < SLOTS && Present(dir'[k]) && FrameOf(dir'[k]) == p;
      assert k != i ==> dir'[k] == dir[k];
    }
  }

  /** Entering phys with no page left: physical page 0 becomes the table, with all that is in it. */
  lemma PageZeroTable(ram: Ram, dir: Page, free: seq<nat>, v: int, i: nat, j: nat, phys: nat)
    requires TablesOk(ram, dir, free) && 0 in ram && phys % PAGE == 0 && phys + 3 < TWO_32
    requires 0 <= v < SPAN && v / ENTRIES == i < SLOTS && v % ENTRIES == j && !Present(dir[i])
    ensures var dir', ram' := dir[i := 3], ram[0 := ram[0][j := phys + 3]];
      SpaceOf(ram', dir') == Mapped(SpaceOf(ram, dir), v, phys) <==> EmptyBut(ram, j)
  {
    hide SpaceOf, Mapped;
    var dir', ram' := dir[i := 3], ram[0 := ram[0][j := phys + 3]];
    ZeroTableRaw(ram, dir, free, i, j, phys + 3);
    NoTableNoEntry(ram, dir, v);
    hide TablesOk, RawAt, Raw, FrameOf, Present;
    IndexOf(v, i, j);
    if EmptyBut(ram, j) {
      forall w | 0 <= w < SPAN && w != v ensures RawAt(ram', dir', w) == RawAt(ram, dir, w) {
        IndexOf(w, w / ENTRIES, w % ENTRIES);
      }
      MappedFromRaw(ram, dir, ram', dir', v, phys);
    } else {
      var k :| 0 <= k < ENTRIES && k != j && ram[0][k] != 0;
      IndexTo(i, k);
      LeftOver(ram, dir, ram', dir', i * ENTRIES + k, v, phys);
    }
  }

  lemma IndexTo(i: nat, k: nat)
    requires i < SLOTS && k < ENTRIES
    ensures 0 <= i * ENTRIES + k < SPAN && (i * ENTRIES + k) / ENTRIES == i && (i * ENTRIES + k) % ENTRIES == k
  {
  }

  /** The raw entries under a directory slot that leads to physical page 0. */
  lemma ZeroTableRaw(ram: Ram, dir: Page, free: seq<nat>, i: nat, j: nat, w: uint32)
    requires TablesOk(ram, dir, free) && 0 in ram && i < SLOTS && j < ENTRIES && !Present(dir[i])
    ensures var dir', ram' := dir[i := 3], ram[0 := ram[0][j := w]];
      && (forall v :: 0 <= v < SPAN && v / ENTRIES == i ==> RawAt(ram', dir', v) == ram'[0][v % ENTRIES] && RawAt(ram, dir, v) == 0)
      && (forall v :: 0 <= v < SPAN && v / ENTRIES != i ==> RawAt(ram', dir', v) == RawAt(ram, dir, v))
  {
    var dir', ram' := dir[i := 3], ram[0 := ram[0][j := w]];
    assert Present(3) && FrameOf(3) == 0;
    forall v | 0 <= v < SPAN && v / ENTRIES != i ensures RawAt(ram', dir', v) == RawAt(ram, dir, v) {
      assert dir'[v / ENTRIES] == dir[v / ENTRIES];
    }
  }

  /** An entry that was not there before is one too many. */
  lemma LeftOver(ram: Ram, dir: Page, ram': Ram, dir': Page, w: int, v: int, phys: nat)
    requires 0 <= w < SPAN && w != v && RawAt(ram, dir, w) == 0 && RawAt(ram', dir', w) != 0
    ensures SpaceOf(ram', dir') != Mapped(SpaceOf(ram, dir), v, phys)
  {
    NotPresent();
    hide RawAt, Raw;
    var s, s' := SpaceOf(ram, dir), SpaceOf(ram', dir');
    assert w !in s.maps && w !in s.stale;
    assert w in s'.maps || w in s'.stale;
  }

  // ----- clearing an entry

  lemma AndIsOne(a: uint32)
    requires Present(a)
    ensures LogicalAnd(a, 0xFFFF_F000) == 1
  {
  }

  /** The entry for v cleared: the table still serves others exactly when it has a present entry left. */
  lemma EntryCleared(ram: Ram, dir: Page, first: nat, free: seq<nat>, i: nat, j: nat, v: int)
    requires Chain(ram, first, free) && TablesOk(ram, dir, free) && i < SLOTS && Present(dir[i])
    requires 0 <= v < SPAN && v / ENTRIES == i && v % ENTRIES == j
    ensures var t := FrameOf(dir[i]);
      && t in ram && j < ENTRIES
      && var ram' := ram[t := ram[t][j := 2]];
        && Chain(ram', first, free) && RawAt(ram', dir, v) == 2
        && (forall w :: 0 <= w < SPAN && w != v ==> RawAt(ram', dir, w) == RawAt(ram, dir, w))
        && (HasPresent(ram'[t]) ==> TablesOk(ram', dir, free))
        && (HasPresent(ram'[t]) <==> Shared(SpaceOf(ram, dir).maps - {v}, v))
  {
    hide SpaceOf, RawAt, Raw, HasPresent, Shared;
    IndexOf(v, i, j);
    EntryWritten(ram, dir, free, i, j, 2);
    SharedIff(ram, dir, free, i, j, v);
    var t := FrameOf(dir[i]);
    hide TablesOk, FrameOf, Present;
    RawIs(ram[t := ram[t][j := 2]], dir, v);
    ChainSkip(ram, first, free, t, ram[t][j := 2]);
  }

  /** A table without present entries given back. */
  lemma TableReturned(ram: Ram, dir: Page, first: nat, free: seq<nat>, held: set<nat>, i: nat, v: int, cleared: Page, given: Page)
    requires ValidAt(ram, dir, first, free, held) && i < SLOTS && Present(dir[i]) && FrameOf(dir[i]) in ram
    requires 0 <= v < SPAN && v / ENTRIES == i && Present(RawAt(ram, dir, v)) && !Shared(SpaceOf(ram, dir).maps - {v}, v)
    ensures var t, dir' := FrameOf(dir[i]), dir[i := 2];
      var ram' := ram[t := cleared][t := given];
      && TablesOk(ram', dir', [t] + free) && PageAddresses([t] + free) && 0 in ram'
      && PoolOk(Pool([t] + free, held - {t})) && TablePages(dir') <= held - {t}
      && SpaceOf(ram', dir') == Unmapped(SpaceOf(ram, dir), v) && Owned(dir', [t] + free) == Owned(dir, free)
  {
    hide SpaceOf, RawAt, Raw, Shared, Owned, Unmapped, Chain, PoolOk;
    var t, dir' := FrameOf(dir[i]), dir[i := 2];
    TableDropped(ram, dir, free, i, cleared, given);
    TableLeft(ram, dir, free, i);
    ReleasedFromRaw(ram, dir, ram[t := cleared][t := given], dir', v);
    OwnedReturns(dir, free, i);
    PoolStepOk(Pool(free, held), Give(t));
    GiveStep(Pool(free, held), t);
  }

  /** With its slot emptied no directory entry leads to the table any more. */
  lemma TableLeft(ram: Ram, dir: Page, free: seq<nat>, i: nat)
    requires TablesOk(ram, dir, free) && i < SLOTS && Present(dir[i])
    ensures TablePages(dir[i := 2]) == TablePages(dir) - {FrameOf(dir[i])} && FrameOf(dir[i]) in TablePages(dir)
    ensures FrameOf(dir[i]) % PAGE == 0 && FrameOf(dir[i]) + 3 < TWO_32
  {
    hide HasPresent;
    NotPresent();
    var dir', t := dir[i := 2], FrameOf(dir[i]);
    assert forall k :: 0 <= k < SLOTS && k != i ==> dir'[k] == dir[k];
  }

  // ----- threading the list at boot

  function AfterKernel(kernelEnd: uint32): nat {
    (kernelEnd / PAGE + 1) * PAGE
  }

  lemma AfterKernelIs(kernelEnd: uint32)
    requires kernelEnd + PAGE < TWO_32
    ensures ToU32((kernelEnd / PAGE + 1) * PAGE) == AfterKernel(kernelEnd) > 0 && AfterKernel(kernelEnd) % PAGE == 0
    ensures (kernelEnd / PAGE + 1) * PAGE == AfterKernel(kernelEnd) < TWO_32
    ensures kernelEnd < AfterKernel(kernelEnd) <= kernelEnd + 4096 && AfterKernel(kernelEnd) % 4096 == 0
  {
  }

  /** The pages to be threaded: real, distinct page addresses. */
  ghost predicate UsableList(all: seq<nat>, ram: Ram) {
    NoRepeat(all) && PageAddresses(all) && forall i :: 0 <= i < |all| ==> all[i] in ram && all[i] > 0
  }

  lemma UsableFacts(rs: seq<Region>, after: nat, ram: Ram)
    requires Aligned(rs) && Disjoint(rs) && after % PAGE == 0 && after > 0
    requires forall p :: IsUsable(rs, after, p) ==> p in ram
    ensures UsableList(UsablePages(rs, after), ram)
    ensures forall p :: p in UsablePages(rs, after) <==> IsUsable(rs, after, p)
  {
    hide UsablePages, Aligned, Disjoint, NoRepeat;
    UsablePagesNoRepeat(rs, after);
    forall p ensures p in UsablePages(rs, after) <==> IsUsable(rs, after, p) {
      UsablePagesMembers(rs, after, p);
    }
    var all := UsablePages(rs, after);
    forall i | 0 <= i < |all| ensures all[i] % PAGE == 0 && 0 < all[i] < TWO_32 - 3 && all[i] in ram {
      assert IsUsable(rs, after, all[i]);
    }
  }

  /** What the loops keep: the pages done are linked, in order, and no page off the list has changed. */
  ghost predicate Threading(ram0: Ram, ram: Ram, done: seq<nat>, all: seq<nat>, first: nat, previous: nat) {
    && done <= all && Threaded(ram, done) && ram.Keys == ram0.Keys
    && (forall p :: p in ram0 && p !in all ==> ram[p] == ram0[p])
    && first == (if done == [] then 0 else done[0]) && previous == (if done == [] then 0 else done[|done| - 1])
  }

  lemma StartThread(rs: seq<Region>, after: nat, ram: Ram, all: seq<nat>)
    ensures UsablePages(rs[..0], after) == [] && Threading(ram, ram, [], all, 0, 0)
  {
  }

  lemma LongBound(mem: seq<byte>, o: nat)
    requires o + 8 <= |mem|
    ensures Long(mem, o) < TWO_64
  {
    LongIsValue(mem, o);
  }

  /** What one entry of the map adds to the list. */
  lemma NextRegion(mmap: seq<byte>, o: nat, rs: seq<Region>, after: nat, k: nat)
    requires k < |rs| && EntryAt(mmap, o, rs[k]) && Aligned(rs)
    ensures o + 24 <= |mmap| && Long(mmap, o + 4) + Long(mmap, o + 12) < TWO_64
    ensures var addr, len, target := Long(mmap, o + 4), Long(mmap, o + 12), UsablePages(rs[..k + 1], after);
      && target <= UsablePages(rs, after)
      && target == UsablePages(rs[..k], after) +
          if Word(mmap, o + 20) == 1 then PagesFrom(Max(after, addr), Min(addr + len, 0xFFFF_FFFF)) else []
  {
    hide PagesFrom, Max, Min, EntryAt, Word, Long, UsablePages;
    EntryRead(mmap, o, rs[k]);
    RegionAdds(rs, after, k);
  }

  lemma RegionAdds(rs: seq<Region>, after: nat, k: nat)
    requires k < |rs|
    ensures var r, target := rs[k], UsablePages(rs[..k + 1], after);
      && target <= UsablePages(rs, after)
      && target == UsablePages(rs[..k], after) +
          if r.usable then PagesFrom(Max(after, r.addr), Min(r.addr + r.len, 0xFFFF_FFFF)) else []
  {
    hide PagesFrom, Max, Min, UsablePages;
    UsablePagesPrefix(rs, after, k + 1);
    UsableNext(rs, after, k);
  }

  lemma UsableNext(rs: seq<Region>, after: nat, k: nat)
    requires k < |rs|
    ensures UsablePages(rs[..k + 1], after) == UsablePages(rs[..k], after) + RegionPages(rs[k], after)
  {
    hide RegionPages;
    var init := rs[..k + 1];
    assert init[..k] == rs[..k] && init[k] == rs[k] && |init| == k + 1;
  }

  lemma NoWrap64(x: nat)
    requires x < TWO_64
    ensures ToU64(x) == x
  {
  }

  lemma FirstPage(next: nat, end: nat)
    requires next < end
    ensures PagesFrom(next, end) == [next] + PagesFrom(next + PAGE, end)
  {
  }

  lemma NextPage(done: seq<nat>, next: nat, end: nat, all: seq<nat>)
    requires next < end && done + PagesFrom(next, end) <= all
    ensures |done| < |all| && all[|done|] == next
    ensures done + [next] + PagesFrom(next + PAGE, end) == done + PagesFrom(next, end)
  {
    hide PagesFrom;
    FirstPage(next, end);
    var part := done + PagesFrom(next, end);
    assert part[|done|] == next && all[|done|] == part[|done|];
  }

  lemma NoMorePages(next: nat, end: nat, done: seq<nat>)
    requires next >= end
    ensures done + PagesFrom(next, end) == done
  {
  }

  /** One page more. */
  lemma ThreadNext(ram0: Ram, ram: Ram, done: seq<nat>, all: seq<nat>, first: nat, previous: nat, next: nat)
    requires UsableList(all, ram0) && Threading(ram0, ram, done, all, first, previous)
    requires |done| < |all| && all[|done|] == next
    ensures next < TWO_32 && (first == 0 <==> done == [])
    ensures done == [] ==> Threading(ram0, ram, done + [next], all, next, next)
    ensures done != [] ==> previous in ram && Threading(ram0, ram[previous := ram[previous][0 := next]], done + [next], all, first, next)
  {
    hide Threaded, NextOf;
    PrefixNoRepeat(all, done);
    ThreadStep(ram, done, next);
    ThreadEnds(ram, done);
    if done != [] {
      assert previous == all[|done| - 1];
    }
  }

  lemma PrefixNoRepeat(all: seq<nat>, done: seq<nat>)
    requires NoRepeat(all) && done <= all
    ensures NoRepeat(done)
  {
    assert forall i :: 0 <= i < |done| ==> done[i] == all[i];
  }

  lemma ThreadEnds(ram: Ram, done: seq<nat>)
    requires Threaded(ram, done)
    ensures done != [] ==> done[0] > 0 && done[|done| - 1] in ram
  {
  }

  /** Closing the list leaves a valid allocator, with every boot-time mapping as it was. */
  lemma CloseThread(ram0: Ram, ram: Ram, dir: Page, all: seq<nat>, first: nat, previous: nat)
    requires UsableList(all, ram0) && Threading(ram0, ram, all, all, first, previous)
    requires TablesOk(ram0, dir, all) && 0 in ram0
    ensures previous in ram
    ensures var ram' := ram[previous := ram[previous][0 := 0]];
      ValidAt(ram', dir, first, all, TablePages(dir)) && SpaceOf(ram', dir) == SpaceOf(ram0, dir)
    ensures var ram' := ram[previous := ram[previous][0 := 0]];
      ram'.Keys == ram0.Keys && forall p :: p in ram0 && p > 0 && p !in all ==> ram'[p] == ram0[p]
  {
    hide Threaded, Chain, SpaceOf, NextOf;
    ThreadEnds(ram, all);
    var ram' := ram[previous := ram[previous][0 := 0]];
    ThreadEnd(ram, all);
    if all == [] {
      ChainSkip(ram, 0, all, 0, ram[0][0 := 0]);
    } else {
      assert previous in all;
    }
    assert forall i :: 0 <= i < SLOTS && Present(dir[i]) ==> FrameOf(dir[i]) in ram0 && ram'[FrameOf(dir[i])] == ram0[FrameOf(dir[i])];
    SameRaw(ram0, ram', dir);
    TablesAreOff(ram0, dir, all);
  }

  lemma TablesAreOff(ram: Ram, dir: Page, free: seq<nat>)
    requires TablesOk(ram, dir, free)
    ensures SetOf(free) !! TablePages(dir)
  {
  }
}
