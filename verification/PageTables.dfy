/** The two-level page table of kernel/src/arch/i386/mm/page_allocator.c against one flat map. */
module PageTables {
  import opened Words
  import opened Frames

  /** Directory slots below the self-map, and the virtual pages they cover. */
  const SLOTS := 1023
  const SPAN := 0xF_FC00

  predicate Present(w: uint32) { w % 2 == 1 }

  /** The page address in an entry: w & 0xFFFFF000. */
  function FrameOf(w: uint32): nat { w / PAGE * PAGE }

  /** mm_virtaddrtopageindex. */
  function PageIndex(addr: uint32): (int, int) {
    var a := addr / 0x1000 * 0x1000;
    (a / 0x40_0000, a % 0x40_0000 / 0x1000)
  }

  lemma PageIndexSplits(addr: uint32)
    ensures var (i, j) := PageIndex(addr);
      0 <= i < ENTRIES && 0 <= j < ENTRIES && i * ENTRIES + j == addr / PAGE
  {
  }

  lemma IndexNumbers(addr: uint32)
    ensures PageIndex(addr) == (addr / 0x40_0000, addr / 0x1000 % 1024)
  {
  }

  /** The raw table entry for slot i, index j; 0 where there is no table. */
  function Raw(ram: Ram, dir: Page, i: int, j: int): uint32
    requires 0 <= i < ENTRIES && 0 <= j < ENTRIES
  {
    if Present(dir[i]) && FrameOf(dir[i]) in ram then ram[FrameOf(dir[i])][j] else 0
  }

  function RawAt(ram: Ram, dir: Page, v: int): uint32
    requires 0 <= v < SPAN
  {
    Raw(ram, dir, v / ENTRIES, v % ENTRIES)
  }

  /**
   * The flat view: which virtual page leads to which physical one, and which unmapped slots still hold
   * the "not present" mark that makes mm_map_page refuse them.
   */
  datatype Space = Space(maps: map<int, nat>, stale: set<int>)

  ghost function SpaceOf(ram: Ram, dir: Page): Space {
    Space(map v | 0 <= v < SPAN && Present(RawAt(ram, dir, v)) :: FrameOf(RawAt(ram, dir, v)),
          set v | 0 <= v < SPAN && RawAt(ram, dir, v) != 0 && !Present(RawAt(ram, dir, v)))
  }

  ghost predicate HasPresent(page: Page) {
    exists j :: 0 <= j < ENTRIES && Present(page[j])
  }

  /** Every present directory slot has a table of its own, off the free list, with a present entry. */
  ghost predicate TablesOk(ram: Ram, dir: Page, free: seq<nat>) {
    && (forall i :: 0 <= i < SLOTS && Present(dir[i]) ==>
          FrameOf(dir[i]) in ram && FrameOf(dir[i]) > 0 && FrameOf(dir[i]) !in free && HasPresent(ram[FrameOf(dir[i])]))
    && (forall i, k :: 0 <= i < k < SLOTS && Present(dir[i]) && Present(dir[k]) ==> FrameOf(dir[i]) != FrameOf(dir[k]))
  }

  // ----- the flat machine

  predicate Refused(s: Space, v: int) { v in s.maps || v in s.stale }

  function Mapped(s: Space, v: int, phys: nat): Space {
    s.(maps := s.maps[v := phys])
  }

  predicate Shared(maps: map<int, nat>, v: int) {
    exists w :: w in maps && w / ENTRIES == v / ENTRIES
  }

  function Unmapped(s: Space, v: int): Space {
    if v !in s.maps then s
    else
      var maps := s.maps - {v};
      if Shared(maps, v) then Space(maps, s.stale + {v})
      else Space(maps, set w | w in s.stale && w / ENTRIES != v / ENTRIES)
  }

  /** A directory entry is present exactly when some page under it is mapped. */
  lemma PresentIffMapped(ram: Ram, dir: Page, free: seq<nat>, i: nat)
    requires TablesOk(ram, dir, free) && i < SLOTS
    ensures Present(dir[i]) <==> exists v :: v in SpaceOf(ram, dir).maps && v / ENTRIES == i
  {
    var s := SpaceOf(ram, dir);
    if Present(dir[i]) {
      var j :| 0 <= j < ENTRIES && Present(ram[FrameOf(dir[i])][j]);
      var v := i * ENTRIES + j;
      assert v / ENTRIES == i && v % ENTRIES == j;
      assert v in s.maps;
    }
  }

  /** After an unmap, a page of a table that still serves others cannot be mapped again. */
  lemma RemapRefused(s: Space, v: int)
    requires v in s.maps
    ensures Refused(Unmapped(s, v), v) <==> Shared(s.maps - {v}, v)
  {
  }

  /** A refused unmapped slot always has a mapped neighbour in its table: a table with none is released. */
  ghost predicate SpaceOk(s: Space) {
    forall v :: v in s.stale ==> v !in s.maps && Shared(s.maps, v)
  }

  lemma TablesGiveSpaceOk(ram: Ram, dir: Page, free: seq<nat>)
    requires TablesOk(ram, dir, free)
    ensures SpaceOk(SpaceOf(ram, dir))
  {
    var s := SpaceOf(ram, dir);
    forall v | v in s.stale ensures v !in s.maps && Shared(s.maps, v) {
      var i := v / ENTRIES;
      assert Present(dir[i]);
      PresentIffMapped(ram, dir, free, i);
    }
  }

  // ----- how raw entries determine the view

  lemma MappedFromRaw(ram: Ram, dir: Page, ram': Ram, dir': Page, v: int, phys: nat)
    requires 0 <= v < SPAN && phys % PAGE == 0 && phys + 3 < TWO_32 && RawAt(ram, dir, v) == 0
    requires RawAt(ram', dir', v) == phys + 3
    requires forall w :: 0 <= w < SPAN && w != v ==> RawAt(ram', dir', w) == RawAt(ram, dir, w)
    ensures SpaceOf(ram', dir') == Mapped(SpaceOf(ram, dir), v, phys)
  {
    hide RawAt;
    EntryOf(phys);
    hide FrameOf, Present;
    var s, s' := SpaceOf(ram, dir), SpaceOf(ram', dir');
    assert !Present(0) by { NotPresent(); }
    assert s'.maps == s.maps[v := phys];
    assert s'.stale == s.stale;
  }

  lemma EntryOf(phys: nat)
    requires phys % PAGE == 0 && phys + 3 < TWO_32
    ensures Present(phys + 3) && FrameOf(phys + 3) == phys
  {
  }

  lemma NotPresent()
    ensures !Present(0) && !Present(2)
  {
  }

  lemma UnmappedFromRaw(ram: Ram, dir: Page, ram': Ram, dir': Page, v: int)
    requires 0 <= v < SPAN && Present(RawAt(ram, dir, v)) && Shared(SpaceOf(ram, dir).maps - {v}, v)
    requires RawAt(ram', dir', v) == 2
    requires forall w :: 0 <= w < SPAN && w != v ==> RawAt(ram', dir', w) == RawAt(ram, dir, w)
    ensures SpaceOf(ram', dir') == Unmapped(SpaceOf(ram, dir), v)
  {
    hide RawAt, FrameOf;
    var s, s' := SpaceOf(ram, dir), SpaceOf(ram', dir');
    assert s'.maps == s.maps - {v};
    assert s'.stale == s.stale + {v};
  }

  lemma ReleasedFromRaw(ram: Ram, dir: Page, ram': Ram, dir': Page, v: int)
    requires 0 <= v < SPAN && Present(RawAt(ram, dir, v)) && !Shared(SpaceOf(ram, dir).maps - {v}, v)
    requires forall w :: 0 <= w < SPAN && w / ENTRIES == v / ENTRIES ==> RawAt(ram', dir', w) == 0
    requires forall w :: 0 <= w < SPAN && w / ENTRIES != v / ENTRIES ==> RawAt(ram', dir', w) == RawAt(ram, dir, w)
    ensures SpaceOf(ram', dir') == Unmapped(SpaceOf(ram, dir), v)
  {
    hide RawAt, FrameOf;
    var s, s' := SpaceOf(ram, dir), SpaceOf(ram', dir');
    assert s'.maps == s.maps - {v};
    assert s'.stale == set w | w in s.stale && w / ENTRIES != v / ENTRIES;
  }
}
