/** kernel/src/arch/i386/mm/page_allocator.c: page list and page table as one object. */
module PageAllocator {
  import opened Words
  import opened LittleEndian
  import opened Frames
  import opened Multiboot
  import opened PageTables
  import opened PageRuns
  import opened PageSteps

  class PageAllocator {
    /** Physical memory, reached in the kernel through a scratch mapping and the self-map. */
    var ram: Ram
    var dir: Page
    var firstFree: nat
    ghost var free: seq<nat>
    /** Pages in use: handed out, or serving as page tables. */
    ghost var held: set<nat>

    ghost predicate Valid()
      reads this
    {
      ValidAt(ram, dir, firstFree, free, held)
    }

    ghost function PoolOf(): Pool
      reads this
    {
      Pool(free, held)
    }

    /** What the boot code leaves behind: memory, a page directory and an empty list. */
    constructor (ram: Ram, dir: Page)
      ensures this.ram == ram && this.dir == dir && firstFree == 0
    {
      this.ram, this.dir, firstFree := ram, dir, 0;
    }

    method MarkPage(page: nat, next: uint32)
      requires page in ram
      modifies this`ram
      ensures ram == old(ram)[page := old(ram)[page][0 := next]]
    {
      ram := ram[page := ram[page][0 := next]];
    }

    /**
     * mm_init_page_allocator: threads the list through every usable page past the kernel.  The boot-time
     * page tables lie inside the kernel image.
     */
    method InitPageAllocator(mmap: seq<byte>, kernelEnd: uint32, ghost rs: seq<Region>)
      requires firstFree == 0 && MapAt(mmap, 0, rs) && Aligned(rs) && Disjoint(rs) && 0 in ram
      requires kernelEnd + PAGE < TWO_32 && TablesOk(ram, dir, UsablePages(rs, AfterKernel(kernelEnd)))
      requires forall p :: IsUsable(rs, AfterKernel(kernelEnd), p) ==> p in ram
      modifies this`ram, this`firstFree, this`free, this`held
      ensures Valid() && SpaceOf(ram, dir) == old(SpaceOf(ram, dir)) && held == TablePages(dir)
      ensures free == UsablePages(rs, AfterKernel(kernelEnd))
      ensures forall p :: p in free <==> IsUsable(rs, AfterKernel(kernelEnd), p)
      ensures ram.Keys == old(ram).Keys && forall p :: p in ram && p > 0 && p !in free ==> ram[p] == old(ram)[p]
    {
      hide ValidAt, SpaceOf, TablesOk, TablePages, Threading, UsableList, UsablePages, PagesFrom, Max, Min;
      hide MapAt, EntryAt, Word, Long, ToU32, IsUsable, Aligned, Disjoint, AfterKernel;
      AfterKernelIs(kernelEnd);
      var after := ToU32((kernelEnd / PAGE + 1) * PAGE);
      ghost var all := UsablePages(rs, after);
      UsableFacts(rs, after, ram);
      var previous: nat, mm: nat := 0, 0;
      ghost var done: seq<nat>, k := [], 0;
      StartThread(rs, after, ram, all);
      MapHead(mmap, 0, rs);
      assert rs[0..] == rs;
      while mm < |mmap|
        invariant k <= |rs| && MapAt(mmap, mm, rs[k..]) && (mm < |mmap| <==> k < |rs|)
        invariant done == UsablePages(rs[..k], after) && Threading(old(ram), ram, done, all, firstFree, previous)
        decreases |rs| - k
      {
        MapHead(mmap, mm, rs[k..]);
        NextRegion(mmap, mm, rs, after, k);
        LongBound(mmap, mm + 4);
        LongBound(mmap, mm + 12);
        if Word(mmap, mm + 20) == 1 {
          done, previous := ThreadRegion(Long(mmap, mm + 4), Long(mmap, mm + 12), after, previous, old(ram), all, done);
        }
        assert rs[k..][1..] == rs[k + 1..];
        mm := mm + Word(mmap, mm) + 4;
        k := k + 1;
        MapHead(mmap, mm, rs[k..]);
      }
      assert rs[..k] == rs;
      CloseThread(old(ram), ram, dir, all, firstFree, previous);
      MarkPage(previous, 0);
      free, held := done, TablePages(dir);
    }

    /** The inner loop: every page of one region, past the kernel and below 4G. */
    method ThreadRegion(addr: uint64, len: uint64, after: uint32, last: nat, ghost ram0: Ram, ghost all: seq<nat>, ghost before: seq<nat>)
      returns (ghost done: seq<nat>, previous: nat)
      requires addr + len < TWO_64 && UsableList(all, ram0) && Threading(ram0, ram, before, all, firstFree, last)
      requires before + PagesFrom(Max(after, addr), Min(addr + len, 0xFFFF_FFFF)) <= all
      modifies this`ram, this`firstFree
      ensures done == before + PagesFrom(Max(after, addr), Min(addr + len, 0xFFFF_FFFF))
      ensures Threading(ram0, ram, done, all, firstFree, previous)
    {
      hide PagesFrom, Threading, UsableList, Max, Min, ToU64;
      previous, done := last, before;
      var next := Max(after, addr);
      NoWrap64(addr + len);
      var end := Min(ToU64(addr + len), 0xFFFF_FFFF);
      ghost var target := before + PagesFrom(next, end);
      while next < end
        invariant done + PagesFrom(next, end) == target && Threading(ram0, ram, done, all, firstFree, previous)
        decreases end - next
      {
        NextPage(done, next, end, all);
        ThreadNext(ram0, ram, done, all, firstFree, previous, next);
        if firstFree == 0 {
          firstFree := next;
        } else {
          MarkPage(previous, next);
        }
        previous := next;
        done := done + [next];
        next := next + PAGE;
      }
      NoMorePages(next, end, done);
    }

    /** mm_alloc_physical_page: the head of the list, or 0. */
    method AllocPhysicalPage(zero: bool) returns (page: nat)
      requires Valid()
      modifies this`ram, this`firstFree, this`free, this`held
      ensures Valid() && SpaceOf(ram, dir) == old(SpaceOf(ram, dir)) && PoolOf() == PoolStep(old(PoolOf()), Take)
      ensures page == (if old(free) == [] then 0 else old(free)[0])
      ensures old(free) == [] ==> ram == old(ram)
      ensures old(free) != [] ==> page > 0 && page % PAGE == 0 && page + 3 < TWO_32 && page in ram
      ensures old(free) != [] ==> ram == if zero then old(ram)[page := ZeroPage()] else old(ram)
      ensures old(free) != [] ==> free == old(free)[1..] && (zero ==> forall k :: 0 <= k < 1024 ==> ram[page][k] == 0)
    {
      hide ValidAt, SpaceOf, PoolStep, ZeroPage;
      HeadOf(ram, dir, firstFree, free, held);
      page := firstFree;
      TakeStep(PoolOf());
      ZeroWords();
      if page != 0 {
        TakeHead(ram, dir, firstFree, free, held, if zero then ZeroPage() else ram[page]);
        SamePage(ram, page);
        firstFree := ram[page][0];
        free, held := free[1..], held + {page};
        if zero {
          ram := ram[page := ZeroPage()];
        }
      }
    }

    /** mm_free_physical_page: the page becomes the head of the list. */
    method FreePhysicalPage(page: nat)
      requires Chain(ram, firstFree, free) && page in ram && page > 0 && page !in free && firstFree < TWO_32
      modifies this`ram, this`firstFree, this`free, this`held
      ensures Chain(ram, firstFree, free) && PoolOf() == PoolStep(old(PoolOf()), Give(page))
      ensures ram == old(ram)[page := old(ram)[page][0 := old(firstFree)]]
      ensures old(Valid()) && page in old(held) && page !in TablePages(dir) && page % PAGE == 0 && page + 3 < TWO_32 ==>
        Valid() && SpaceOf(ram, dir) == old(SpaceOf(ram, dir))
    {
      hide ValidAt, SpaceOf, PoolStep, Chain, TablePages;
      ChainPush(ram, firstFree, free, page);
      if Valid() && page in held && page !in TablePages(dir) && page % PAGE == 0 && page + 3 < TWO_32 {
        GiveBack(ram, dir, firstFree, free, held, page);
      }
      GiveStep(PoolOf(), page);
      ram := ram[page := ram[page][0 := firstFree]];
      firstFree := page;
      free, held := [page] + free, held - {page};
    }

    /**
     * mm_map_page.  When the table is missing and no page is left for it, the source's open FIXME, the code
     * takes physical page 0 for a table.
     */
    method MapPage(phys: uint32, virt: uint32) returns (r: int)
      requires Valid() && phys % PAGE == 0 && virt / PAGE < SPAN
      modifies this
      ensures r == if phys == 0 || virt == 0 || Refused(old(SpaceOf(ram, dir)), virt / PAGE) then -1 else 0
      ensures r == -1 ==> ram == old(ram) && dir == old(dir) && PoolOf() == old(PoolOf())
      ensures r == 0 ==> (Valid() <==> !Starved(old(SpaceOf(ram, dir)), old(free), virt / PAGE))
      ensures r == 0 && Valid() ==> SpaceOf(ram, dir) == Mapped(old(SpaceOf(ram, dir)), virt / PAGE, phys)
      ensures r == 0 && !Valid() ==>
        (SpaceOf(ram, dir) == Mapped(old(SpaceOf(ram, dir)), virt / PAGE, phys) <==> EmptyBut(old(ram), virt / PAGE % ENTRIES))
      ensures r == 0 && Valid() ==>
        PoolOf() == if Shared(old(SpaceOf(ram, dir)).maps, virt / PAGE) then old(PoolOf()) else PoolStep(old(PoolOf()), Take)
      ensures Valid() ==> Owned(dir, free) == old(Owned(dir, free))
      ensures virt / 0x40_0000 < SLOTS
      ensures r == 0 ==>
        WritesEntry(old(ram), old(dir), old(firstFree), ram, dir, virt / 0x40_0000, virt / 0x1000 % 1024, phys + 3)
    {
      if phys == 0 || virt == 0 {
        return -1;
      }
      hide ValidAt, SpaceOf, PoolStep, Mapped, Shared, Refused, EmptyBut, Owned, Raw, RawAt, FrameOf, Present, PageIndex, WritesEntry;
      var (pagetable, page) := PageIndex(virt);
      PageIndexSplits(virt);
      ghost var v := virt / PAGE;
      SlotIndex(v, pagetable, page);
      RefusedIff(v);
      SharedIffPresent(v);
      IndexNumbers(virt);
      if Present(dir[pagetable]) {
        TableFacts(pagetable);
        TableEntry(v, pagetable, page);
        var table := FrameOf(dir[pagetable]);
        if ram[table][page] == 0 {
          EnterInTable(phys, v, pagetable, page);
        } else {
          return -1;
        }
      } else {
        NoTableNoEntry(ram, dir, v);
        EnterInNewTable(phys, v, pagetable, page);
      }
      r := 0;
    }

    /** The state in which mm_map_page would take physical page 0 for a table. */
    predicate Lacks(virt: uint32)
      reads this
    {
      !Present(dir[virt / PAGE / ENTRIES]) && firstFree == 0
    }

    lemma LacksIff(virt: uint32)
      requires Valid() && virt / PAGE < SPAN
      ensures Lacks(virt) <==> Starved(SpaceOf(ram, dir), free, virt / PAGE)
      ensures Lacks(virt) ==> !Refused(SpaceOf(ram, dir), virt / PAGE)
    {
      hide ValidAt, SpaceOf, Shared, Present, RawAt;
      SharedIffPresent(virt / PAGE);
      RefusedIff(virt / PAGE);
      if !Present(dir[virt / PAGE / ENTRIES]) {
        NoTableNoEntry(ram, dir, virt / PAGE);
      }
      HeadOf(ram, dir, firstFree, free, held);
    }

    lemma RefusedIff(v: int)
      requires 0 <= v < SPAN
      ensures Refused(SpaceOf(ram, dir), v) <==> RawAt(ram, dir, v) != 0
    {
    }

    lemma SlotIndex(v: int, i: int, j: int)
      requires 0 <= i < ENTRIES && 0 <= j < ENTRIES && i * ENTRIES + j == v && v < SPAN
      ensures 0 <= v && v / ENTRIES == i && v % ENTRIES == j && i < SLOTS
    {
    }

    lemma TableFacts(i: nat)
      requires Valid() && i < SLOTS && Present(dir[i])
      ensures FrameOf(dir[i]) in ram && FrameOf(dir[i]) > 0 && FrameOf(dir[i]) !in free && FrameOf(dir[i]) in held
      ensures FrameOf(dir[i]) % PAGE == 0 && FrameOf(dir[i]) + 3 < TWO_32
      ensures Chain(ram, firstFree, free) && HasPresent(ram[FrameOf(dir[i])]) && firstFree < TWO_32
    {
      hide HasPresent;
      assert FrameOf(dir[i]) in TablePages(dir);
    }

    lemma TableEntry(v: int, i: nat, j: nat)
      requires Valid() && 0 <= v < SPAN && v / ENTRIES == i && v % ENTRIES == j && Present(dir[i])
      ensures FrameOf(dir[i]) in ram && RawAt(ram, dir, v) == ram[FrameOf(dir[i])][j]
    {
    }

    lemma SharedIffPresent(v: int)
      requires Valid() && 0 <= v < SPAN
      ensures Shared(SpaceOf(ram, dir).maps, v) <==> Present(dir[v / ENTRIES])
    {
      hide SpaceOf, Chain;
      PresentIffMapped(ram, dir, free, v / ENTRIES);
    }

    lemma MappedIff(v: int)
      requires 0 <= v < SPAN
      ensures v in SpaceOf(ram, dir).maps <==> Present(RawAt(ram, dir, v))
    {
    }

    lemma Parts()
      requires Valid()
      ensures Chain(ram, firstFree, free) && TablesOk(ram, dir, free) && PageAddresses(free) && 0 in ram
      ensures PoolOk(PoolOf()) && TablePages(dir) <= held
    {
    }

    lemma Whole()
      requires Chain(ram, firstFree, free) && TablesOk(ram, dir, free) && PageAddresses(free) && 0 in ram
      requires PoolOk(PoolOf()) && TablePages(dir) <= held
      ensures Valid()
    {
    }

    /** The branch of mm_map_page that finds its table. */
    method EnterInTable(phys: uint32, ghost v: int, i: nat, j: nat)
      requires Valid() && phys % PAGE == 0 && phys > 0 && 0 <= v < SPAN && v / ENTRIES == i && v % ENTRIES == j
      requires i < SLOTS && j < ENTRIES && Present(dir[i]) && RawAt(ram, dir, v) == 0
      modifies this`ram
      ensures Valid() && SpaceOf(ram, dir) == Mapped(old(SpaceOf(ram, dir)), v, phys)
      ensures WritesEntry(old(ram), dir, firstFree, ram, dir, i, j, phys + 3)
    {
      hide ValidAt, SpaceOf, TablesOk, Chain, PoolOk, TablePages, PageAddresses, Mapped, HasPresent, Raw, RawAt, FrameOf, Present, WritesEntry;
      Parts();
      TableFacts(i);
      EntryOf(phys);
      IndexOf(v, i, j);
      var table := FrameOf(dir[i]);
      TableWrites(ram, dir, firstFree, i, j, phys + 3);
      ram := ram[table := ram[table][j := phys + 3]];
      ChainSkip(old(ram), firstFree, free, table, ram[table]);
      EntryWritten(old(ram), dir, free, i, j, phys + 3);
      RawIs(ram, dir, v);
      MappedFromRaw(old(ram), dir, ram, dir, v, phys);
      Whole();
    }

    /** The branch that allocates a zeroed table first. */
    method EnterInNewTable(phys: uint32, ghost v: int, i: nat, j: nat)
      requires Valid() && phys % PAGE == 0 && phys > 0 && 0 <= v < SPAN && v / ENTRIES == i && v % ENTRIES == j
      requires i < SLOTS && j < ENTRIES && !Present(dir[i])
      modifies this
      ensures Valid() <==> old(free) != []
      ensures old(free) != [] ==> SpaceOf(ram, dir) == Mapped(old(SpaceOf(ram, dir)), v, phys)
      ensures old(free) != [] ==> PoolOf() == PoolStep(old(PoolOf()), Take) && Owned(dir, free) == old(Owned(dir, free))
      ensures old(free) == [] ==> (SpaceOf(ram, dir) == Mapped(old(SpaceOf(ram, dir)), v, phys) <==> EmptyBut(old(ram), j))
      ensures WritesEntry(old(ram), old(dir), old(firstFree), ram, dir, i, j, phys + 3)
    {
      hide ValidAt, SpaceOf, TablesOk, Chain, PoolOk, PoolStep, TablePages, PageAddresses, Mapped, Owned, EmptyBut, ZeroPage, Present, WritesEntry;
      Parts();
      HeadOf(ram, dir, firstFree, free, held);
      var newTable := AllocPhysicalPage(true);
      Parts();
      ghost var taken := ram;
      dir := dir[i := newTable + 3];
      TakenWrites(old(ram), old(dir), old(firstFree), ram, i, j, phys + 3);
      ram := ram[newTable := ram[newTable][j := phys + 3]];
      if old(free) != [] {
        NewTable(old(ram), old(dir), old(firstFree), old(free), old(held), v, i, j, phys);
        TakeStep(old(PoolOf()));
        assert ram == old(ram)[newTable := ZeroPage()[j := phys + 3]];
        ChainStart(taken, firstFree, free);
      } else {
        PageZeroTable(old(ram), old(dir), old(free), v, i, j, phys);
        NoTableAtZero(i);
      }
    }

    lemma NoTableAtZero(i: nat)
      requires i < SLOTS && dir[i] == 3
      ensures !Valid()
    {
      assert FrameOf(3) == 0 && Present(3);
    }

    /** The scan of mm_unmap_page: the first present entry, or 1024. */
    method FirstPresent(table: Page) returns (i: nat)
      ensures i <= ENTRIES && (i < ENTRIES <==> HasPresent(table))
    {
      i := 0;
      while i < ENTRIES
        invariant i <= ENTRIES && forall k :: 0 <= k < i ==> !Present(table[k])
      {
        if Present(table[i]) {
          break;
        }
        i := i + 1;
      }
    }

    /**
     * mm_unmap_page.  The documented result is the physical address; the code's && makes it 1 for every
     * mapped page.
     */
    method UnmapPage(virt: uint32) returns (r: nat)
      requires Valid() && virt / PAGE < SPAN
      modifies this
      ensures Valid() && SpaceOf(ram, dir) == Unmapped(old(SpaceOf(ram, dir)), virt / PAGE)
      ensures r == if virt / PAGE in old(SpaceOf(ram, dir)).maps then 1 else 0
      ensures var s, v := old(SpaceOf(ram, dir)), virt / PAGE;
        PoolOf() == if v in s.maps && !Shared(s.maps - {v}, v) then PoolStep(old(PoolOf()), Give(old(FrameOf(dir[v / ENTRIES])))) else old(PoolOf())
      ensures Owned(dir, free) == old(Owned(dir, free))
      ensures virt / 0x40_0000 < SLOTS
      ensures ClearsEntry(old(ram), old(dir), ram, dir, virt / 0x40_0000, virt / 0x1000 % 1024)
    {
      hide ValidAt, SpaceOf, TablesOk, Chain, PoolOk, PoolStep, TablePages, PageAddresses, Unmapped, Shared, Owned;
      hide HasPresent, Raw, RawAt, FrameOf, Present, PageIndex, LogicalAnd;
      r := 0;
      var (pagetable, page) := PageIndex(virt);
      PageIndexSplits(virt);
      ghost var v := virt / PAGE;
      SlotIndex(v, pagetable, page);
      Parts();
      IndexNumbers(virt);
      MappedIff(v);
      NotPresent();
      if Present(dir[pagetable]) {
        TableFacts(pagetable);
        TableEntry(v, pagetable, page);
        var table := FrameOf(dir[pagetable]);
        if Present(ram[table][page]) {
          AndIsOne(ram[table][page]);
          r := LogicalAnd(ram[table][page], 0xFFFF_F000);
          ram := ram[table := ram[table][page := 2]];
          EntryCleared(old(ram), dir, firstFree, free, pagetable, page, v);
        }
        var i := FirstPresent(ram[table]);
        if i == ENTRIES {
          ghost var cleared := ram[table];
          GiveStep(PoolOf(), table);
          FreePhysicalPage(FrameOf(dir[pagetable]));
          dir := dir[pagetable := 2];
          TableReturned(old(ram), old(dir), old(firstFree), old(free), old(held), pagetable, v, cleared, ram[table]);
        } else if r == 1 {
          UnmappedFromRaw(old(ram), old(dir), ram, dir, v);
        } else {
          NothingMapped(SpaceOf(ram, dir), v);
        }
      } else {
        NoTableNoEntry(ram, dir, v);
        NothingMapped(SpaceOf(ram, dir), v);
      }
      Whole();
    }
  }
}
