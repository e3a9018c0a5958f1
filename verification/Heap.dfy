/** malloc, free and realloc of libk/src/all/stdlib/malloc.c over byte memory. */
module Heap {
  import opened Words
  import opened HeapSpec
  import opened HeapMemory
  import opened LittleEndian
  import opened HeapGrowth
  import opened Frames
  import opened PageTables
  import opened PageRuns
  import opened PageAllocator

  /** The whole heap invariant: the chunk list is sound and its tags stand in memory. */
  ghost predicate WellTagged(l: Layout, mem: seq<byte>, cs: seq<Chunk>) {
    ListOk(l, cs, l.heapStart + |mem|) && AllTagged(l, mem, cs)
  }

  /** Every live chunk but those at the addresses in `gone` is still there, with the same bytes in its payload. */
  ghost predicate LiveKept(l: Layout, mem: seq<byte>, cs: seq<Chunk>, mem': seq<byte>, cs': seq<Chunk>, gone: set<int>) {
    && AllTagged(l, mem, cs) && AllTagged(l, mem', cs')
    && forall i :: 0 <= i < |cs| && !cs[i].free && cs[i].addr !in gone ==>
        exists j :: 0 <= j < |cs'| && cs'[j] == cs[i] && Payload(l, mem', cs'[j]) == Payload(l, mem, cs[i])
  }

  lemma AllTaggedConcat(l: Layout, mem: seq<byte>, a: seq<Chunk>, b: seq<Chunk>)
    ensures AllTagged(l, mem, a + b) <==> AllTagged(l, mem, a) && AllTagged(l, mem, b)
  {
    hide Tagged;
    assert forall i :: 0 <= i < |a| ==> (a + b)[i] == a[i];
    assert forall i :: 0 <= i < |b| ==> (a + b)[|a| + i] == b[i];
  }

  /**
   * Putting freshly tagged pieces between a and b, with all writes inside the stretch they cover, keeps the
   * tags and payloads of a and b.
   */
  lemma Install(l: Layout, mem: seq<byte>, mem': seq<byte>, a: seq<Chunk>, ps: seq<Chunk>, b: seq<Chunk>, lo: nat, mid: nat)
    requires Tiles(l, a, l.heapStart, lo) && Tiles(l, b, mid, l.heapStart + |mem'|)
    requires AllTagged(l, mem, a) && AllTagged(l, mem, b) && AllTagged(l, mem', ps)
    requires SameOutside(l, mem, mem', lo, mid)
    ensures AllTagged(l, mem', a + ps + b) && PayloadsKept(l, mem, mem', a) && PayloadsKept(l, mem, mem', b)
  {
    hide AllTagged, Tiles, SameOutside, Payload;
    PrefixKept(l, mem, mem', a, lo, mid);
    SuffixKept(l, mem, mem', b, lo, mid, l.heapStart + |mem'|);
    AllTaggedConcat(l, mem', a, ps);
    AllTaggedConcat(l, mem', a + ps, b);
  }

  /** The live chunks of a and b survive when the chunks between them were free, or the one given back. */
  lemma InstallLive(l: Layout, mem: seq<byte>, mem': seq<byte>, a: seq<Chunk>, mid: seq<Chunk>, b: seq<Chunk>, ps: seq<Chunk>, gone: set<int>)
    requires AllTagged(l, mem, a + mid + b) && AllTagged(l, mem', a + ps + b)
    requires PayloadsKept(l, mem, mem', a) && PayloadsKept(l, mem, mem', b)
    requires forall i :: 0 <= i < |mid| ==> mid[i].free || mid[i].addr in gone
    ensures LiveKept(l, mem, a + mid + b, mem', a + ps + b, gone)
  {
    hide Word, Payload;
    var cs, cs' := a + mid + b, a + ps + b;
    forall i | 0 <= i < |cs| && !cs[i].free && cs[i].addr !in gone
      ensures exists j :: 0 <= j < |cs'| && cs'[j] == cs[i] && Payload(l, mem', cs'[j]) == Payload(l, mem, cs[i])
    {
      if i < |a| {
        assert cs'[i] == cs[i] == a[i];
      } else {
        NotInside(a, mid, b, i);
        var k := i - |a| - |mid|;
        assert cs[i] == b[k] == cs'[|a| + |ps| + k];
      }
    }
  }

  lemma NotInside(a: seq<Chunk>, mid: seq<Chunk>, b: seq<Chunk>, i: nat)
    requires |a| <= i < |a + mid + b|
    ensures i < |a| + |mid| ==> (a + mid + b)[i] == mid[i - |a|]
    ensures i >= |a| + |mid| ==> (a + mid + b)[i] == b[i - |a| - |mid|]
  {
  }

  // ----- the marks of an allocation

  /** The memory after the split-or-not of malloc. */
  function PiecesMarked(l: Layout, mem: seq<byte>, c: Chunk, n: nat): (mem': seq<byte>)
    requires l.startSize >= 8 && l.endSize >= 8 && l.heapStart <= c.addr
    requires c.End(l) <= l.heapStart + |mem| && c.size < TWO_32 && n <= c.size
    ensures |mem'| == |mem|
  {
    var ps := Pieces(l, c, n);
    if c.size > n + l.Overhead() then Marked(l, Marked(l, mem, ps[1]), ps[0]) else Marked(l, mem, ps[0])
  }

  lemma PiecesTagged(l: Layout, mem: seq<byte>, c: Chunk, n: nat)
    requires l.startSize >= 8 && l.endSize >= 8 && l.heapStart <= c.addr
    requires c.End(l) <= l.heapStart + |mem| && c.size < TWO_32 && n <= c.size
    ensures AllTagged(l, PiecesMarked(l, mem, c, n), Pieces(l, c, n))
    ensures SameOutside(l, mem, PiecesMarked(l, mem, c, n), c.addr, c.End(l))
  {
    hide Marked, Tagged;
    var ps := Pieces(l, c, n);
    if c.size > n + l.Overhead() {
      var m1 := Marked(l, mem, ps[1]);
      MarkedTagged(l, mem, ps[1]);
      MarkedTagged(l, m1, ps[0]);
      TaggedKept(l, m1, Marked(l, m1, ps[0]), ps[1], ps[0].addr, ps[0].End(l));
    } else {
      MarkedTagged(l, mem, ps[0]);
    }
  }

  /** Cutting an allocation out of a free chunk keeps the heap invariant and every live payload. */
  lemma FitInstalled(l: Layout, mem: seq<byte>, cs: seq<Chunk>, i: nat, n: nat)
    requires WellTagged(l, mem, cs) && i < |cs| && Fits(cs[i], n) && n % l.align == 0
    requires l.heapStart <= cs[i].addr && cs[i].End(l) <= l.heapStart + |mem| && cs[i].size < TWO_32
    ensures var mem' := PiecesMarked(l, mem, cs[i], n);
      WellTagged(l, mem', Carve(l, cs, i, n)) && LiveKept(l, mem, cs, mem', Carve(l, cs, i, n), {})
  {
    hide Tiles, NoTwoFree, Tagged, AllTagged, SameOutside, LiveKept, PiecesMarked, Pieces, Payload;
    var hi := l.heapStart + |mem|;
    var a, b, ps, mem' := cs[..i], cs[i + 1..], Pieces(l, cs[i], n), PiecesMarked(l, mem, cs[i], n);
    CarveOk(l, cs, hi, i, n);
    PiecesTagged(l, mem, cs[i], n);
    TilesSplit(l, cs, i, l.heapStart, hi);
    TilesBounds(l, cs, l.heapStart, hi, i);
    TilesSplit(l, cs, i + 1, l.heapStart, hi);
    assert cs == a + [cs[i]] + b;
    AllTaggedConcat(l, mem, a, [cs[i]]);
    AllTaggedConcat(l, mem, a + [cs[i]], b);
    Install(l, mem, mem', a, ps, b, cs[i].addr, cs[i].End(l));
    InstallLive(l, mem, mem', a, [cs[i]], b, ps, {});
  }

  /** Cutting an allocation out of the grown end of the heap does too. */
  lemma GrowInstalled(l: Layout, mem: seq<byte>, grown: seq<byte>, cs: seq<Chunk>, n: nat, pages: nat)
    requires WellTagged(l, mem, cs) && LeastPages(l, cs, n, pages) && n % l.align == 0 && NoFit(cs, n)
    requires mem <= grown && |grown| == |mem| + pages * PAGE && l.heapStart + |grown| < TWO_32
    ensures var g := GrownChunk(l, cs, l.heapStart + |mem|, pages);
      && l.Ok() && l.heapStart <= g.addr && g.End(l) == l.heapStart + |grown| && n <= g.size < TWO_32
      && var mem', cs' := PiecesMarked(l, grown, g, n), Kept(l, cs) + Pieces(l, g, n);
        WellTagged(l, mem', cs') && LiveKept(l, mem, cs, mem', cs', {})
  {
    hide Tiles, NoTwoFree, Tagged, AllTagged, LiveKept, PiecesMarked, Pieces, Payload, NoFit, SameOutside;
    var hi := l.heapStart + |mem|;
    GrownChunkOk(l, cs, hi, pages, n);
    var g := GrownChunk(l, cs, hi, pages);
    var a, ps := Kept(l, cs), Pieces(l, g, n);
    AllocatedOk(l, cs, hi, n, Grow(pages));
    TilesRange(l, a, l.heapStart, g.addr);
    PiecesTagged(l, grown, g, n);
    var mem' := PiecesMarked(l, grown, g, n);
    SameOnPrefix(l, mem, grown, mem', g.addr, g.End(l));
    var rest := cs[|a|..];
    assert cs == a + rest && a + rest + [] == a + rest;
    AllTaggedConcat(l, mem, a, rest);
    NoneTagged(l, mem);
    assert Tiles(l, [], g.End(l), l.heapStart + |mem'|) by { NoTiles(l, g.End(l)); }
    Install(l, mem, mem', a, ps, [], g.addr, g.End(l));
    assert a + ps + [] == a + ps;
    InstallLive(l, mem, mem', a, rest, [], ps, {});
  }

  lemma SameOnPrefix(l: Layout, mem: seq<byte>, grown: seq<byte>, mem': seq<byte>, lo: nat, hi: nat)
    requires mem <= grown && SameOutside(l, grown, mem', lo, hi)
    ensures SameOutside(l, mem, mem', lo, hi)
  {
  }

  lemma NoneTagged(l: Layout, mem: seq<byte>)
    ensures AllTagged(l, mem, [])
  {
  }

  lemma NoTiles(l: Layout, at: nat)
    ensures Tiles(l, [], at, at)
  {
  }

  // ----- writing into a block

  /** Writing inside one payload touches no tag and no other payload. */
  lemma PayloadWritten(l: Layout, mem: seq<byte>, mem': seq<byte>, cs: seq<Chunk>, k: nat)
    requires WellTagged(l, mem, cs) && k < |cs| && |mem'| == |mem|
    requires SameOutside(l, mem, mem', cs[k].addr + l.startSize, cs[k].addr + l.startSize + cs[k].size)
    ensures WellTagged(l, mem', cs) && LiveKept(l, mem, cs, mem', cs, {cs[k].addr})
  {
    hide ListOk, Word;
    forall i | 0 <= i < |cs|
      ensures Tagged(l, mem', cs[i]) && (cs[i].addr != cs[k].addr ==> Payload(l, mem', cs[i]) == Payload(l, mem, cs[i]))
    {
      if i == k {
        var c, o := cs[i], cs[i].addr - l.heapStart;
        WordKept(mem, mem', o + 4);
        WordKept(mem, mem', o + l.startSize + c.size);
        WordKept(mem, mem', o + l.startSize + c.size + 4);
      } else {
        Separate(l, cs, l.heapStart + |mem|, i, k);
        TaggedKept(l, mem, mem', cs[i], cs[k].addr + l.startSize, cs[k].addr + l.startSize + cs[k].size);
      }
    }
  }

  lemma Separate(l: Layout, cs: seq<Chunk>, hi: nat, i: nat, k: nat)
    requires ListOk(l, cs, hi) && i < |cs| && k < |cs| && i != k
    ensures cs[i].End(l) <= cs[k].addr || cs[k].End(l) <= cs[i].addr
    ensures cs[i].addr != cs[k].addr
  {
    if i < k {
      ChunksDisjoint(l, cs, l.heapStart, hi, i, k);
    } else {
      ChunksDisjoint(l, cs, l.heapStart, hi, k, i);
    }
  }

  lemma KeptTagged(l: Layout, mem: seq<byte>, cs: seq<Chunk>, mem': seq<byte>, cs': seq<Chunk>, gone: set<int>)
    requires LiveKept(l, mem, cs, mem', cs', gone)
    ensures AllTagged(l, mem, cs) && AllTagged(l, mem', cs')
  {
  }

  /** Where LiveKept finds the i-th chunk again. */
  lemma FindKept(l: Layout, mem: seq<byte>, cs: seq<Chunk>, mem': seq<byte>, cs': seq<Chunk>, gone: set<int>, i: nat) returns (j: nat)
    requires LiveKept(l, mem, cs, mem', cs', gone) && i < |cs| && !cs[i].free && cs[i].addr !in gone
    ensures j < |cs'| && cs'[j] == cs[i] && Tagged(l, mem, cs[i]) && Tagged(l, mem', cs'[j])
    ensures Payload(l, mem', cs'[j]) == Payload(l, mem, cs[i])
  {
    j :| 0 <= j < |cs'| && cs'[j] == cs[i] && Payload(l, mem', cs'[j]) == Payload(l, mem, cs[i]);
  }

  /** Keeping live blocks composes: what neither step gave up or rewrote survives both. */
  lemma LiveKeptTrans(l: Layout, m0: seq<byte>, c0: seq<Chunk>, m1: seq<byte>, c1: seq<Chunk>, m2: seq<byte>, c2: seq<Chunk>,
                      gone: set<int>, gone': set<int>)
    requires LiveKept(l, m0, c0, m1, c1, gone) && LiveKept(l, m1, c1, m2, c2, gone')
    ensures LiveKept(l, m0, c0, m2, c2, gone + gone')
  {
    hide Payload, Word;
    forall i | 0 <= i < |c0| && !c0[i].free && c0[i].addr !in gone + gone'
      ensures exists j :: 0 <= j < |c2| && c2[j] == c0[i] && Payload(l, m2, c2[j]) == Payload(l, m0, c0[i])
    {
      var j :| 0 <= j < |c1| && c1[j] == c0[i] && Payload(l, m1, c1[j]) == Payload(l, m0, c0[i]);
    }
  }

  lemma LiveKeptNarrow(l: Layout, mem: seq<byte>, cs: seq<Chunk>, mem': seq<byte>, cs': seq<Chunk>, gone: set<int>, gone': set<int>)
    requires LiveKept(l, mem, cs, mem', cs', gone)
    requires forall i :: 0 <= i < |cs| && !cs[i].free && cs[i].addr in gone ==> cs[i].addr in gone'
    ensures LiveKept(l, mem, cs, mem', cs', gone')
  {
    hide Payload, Word;
  }

  // ----- the marks of a release

  lemma SameTrans(l: Layout, m0: seq<byte>, m1: seq<byte>, m2: seq<byte>, lo: nat, hi: nat, lo': nat, hi': nat)
    requires SameOutside(l, m0, m1, lo, hi) && SameOutside(l, m1, m2, lo', hi') && lo' <= lo && hi <= hi'
    ensures SameOutside(l, m0, m2, lo', hi')
  {
  }

  /** Coalescing keeps the heap invariant and every other live payload. */
  lemma FreeInstalled(l: Layout, mem: seq<byte>, mem': seq<byte>, cs: seq<Chunk>, i: nat)
    requires WellTagged(l, mem, cs) && i < |cs| && !cs[i].free && |mem'| == |mem|
    requires var m := Merged(l, cs, i); Tagged(l, mem', m) && SameOutside(l, mem, mem', m.addr, m.End(l))
    ensures WellTagged(l, mem', Released(l, cs, i))
    ensures LiveKept(l, mem, cs, mem', Released(l, cs, i), {cs[i].addr})
  {
    hide Tiles, NoTwoFree, Tagged, AllTagged, LiveKept, Payload, SameOutside, Merged;
    var hi := l.heapStart + |mem|;
    var from, to, m := MergeFrom(cs, i), MergeTo(cs, i), Merged(l, cs, i);
    ReleasedOk(l, cs, hi, i);
    MergedSpan(l, cs, hi, i);
    TilesSplit(l, cs, from, l.heapStart, hi);
    TilesSplit(l, cs, to + 1, l.heapStart, hi);
    var a, mid, b := cs[..from], cs[from..to + 1], cs[to + 1..];
    assert cs == a + mid + b;
    AllTaggedConcat(l, mem, a, mid);
    AllTaggedConcat(l, mem, a + mid, b);
    OneTagged(l, mem', m);
    Install(l, mem, mem', a, [m], b, m.addr, m.End(l));
    InstallLive(l, mem, mem', a, mid, b, [m], {cs[i].addr});
  }

  lemma OneTagged(l: Layout, mem: seq<byte>, c: Chunk)
    requires Tagged(l, mem, c)
    ensures AllTagged(l, mem, [c])
  {
  }

  /** Where the merged chunk lies. */
  lemma MergedSpan(l: Layout, cs: seq<Chunk>, hi: nat, i: nat)
    requires ListOk(l, cs, hi) && i < |cs|
    ensures var m := Merged(l, cs, i);
      && m.addr == cs[MergeFrom(cs, i)].addr && m.End(l) == AddrAt(cs, MergeTo(cs, i) + 1, hi)
      && l.heapStart <= m.addr && m.End(l) <= hi
  {
    hide NoTwoFree;
    MergedOk(l, cs, hi, i);
    TilesBounds(l, cs, l.heapStart, hi, MergeFrom(cs, i));
    TilesBounds(l, cs, l.heapStart, hi, MergeTo(cs, i));
    assert [Merged(l, cs, i)][1..] == [];
  }

  // ----- the page supply

  /** The pages of the heap are mapped, and so is the last page below the self-map, which is above them. */
  ghost predicate InPlace(s: Space, lo: nat, hi: nat) {
    && hi % PAGE == 0 && hi / PAGE < SPAN && (SPAN - 1) in s.maps
    && forall v :: lo / PAGE <= v < hi / PAGE ==> v in s.maps
  }

  lemma InPlaceEnd(s: Space, lo: nat, hi: nat)
    requires InPlace(s, lo, hi)
    ensures hi < SPAN * PAGE < TWO_32 && hi / PAGE < SPAN && hi / PAGE * PAGE == hi
  {
  }

  lemma StaysInPlace(s: Space, lo: nat, hi: nat, phys: nat)
    requires InPlace(s, lo, hi) && !Refused(s, hi / PAGE)
    ensures InPlace(Mapped(s, hi / PAGE, phys), lo, hi + PAGE)
  {
    NextPageIs(hi, 1);
  }

  lemma NextPageIs(hi: nat, k: nat)
    requires hi % PAGE == 0
    ensures (hi + k * PAGE) / PAGE == hi / PAGE + k && (hi + k * PAGE) % PAGE == 0
  {
  }

  lemma PagesOn(hi: nat, k: nat)
    ensures (hi + k * PAGE) / PAGE == hi / PAGE + k
  {
  }

  lemma PoolSteps(p: Pool)
    ensures p.free != [] ==> PoolStep(p, Take).free == p.free[1..]
    ensures p.free == [] ==> PoolStep(p, Take) == p
  {
  }

  // ----- the search

  ghost predicate NoFitBelow(cs: seq<Chunk>, n: nat, j: nat) {
    j <= |cs| && forall k :: 0 <= k < j ==> !Fits(cs[k], n)
  }

  ghost predicate BestBelow(cs: seq<Chunk>, n: nat, j: nat, best: nat) {
    && best < j <= |cs| && Fits(cs[best], n)
    && (forall k :: 0 <= k < j && Fits(cs[k], n) ==> cs[best].size <= cs[k].size)
    && (forall k :: 0 <= k < best && Fits(cs[k], n) ==> cs[best].size < cs[k].size)
  }

  /**
   * Lost is where the code goes on outside this model: the size computation has wrapped, a copy would run
   * over its block, or physical page 0 would become a page table.
   */
  datatype MallocResult = Null | Block(ptr: nat) | Panic | Lost

  /** The size with its markers wraps at 2^32, although the size itself does not. */
  predicate Wraps(l: Layout, size: nat)
    requires l.align > 0
  {
    AlignedSize(size, l.align) < TWO_32 <= AlignedSize(size, l.align) + l.Overhead()
  }

  /** aligned_size in 32 bits. */
  function Padded(l: Layout, size: nat): nat
    requires l.align > 0
  {
    ToU32(AlignedSize(size, l.align))
  }

  lemma StartMarker(l: Layout, mem: seq<byte>, c: Chunk)
    requires Tagged(l, mem, c)
    ensures c.addr - l.heapStart + 8 <= |mem| && c.addr < c.End(l)
    ensures (mem[c.addr - l.heapStart] != 0) == c.free && Word(mem, c.addr - l.heapStart + 4) == c.size
  {
    hide Word;
  }

  /** 32-bit padding is exact for sizes up to 2^32 less the alignment, and 0 above. */
  lemma PaddedFacts(l: Layout, size: uint32)
    requires l.Ok()
    ensures Padded(l, size) == ToU32(AlignedSize(size, l.align)) < TWO_32 && Padded(l, size) % l.align == 0
    ensures size <= TWO_32 - l.align ==> Padded(l, size) == AlignedSize(size, l.align) >= size
    ensures size > TWO_32 - l.align ==> Padded(l, size) == 0 && AlignedSize(size, l.align) >= TWO_32
    ensures Wraps(l, size) <==> Padded(l, size) + l.Overhead() >= TWO_32
  {
    AlignDivides(l);
    AlignedSizeLeast(size, l.align);
    AlignedSizeWraps(size, l.align);
  }

  lemma LiveMeans(l: Layout, cs: seq<Chunk>, ptr: nat, i: int)
    ensures LiveAt(l, cs, ptr, i) <==> 0 <= i < |cs| && !cs[i].free && ptr == cs[i].addr + l.startSize
  {
  }

  lemma OverheadIs(l: Layout)
    ensures l.Overhead() == l.startSize + l.endSize
  {
  }

  lemma AlignWithinPage(l: Layout)
    requires l.Ok()
    ensures l.align <= PAGE
  {
  }

  lemma AlignDivides(l: Layout)
    requires l.Ok()
    ensures TWO_32 % l.align == 0
  {
    PagesAligned(l, 0, 0x10_0000);
  }

  lemma NoSizeWraps(l: Layout)
    requires l.Ok()
    ensures !Wraps(l, 0)
  {
    AlignedSizeLeast(0, l.align);
  }

  /** What a choice makes of the page supply. */
  function Outcome(p: Supply, hi: nat, c: Choice): Growth {
    match c
    case Fit(_) => Grown(p)
    case Grow(k) => GrowBy(p, hi / PAGE, k)
  }

  predicate Panics(g: Growth) { g.NoPage? || g.NoMap? }

  lemma Outcomes(g: Growth)
    ensures Panics(g) <==> !g.Grown? && !g.NoTable?
  {
  }

  lemma OutcomeIs(p: Supply, hi: nat, c: Choice)
    ensures c.Fit? ==> Outcome(p, hi, c) == Grown(p) && GrownEnd(hi, c) == hi
    ensures c.Grow? ==> Outcome(p, hi, c) == GrowBy(p, hi / PAGE, c.pages) && GrownEnd(hi, c) == hi + c.pages * PAGE
  {
  }

  class Heap {
    const l: Layout
    var mem: seq<byte>
    var heapEnd: nat
    const pages: PageAllocator
    ghost var chunks: seq<Chunk>

    ghost predicate Valid()
      reads this
    {
      WellTagged(l, mem, chunks) && heapEnd == l.heapStart + |mem| && heapEnd <= SPAN * PAGE
    }

    method MarkChunk(insertionPoint: nat, useableSize: nat, isFree: bool)
      requires l.Ok() && l.heapStart <= insertionPoint && useableSize < TWO_32
      requires Chunk(insertionPoint, useableSize, isFree).End(l) <= l.heapStart + |mem|
      modifies this`mem
      ensures mem == Marked(l, old(mem), Chunk(insertionPoint, useableSize, isFree))
    {
      hide PutWord, Word;
      var start := insertionPoint - l.heapStart;
      mem := mem[start := if isFree then 1 else 0];
      mem := PutWord(mem, start + 4, useableSize);
      var end := start + useableSize + l.startSize;
      mem := PutWord(mem, end, useableSize);
      mem := PutWord(mem, end + 4, CANARY);
    }

    lemma ChunkTags(j: nat)
      requires Valid() && j < |chunks|
      ensures Tagged(l, mem, chunks[j]) && l.heapStart <= chunks[j].addr && chunks[j].addr > 0
      ensures AddrAt(chunks, j + 1, heapEnd) == chunks[j].End(l) <= heapEnd && chunks[j].size < TWO_32
    {
      TilesBounds(l, chunks, l.heapStart, heapEnd, j);
    }

    /** The scan of malloc: best fit with early exit on an exact fit. */
    method FindBest(n: nat) returns (bestPtr: nat, bestSize: nat, lastMarker: nat, ghost best: nat)
      requires Valid()
      ensures bestPtr == 0 ==> NoFit(chunks, n)
      ensures bestPtr == 0 ==> lastMarker == if chunks == [] then 0 else chunks[|chunks| - 1].addr
      ensures bestPtr != 0 ==> IsBestFit(chunks, n, best)
      ensures bestPtr != 0 ==> bestPtr == chunks[best].addr && bestSize == chunks[best].size
    {
      hide Tiles, Word, Valid, AddrAt;
      bestPtr, bestSize, lastMarker, best := 0, 0, 0, 0;
      var ptr := l.heapStart;
      ghost var j := 0;
      ScanStart();
      while ptr < heapEnd
        invariant j <= |chunks| && ptr == AddrAt(chunks, j, heapEnd) && (ptr < heapEnd <==> j < |chunks|)
        invariant lastMarker == if j == 0 then 0 else chunks[j - 1].addr
        invariant bestPtr == 0 ==> NoFitBelow(chunks, n, j)
        invariant bestPtr != 0 ==> BestBelow(chunks, n, j, best)
        invariant bestPtr != 0 ==> bestPtr == chunks[best].addr && bestSize == chunks[best].size
        decreases |chunks| - j
      {
        ScanStep(j);
        lastMarker := ptr;
        var free, size := mem[ptr - l.heapStart] != 0, Word(mem, ptr - l.heapStart + 4);
        if free && size >= n && (bestPtr == 0 || size < bestSize) {
          bestPtr := ptr;
          bestSize := size;
          best := j;
          if size == n {
            break;
          }
        }
        ptr := ptr + size + l.startSize + l.endSize;
        j := j + 1;
      }
    }

    lemma ScanStart()
      requires Valid()
      ensures l.heapStart == AddrAt(chunks, 0, heapEnd) && (l.heapStart < heapEnd <==> chunks != [])
    {
      TilesRange(l, chunks, l.heapStart, heapEnd);
      if chunks != [] {
        ChunkTags(0);
      }
    }

    /** What the scan reads at the j-th chunk, and where it goes next. */
    lemma ScanStep(j: nat)
      requires Valid() && j < |chunks|
      ensures l.heapStart <= AddrAt(chunks, j, heapEnd) == chunks[j].addr && chunks[j].addr > 0
      ensures chunks[j].addr - l.heapStart + 8 <= |mem|
      ensures (mem[chunks[j].addr - l.heapStart] != 0) == chunks[j].free
      ensures Word(mem, chunks[j].addr - l.heapStart + 4) == chunks[j].size
      ensures AddrAt(chunks, j + 1, heapEnd) == chunks[j].addr + chunks[j].size + l.startSize + l.endSize
      ensures AddrAt(chunks, j + 1, heapEnd) < heapEnd <==> j + 1 < |chunks|
    {
      hide Valid, Tagged, Word;
      ChunkTags(j);
      StartMarker(l, mem, chunks[j]);
      if j + 1 < |chunks| {
        ChunkTags(j + 1);
        StartMarker(l, mem, chunks[j + 1]);
      }
      Bounds();
    }

    /** malloc when a best fit exists. */
    method UseFit(n: nat, bestPtr: nat, bestSize: nat, ghost best: nat) returns (ptr: nat)
      requires Valid() && IsBestFit(chunks, n, best) && n % l.align == 0
      requires bestPtr == chunks[best].addr && bestSize == chunks[best].size
      modifies this`mem, this`chunks
      ensures Valid() && chunks == Carve(l, old(chunks), best, n)
      ensures |mem| == |old(mem)| && LiveKept(l, old(mem), old(chunks), mem, chunks, {})
      ensures ptr == old(chunks)[best].addr + l.startSize
    {
      hide Valid, WellTagged, LiveKept, IsBestFit, Fits, Carve, Marked, Layout.Ok;
      FitBounds(best, n);
      var useableSize := n;
      if bestSize > useableSize + l.startSize + l.endSize {
        var freeChunckInsertionPoint := bestPtr + useableSize + l.startSize + l.endSize;
        var freeChunckSize := bestSize - useableSize - l.startSize - l.endSize;
        MarkChunk(freeChunckInsertionPoint, freeChunckSize, true);
      } else {
        useableSize := bestSize;
      }
      MarkChunk(bestPtr, useableSize, false);
      assert mem == PiecesMarked(l, old(mem), chunks[best], n);
      FitInstalled(l, old(mem), chunks, best, n);
      chunks := Carve(l, chunks, best, n);
      Reestablish();
      ptr := bestPtr + l.startSize;
    }

    lemma FitBounds(best: nat, n: nat)
      requires Valid() && IsBestFit(chunks, n, best)
      ensures l.Ok() && WellTagged(l, mem, chunks) && best < |chunks| && Fits(chunks[best], n) && chunks[best].size >= n
      ensures l.heapStart <= chunks[best].addr && chunks[best].End(l) <= l.heapStart + |mem| && chunks[best].size < TWO_32
      ensures heapEnd == l.heapStart + |mem| && heapEnd <= SPAN * PAGE < TWO_32 && n + l.Overhead() < TWO_32
    {
      ChunkTags(best);
    }

    lemma Reestablish()
      requires WellTagged(l, mem, chunks) && heapEnd == l.heapStart + |mem| && heapEnd <= SPAN * PAGE
      ensures Valid()
    {
    }

    /**
     * What malloc relies on to grow: a sound page allocator, the heap mapped, and the bootstrap stack mapped
     * above it, at the last page below the self-map.
     */
    ghost predicate Supplied()
      reads this`heapEnd, pages
    {
      pages.Valid() && InPlace(SpaceOf(pages.ram, pages.dir), l.heapStart, heapEnd)
    }

    ghost function SupplyOf(): Supply
      reads pages
    {
      Supply(SpaceOf(pages.ram, pages.dir), pages.free)
    }

    /** One round of the growth loop. */
    method AddPage() returns (g: MallocResult)
      requires Supplied() && l.heapStart > 0 && l.heapStart <= heapEnd == l.heapStart + |mem|
      modifies this`mem, this`heapEnd, pages
      ensures var o := GrowOne(old(SupplyOf()), old(heapEnd) / PAGE);
        && (g.Panic? <==> Panics(o)) && (g.Lost? <==> o.NoTable?) && (g.Block? <==> o.Grown?) && g != Null
        && (o.Grown? ==> Supplied() && SupplyOf() == o.supply)
      ensures g.Block? ==> mem == old(mem) + seq(PAGE, i => 0) && heapEnd == old(heapEnd) + PAGE
      ensures !g.Block? ==> mem == old(mem) && heapEnd == old(heapEnd)
    {
      hide SpaceOf, Shared, Refused, Mapped, PageAllocator.Valid;
      InPlaceEnd(SpaceOf(pages.ram, pages.dir), l.heapStart, heapEnd);
      PoolSteps(pages.PoolOf());
      var newPage := pages.AllocPhysicalPage(true);
      if newPage == 0 {
        return Panic;
      }
      pages.LacksIff(heapEnd);
      if pages.Lacks(heapEnd) {
        return Lost;
      }
      PoolSteps(pages.PoolOf());
      var r := pages.MapPage(newPage, heapEnd);
      if r != 0 {
        return Panic;
      }
      StaysInPlace(old(SpaceOf(pages.ram, pages.dir)), l.heapStart, heapEnd, newPage);
      mem := mem + seq(PAGE, i => 0);
      heapEnd := heapEnd + PAGE;
      g := Block(newPage);
    }

    /** The growth loop of malloc: page by page until the free end is large enough. */
    method ExtendHeap(free: nat, need: nat) returns (r: MallocResult, freeSize: nat, ghost k: nat)
      requires Supplied() && l.heapStart > 0 && heapEnd == l.heapStart + |mem| && free < need
      modifies this`mem, this`heapEnd, pages
      ensures freeSize == free + k * PAGE && (k > 0 ==> free + (k - 1) * PAGE < need)
      ensures r.Block? <==> freeSize >= need
      ensures r.Block? ==> Supplied() && GrowBy(old(SupplyOf()), old(heapEnd) / PAGE, k) == Grown(SupplyOf())
      ensures !r.Block? ==> var g := GrowBy(old(SupplyOf()), old(heapEnd) / PAGE, k + 1);
        (r.Panic? <==> Panics(g)) && (r.Lost? <==> g.NoTable?) && !g.Grown? && r != Null
      ensures old(mem) <= mem && |mem| == |old(mem)| + k * PAGE && heapEnd == l.heapStart + |mem|
    {
      hide GrowOne, GrowBy, Supplied, SupplyOf;
      freeSize, k, r := free, 0, Block(0);
      ghost var p, v := SupplyOf(), heapEnd / PAGE;
      GrowNot(p, v);
      while freeSize < need
        invariant freeSize == free + k * PAGE && (k > 0 ==> free + (k - 1) * PAGE < need)
        invariant Supplied() && GrowBy(p, v, k) == Grown(SupplyOf())
        invariant old(mem) <= mem && |mem| == |old(mem)| + k * PAGE && heapEnd == l.heapStart + |mem| && r.Block?
        decreases need - freeSize
      {
        PagesOn(old(heapEnd), k);
        GrowNext(p, v, k);
        r := AddPage();
        if !r.Block? {
          return;
        }
        freeSize := freeSize + PAGE;
        k := k + 1;
      }
    }

    /** malloc when nothing fits. */
    method GrowAndUse(n: nat, lastMarker: nat) returns (r: MallocResult, ghost k: nat)
      requires Valid() && Supplied() && NoFit(chunks, n) && n % l.align == 0 && n + l.Overhead() < TWO_32
      requires lastMarker == if chunks == [] then 0 else chunks[|chunks| - 1].addr
      modifies this, pages
      ensures r != Null && ChoiceOk(l, old(chunks), n, Grow(k))
      ensures var g := GrowBy(old(SupplyOf()), old(heapEnd) / PAGE, k);
        && (r.Panic? <==> Panics(g)) && (r.Lost? <==> g.NoTable?)
        && (r.Block? ==> g == Grown(SupplyOf()))
      ensures r.Block? ==> Valid() && Supplied()
      ensures r.Block? ==> chunks == Allocated(l, old(chunks), old(heapEnd), n, Grow(k)) && heapEnd == old(heapEnd) + k * PAGE
      ensures r.Block? ==> LiveKept(l, old(mem), old(chunks), mem, chunks, {})
      ensures r.Block? ==> r.ptr == GrownChunk(l, old(chunks), old(heapEnd), k).addr + l.startSize
    {
      hide Valid, Supplied, SupplyOf, WellTagged, LiveKept, NoFit, Word, PiecesMarked, Pieces, GrowBy;
      GrowFacts(n);
      var insertionPoint, free := heapEnd, 0;
      if lastMarker != 0 && mem[lastMarker - l.heapStart] != 0 {
        insertionPoint := lastMarker;
        free := Word(mem, lastMarker - l.heapStart + 4) + l.startSize + l.endSize;
      }
      assert free == Tail(l, chunks);
      var freeSize;
      r, freeSize, k := ExtendHeap(free, n + l.startSize + l.endSize);
      if !r.Block? {
        ghost var failed := k + 1;
        k := LeastPagesExist(l, chunks, n, k);
        GrowFails(old(SupplyOf()), old(heapEnd) / PAGE, failed, k);
        return;
      }
      SuppliedEnd();
      GrowInstalled(l, old(mem), mem, chunks, n, k);
      CarveEnd(insertionPoint, freeSize, n, GrownChunk(l, chunks, old(heapEnd), k));
      chunks := Allocated(l, chunks, old(heapEnd), n, Grow(k));
      Reestablish();
      r := Block(insertionPoint + l.startSize);
    }

    lemma SuppliedEnd()
      requires Supplied() && l.heapStart > 0
      ensures heapEnd < SPAN * PAGE
    {
      hide SpaceOf, PageAllocator.Valid;
      InPlaceEnd(SpaceOf(pages.ram, pages.dir), l.heapStart, heapEnd);
    }

    /** The last lines of malloc: split the grown end, or use all of it. */
    method CarveEnd(insertionPoint: nat, freeSize: nat, n: nat, ghost g: Chunk)
      requires l.Ok() && insertionPoint == g.addr && freeSize == g.size + l.startSize + l.endSize
      requires l.heapStart <= g.addr && g.End(l) <= l.heapStart + |mem| && n <= g.size < TWO_32
      modifies this`mem
      ensures mem == PiecesMarked(l, old(mem), g, n)
    {
      hide Marked, Layout.Ok;
      var useableSize := n;
      if freeSize > useableSize + 2 * l.startSize + 2 * l.endSize {
        var freeChunckInsertionPoint := insertionPoint + useableSize + l.startSize + l.endSize;
        var freeChunckSize := freeSize - useableSize - 2 * l.startSize - 2 * l.endSize;
        MarkChunk(freeChunckInsertionPoint, freeChunckSize, true);
      } else {
        useableSize := freeSize - l.startSize - l.endSize;
      }
      MarkChunk(insertionPoint, useableSize, false);
    }

    lemma GrowFacts(n: nat)
      requires Valid() && NoFit(chunks, n)
      ensures l.Ok() && WellTagged(l, mem, chunks) && Tail(l, chunks) < n + l.Overhead()
      ensures heapEnd == l.heapStart + |mem| && heapEnd <= SPAN * PAGE
      ensures chunks != [] ==> var c := chunks[|chunks| - 1];
        && c.addr > 0 && l.heapStart <= c.addr && c.addr + 8 <= l.heapStart + |mem|
        && (mem[c.addr - l.heapStart] != 0) == c.free && Word(mem, c.addr - l.heapStart + 4) == c.size
    {
      if chunks != [] {
        assert !Fits(chunks[|chunks| - 1], n);
        ChunkTags(|chunks| - 1);
      }
    }

    /** malloc, for every 32-bit size. */
    method Malloc(size: uint32) returns (r: MallocResult, ghost choice: Choice)
      requires Valid() && Supplied()
      modifies this, pages
      ensures r == Null <==> size == 0
      ensures size == 0 ==> Valid() && Supplied() && mem == old(mem) && chunks == old(chunks) && SupplyOf() == old(SupplyOf())
      ensures size > 0 && !Wraps(l, size) ==> ChoiceOk(l, old(chunks), Padded(l, size), choice)
      ensures r.Panic? <==> size > 0 && !Wraps(l, size) && Panics(Outcome(old(SupplyOf()), old(heapEnd), choice))
      ensures r.Lost? <==> size > 0 && (Wraps(l, size) || Outcome(old(SupplyOf()), old(heapEnd), choice).NoTable?)
      ensures r.Block? ==> Valid() && Supplied() && Outcome(old(SupplyOf()), old(heapEnd), choice) == Grown(SupplyOf())
      ensures r.Block? ==> heapEnd == GrownEnd(old(heapEnd), choice)
      ensures r.Block? ==> chunks == Allocated(l, old(chunks), old(heapEnd), Padded(l, size), choice)
      ensures r.Block? ==> LiveKept(l, old(mem), old(chunks), mem, chunks, {})
      ensures r.Block? ==> var i := BlockIndex(l, old(chunks), choice);
        i < |chunks| && LiveAt(l, chunks, r.ptr, i) && r.ptr % l.align == 0 && (chunks[i].size >= size <==> size <= TWO_32 - l.align)
      ensures r.Block? ==> var i := BlockIndex(l, old(chunks), choice);
        r.ptr == chunks[i].addr + l.startSize && !chunks[i].free
    {
      hide *;
      LayoutOk();
      if size == 0 {
        NoSizeWraps(l);
        return Null, Fit(0);
      }
      PaddedFacts(l, size);
      var useableSize := ToU32(AlignedSize(size, l.align));
      r, choice := Obtain(useableSize);
      if r.Block? {
        LiveMeans(l, chunks, r.ptr, BlockIndex(l, old(chunks), choice));
        BlockSize(BlockIndex(l, old(chunks), choice), size);
      }
    }

    /** malloc on a padded size. */
    method Obtain(n: nat) returns (r: MallocResult, ghost choice: Choice)
      requires Valid() && Supplied() && n < TWO_32 && n % l.align == 0
      modifies this, pages
      ensures r != Null && (n + l.Overhead() < TWO_32 ==> ChoiceOk(l, old(chunks), n, choice))
      ensures r.Panic? <==> n + l.Overhead() < TWO_32 && Panics(Outcome(old(SupplyOf()), old(heapEnd), choice))
      ensures r.Lost? <==> n + l.Overhead() >= TWO_32 || Outcome(old(SupplyOf()), old(heapEnd), choice).NoTable?
      ensures r.Block? ==> Valid() && Supplied() && Outcome(old(SupplyOf()), old(heapEnd), choice) == Grown(SupplyOf())
      ensures r.Block? ==> heapEnd == GrownEnd(old(heapEnd), choice)
      ensures r.Block? ==> chunks == Allocated(l, old(chunks), old(heapEnd), n, choice)
      ensures r.Block? ==> LiveKept(l, old(mem), old(chunks), mem, chunks, {})
      ensures r.Block? ==> var i := BlockIndex(l, old(chunks), choice);
        i < |chunks| && LiveAt(l, chunks, r.ptr, i) && chunks[i].size >= n && r.ptr % l.align == 0
    {
      hide *;
      ghost var p, cs, hi := SupplyOf(), chunks, heapEnd;
      LayoutOk();
      OverheadIs(l);
      var bestPtr, bestSize, lastMarker, best := FindBest(n);
      if bestPtr != 0 {
        FitBounds(best, n);
        FitChoice(l, cs, hi, n, best);
        OutcomeIs(p, hi, Fit(best));
        var ptr := UseFit(n, bestPtr, bestSize, best);
        r, choice := Block(ptr), Fit(best);
      } else if n + l.startSize + l.endSize >= TWO_32 {
        return Lost, Fit(0);
      } else {
        ghost var k;
        r, k := GrowAndUse(n, lastMarker);
        choice := Grow(k);
        OutcomeIs(p, hi, choice);
      }
      Outcomes(Outcome(p, hi, choice));
      if r.Block? {
        NewBlock(l, cs, hi, n, choice);
      }
    }

    /** A block is large enough for the request unless the padding wrapped. */
    lemma BlockSize(i: nat, size: uint32)
      requires Valid() && i < |chunks| && chunks[i].size >= Padded(l, size)
      ensures chunks[i].size >= size <==> size <= TWO_32 - l.align
    {
      ChunkTags(i);
      PaddedFacts(l, size);
      AlignWithinPage(l);
    }

    lemma LayoutOk()
      requires Valid()
      ensures l.Ok() && ListOk(l, chunks, heapEnd)
    {
    }

    /** Everything free reads about the i-th chunk and its neighbours. */
    lemma Neighbours(i: nat)
      requires Valid() && i < |chunks|
      ensures l.Ok() && heapEnd == l.heapStart + |mem| < TWO_32
      ensures l.heapStart <= chunks[i].addr && chunks[i].End(l) <= heapEnd && Tagged(l, mem, chunks[i])
      ensures chunks[i].End(l) < heapEnd <==> i + 1 < |chunks|
      ensures i + 1 < |chunks| ==> chunks[i + 1].addr == chunks[i].End(l)
      ensures i + 1 < |chunks| ==> chunks[i + 1].End(l) <= heapEnd && Tagged(l, mem, chunks[i + 1])
      ensures chunks[i].addr - l.endSize > l.heapStart <==> i > 0
      ensures i > 0 ==> chunks[i - 1].End(l) == chunks[i].addr && l.heapStart <= chunks[i - 1].addr
      ensures i > 0 ==> Tagged(l, mem, chunks[i - 1])
    {
      hide Tagged, NoTwoFree;
      LayoutOk();
      ChunkTags(i);
      TilesRange(l, chunks, l.heapStart, heapEnd);
      if i + 1 < |chunks| {
        ChunkTags(i + 1);
      }
      if i > 0 {
        ChunkTags(i - 1);
      }
    }

    /** free sets the flag of the chunk. */
    method SetFree(start: nat, ghost c: Chunk)
      requires l.Ok() && Tagged(l, mem, c) && start == c.addr
      modifies this`mem
      ensures Tagged(l, mem, c.(free := true)) && |mem| == |old(mem)|
      ensures SameOutside(l, old(mem), mem, c.addr, c.End(l))
    {
      var o := start - l.heapStart;
      mem := mem[o := 1];
      WordKept(old(mem), mem, o + 4);
      WordKept(old(mem), mem, o + l.startSize + c.size);
      WordKept(old(mem), mem, o + l.startSize + c.size + 4);
    }

    /** Re-marks the chunk at `at` so that it spans up to the end of a neighbour. */
    method Span(at: nat, size: nat, ghost lo: nat, ghost hi: nat, ghost m0: seq<byte>)
      requires l.Ok() && l.heapStart <= at && size < TWO_32 && Chunk(at, size, true).End(l) <= l.heapStart + |mem|
      requires SameOutside(l, m0, mem, lo, hi) && at <= lo && hi <= Chunk(at, size, true).End(l)
      modifies this`mem
      ensures |mem| == |old(mem)| && Tagged(l, mem, Chunk(at, size, true))
      ensures SameOutside(l, m0, mem, at, Chunk(at, size, true).End(l))
    {
      hide Tagged, SameOutside, Marked;
      MarkChunk(at, size, true);
      ghost var c := Chunk(at, size, true);
      MarkedTagged(l, old(mem), c);
      SameTrans(l, m0, old(mem), mem, lo, hi, c.addr, c.End(l));
    }

    /** Merges the freed chunk with the one behind it, if that is free. */
    method MergeBehind(ptr: nat, ghost i: nat, ghost m0: seq<byte>)
      requires l.Ok() && i < |chunks| && ptr == chunks[i].addr + l.startSize && heapEnd == l.heapStart + |mem| < TWO_32
      requires Tagged(l, mem, chunks[i].(free := true)) && chunks[i].End(l) <= heapEnd
      requires chunks[i].End(l) < heapEnd <==> i + 1 < |chunks|
      requires i + 1 < |chunks| ==> chunks[i + 1].addr == chunks[i].End(l) && Tagged(l, mem, chunks[i + 1])
      requires SameOutside(l, m0, mem, chunks[i].addr, chunks[i].End(l))
      modifies this`mem
      ensures |mem| == |old(mem)| && Tagged(l, mem, MergedAfter(l, chunks, i))
      ensures SameOutside(l, m0, mem, chunks[i].addr, MergedAfter(l, chunks, i).End(l))
    {
      hide Word, SameOutside;
      var start := ptr - l.startSize;
      var size := Word(mem, start - l.heapStart + 4);
      var startAfter := ptr + size + l.endSize;
      if startAfter < heapEnd && mem[startAfter - l.heapStart] != 0 {
        var sizeAfter := Word(mem, startAfter - l.heapStart + 4);
        Span(start, size + sizeAfter + l.startSize + l.endSize, chunks[i].addr, chunks[i].End(l), m0);
      }
    }

    /** Merges the freed chunk with the one in front of it, if that is free; the end tag leads there. */
    method MergeInFront(ptr: nat, ghost i: nat, ghost m0: seq<byte>)
      requires l.Ok() && i < |chunks| && ptr == chunks[i].addr + l.startSize && heapEnd == l.heapStart + |mem| < TWO_32
      requires Tagged(l, mem, MergedAfter(l, chunks, i)) && chunks[i].addr >= l.heapStart
      requires chunks[i].addr - l.endSize > l.heapStart <==> i > 0
      requires i > 0 ==> chunks[i - 1].End(l) == chunks[i].addr && Tagged(l, mem, chunks[i - 1])
      requires SameOutside(l, m0, mem, chunks[i].addr, MergedAfter(l, chunks, i).End(l))
      modifies this`mem
      ensures |mem| == |old(mem)| && Tagged(l, mem, Merged(l, chunks, i))
      ensures SameOutside(l, m0, mem, Merged(l, chunks, i).addr, Merged(l, chunks, i).End(l))
    {
      hide Word, SameOutside;
      var start := ptr - l.startSize;
      var endBefore := ptr - l.startSize - l.endSize;
      if endBefore > l.heapStart {
        var e := endBefore - l.heapStart;
        if Word(mem, e + 4) != CANARY {
          assert false;  // the "Dead heap canary" panic is unreachable
        }
        var startBefore := endBefore - Word(mem, e) - l.startSize;
        if mem[startBefore - l.heapStart] != 0 {
          var size := Word(mem, start - l.heapStart + 4) + Word(mem, startBefore - l.heapStart + 4) + l.startSize + l.endSize;
          Span(startBefore, size, chunks[i].addr, MergedAfter(l, chunks, i).End(l), m0);
        }
      }
    }

    /** free on a live block: the dead-canary panics cannot happen. */
    method FreeLive(ptr: nat, ghost i: nat)
      requires Valid() && LiveAt(l, chunks, ptr, i)
      modifies this`mem, this`chunks
      ensures Valid() && chunks == Released(l, old(chunks), i) && |mem| == |old(mem)|
      ensures LiveKept(l, old(mem), old(chunks), mem, chunks, {ptr - l.startSize})
    {
      hide Valid, WellTagged, LiveKept, SameOutside, Merged, MergedAfter, Released, Payload, Word;
      Neighbours(i);
      Bounds();
      var start := ptr - l.startSize;
      var size := Word(mem, start - l.heapStart + 4);
      if Word(mem, ptr + size - l.heapStart + 4) != CANARY {
        assert false;  // the "Dead heap canary" panic is unreachable
      }
      SetFree(start, chunks[i]);
      KeepNeighbours(old(mem), i, chunks[i].End(l));
      MergeBehind(ptr, i, old(mem));
      KeepNeighbours(old(mem), i, MergedAfter(l, chunks, i).End(l));
      MergeInFront(ptr, i, old(mem));
      FreeInstalled(l, old(mem), mem, chunks, i);
      chunks := Released(l, chunks, i);
      Reestablish();
    }

    lemma Bounds()
      requires Valid()
      ensures WellTagged(l, mem, chunks) && heapEnd == l.heapStart + |mem| && heapEnd <= SPAN * PAGE
    {
    }

    /** Writes between the start of the i-th chunk and hi leave the neighbours outside that range tagged. */
    lemma KeepNeighbours(m0: seq<byte>, i: nat, hi: nat)
      requires i < |chunks| && SameOutside(l, m0, mem, chunks[i].addr, hi)
      ensures i > 0 && chunks[i - 1].End(l) == chunks[i].addr && Tagged(l, m0, chunks[i - 1]) ==> Tagged(l, mem, chunks[i - 1])
      ensures i + 1 < |chunks| && chunks[i + 1].addr >= hi && Tagged(l, m0, chunks[i + 1]) ==> Tagged(l, mem, chunks[i + 1])
    {
      hide Tagged, SameOutside;
      if i > 0 && chunks[i - 1].End(l) == chunks[i].addr && Tagged(l, m0, chunks[i - 1]) {
        TaggedKept(l, m0, mem, chunks[i - 1], chunks[i].addr, hi);
      }
      if i + 1 < |chunks| && chunks[i + 1].addr >= hi && Tagged(l, m0, chunks[i + 1]) {
        TaggedKept(l, m0, mem, chunks[i + 1], chunks[i].addr, hi);
      }
    }

    method Free(ptr: nat)
      requires Valid() && (ptr == 0 || exists i :: LiveAt(l, chunks, ptr, i))
      modifies this`mem, this`chunks
      ensures Valid() && (ptr == 0 ==> mem == old(mem) && chunks == old(chunks))
      ensures ptr != 0 ==> forall i :: LiveAt(l, old(chunks), ptr, i) ==> chunks == Released(l, old(chunks), i)
      ensures ptr != 0 ==> LiveKept(l, old(mem), old(chunks), mem, chunks, {ptr - l.startSize})
    {
      if ptr == 0 {
        return;
      }
      hide Valid, LiveKept, Released;
      ghost var i :| LiveAt(l, chunks, ptr, i);
      LiveUnique(ptr, i);
      FreeLive(ptr, i);
    }

    lemma LiveUnique(ptr: nat, i: int)
      requires Valid() && LiveAt(l, chunks, ptr, i)
      ensures 0 <= i < |chunks|
      ensures forall j :: LiveAt(l, chunks, ptr, j) ==> j == i
      ensures ptr >= l.startSize
    {
      forall j | LiveAt(l, chunks, ptr, j) ensures j == i {
        if j != i {
          Separate(l, chunks, heapEnd, i, j);
        }
      }
    }

    /** A user writing one byte of a live block. */
    method Store(ptr: nat, offset: nat, value: byte, ghost k: nat)
      requires Valid() && LiveAt(l, chunks, ptr, k) && offset < chunks[k].size
      modifies this`mem
      ensures Valid() && LiveKept(l, old(mem), chunks, mem, chunks, {chunks[k].addr})
      ensures AllTagged(l, old(mem), chunks) && AllTagged(l, mem, chunks)
      ensures Payload(l, mem, chunks[k]) == Payload(l, old(mem), chunks[k])[offset := value]
    {
      hide Valid, WellTagged, LiveKept, Word, AllTagged;
      Bounds();
      ChunkTags(k);
      mem := mem[ptr + offset - l.heapStart := value];
      PayloadWritten(l, old(mem), mem, chunks, k);
      Reestablish();
      KeptTagged(l, old(mem), chunks, mem, chunks, {chunks[k].addr});
    }

    /** An empty heap, to be grown by the first request. */
    constructor (layout: Layout, pages: PageAllocator)
      requires layout.Ok() && pages.Valid() && InPlace(SpaceOf(pages.ram, pages.dir), layout.heapStart, layout.heapStart)
      ensures Valid() && Supplied() && chunks == [] && l == layout && this.pages == pages && heapEnd == layout.heapStart
    {
      hide SpaceOf, PageAllocator.Valid, InPlace;
      l, this.pages := layout, pages;
      mem, heapEnd, chunks := [], layout.heapStart, [];
      new;
      InPlaceEnd(SpaceOf(pages.ram, pages.dir), l.heapStart, l.heapStart);
    }

    /** memcpy, byte by byte. */
    method Memcpy(dest: nat, src: nat, length: nat)
      requires l.heapStart <= dest && dest + length <= l.heapStart + |mem|
      requires l.heapStart <= src && src + length <= l.heapStart + |mem|
      requires dest + length <= src || src + length <= dest
      modifies this`mem
      ensures mem == Copied(l, old(mem), dest, src, length)
    {
      hide Copied;
      CopyStart(l, mem, dest, src);
      var d, s := dest - l.heapStart, src - l.heapStart;
      for x := 0 to length
        invariant mem == Copied(l, old(mem), dest, src, x)
      {
        CopyStep(l, old(mem), dest, src, x);
        mem := mem[d + x := mem[s + x]];
      }
    }

    /** The end of realloc: copy what fits, then free the old block. */
    method MoveBlock(dest: nat, ptr: nat, size: nat, ghost k: nat, ghost j: nat) returns (ghost x: nat)
      requires Valid() && LiveAt(l, chunks, dest, k) && LiveAt(l, chunks, ptr, j) && k != j
      requires Least(size, chunks[j].size) <= chunks[k].size
      modifies this`mem, this`chunks
      ensures Valid() && chunks == Released(l, old(chunks), j)
      ensures LiveAt(l, chunks, dest, x) && chunks[x] == old(chunks)[k]
      ensures Bytes(l, mem, dest, Least(size, old(chunks)[j].size)) == Bytes(l, old(mem), ptr, Least(size, old(chunks)[j].size))
      ensures |Bytes(l, mem, dest, Least(size, old(chunks)[j].size))| == Least(size, old(chunks)[j].size)
      ensures LiveKept(l, old(mem), old(chunks), mem, chunks, {dest - l.startSize, ptr - l.startSize})
    {
      hide *;
      MoveFacts(dest, ptr, k, j);
      var initSize := Word(mem, ptr - l.startSize - l.heapStart + 4);
      var length := if size < initSize then size else initSize;
      ghost var cs := chunks;
      LeastIs(size, initSize);
      Memcpy(dest, ptr, length);
      ghost var copied := mem;
      CopyInstalled(l, old(mem), chunks, k, j, length);
      Reestablish();
      FreeLive(ptr, j);
      x := MoveDone(l, old(mem), copied, cs, mem, chunks, dest, ptr, length, k, j);
    }

    /**
     * realloc.  It never frees when size is 0; otherwise the old block's first bytes move to the new block,
     * the old block is released and every other live block keeps its bytes.
     */
    method Realloc(ptr: nat, size: uint32) returns (r: MallocResult, ghost choice: Choice)
      requires Valid() && Supplied() && (ptr == 0 || exists i :: LiveAt(l, chunks, ptr, i))
      modifies this, pages
      ensures r == Null <==> size == 0
      ensures size == 0 ==> Valid() && Supplied() && mem == old(mem) && chunks == old(chunks) && SupplyOf() == old(SupplyOf())
      ensures size > 0 && !Wraps(l, size) ==> ChoiceOk(l, old(chunks), Padded(l, size), choice)
      ensures r.Panic? <==> size > 0 && !Wraps(l, size) && Panics(Outcome(old(SupplyOf()), old(heapEnd), choice))
      ensures var o := Outcome(old(SupplyOf()), old(heapEnd), choice);
        var overruns := ptr != 0 && CopyOverruns(l, old(chunks), old(heapEnd), Padded(l, size), choice, ptr, size);
        r.Lost? <==> size > 0 && (Wraps(l, size) || o.NoTable? || (o.Grown? && overruns))
      ensures r.Block? ==> Valid() && Supplied() && Outcome(old(SupplyOf()), old(heapEnd), choice) == Grown(SupplyOf())
      ensures r.Block? ==> exists x :: LiveAt(l, chunks, r.ptr, x) && (chunks[x].size >= size <==> size <= TWO_32 - l.align)
      ensures r.Block? ==> LiveKept(l, old(mem), old(chunks), mem, chunks, if ptr == 0 then {} else {ptr - l.startSize})
      ensures r.Block? && ptr != 0 ==> forall i :: LiveAt(l, old(chunks), ptr, i) ==>
        Moved(l, old(mem), ptr, mem, r.ptr, Least(size, old(chunks)[i].size))
      ensures r.Block? && ptr != 0 ==> exists j ::
        var cs := Allocated(l, old(chunks), old(heapEnd), Padded(l, size), choice);
        LiveAt(l, cs, ptr, j) && chunks == Released(l, cs, j)
    {
      hide *;
      LayoutOk();
      if size == 0 {
        NoSizeWraps(l);
        return Null, Fit(0);
      }
      ghost var i: int := 0;
      if ptr != 0 {
        i :| LiveAt(l, chunks, ptr, i);
        LiveUnique(ptr, i);
      }
      ghost var cs, hi, m0 := chunks, heapEnd, mem;
      PaddedFacts(l, size);
      r, choice := Malloc(size);
      Outcomes(Outcome(old(SupplyOf()), hi, choice));
      if r.Block? && ptr != 0 {
        OverrunsIff(l, cs, hi, Padded(l, size), choice, ptr, size, i);
        var ok := Relocate(r.ptr, ptr, size, m0, cs, hi, Padded(l, size), choice, i);
        if !ok {
          r := Lost;
        }
      }
    }

    /**
     * The second half of realloc, with the state before its malloc as ghosts.  It stops where the copy would
     * run over the new block.
     */
    method Relocate(dest: nat, ptr: nat, size: nat, ghost m0: seq<byte>, ghost cs: seq<Chunk>, ghost hi: nat, ghost n: nat, ghost choice: Choice, ghost i: nat)
      returns (ok: bool)
      requires Valid() && ListOk(l, cs, hi) && ChoiceOk(l, cs, n, choice) && n % l.align == 0
      requires chunks == Allocated(l, cs, hi, n, choice) && LiveKept(l, m0, cs, mem, chunks, {}) && LiveAt(l, cs, ptr, i)
      requires LiveAt(l, chunks, dest, BlockIndex(l, cs, choice))
      modifies this`mem, this`chunks
      ensures ok <==> Least(size, cs[i].size) <= old(chunks)[BlockIndex(l, cs, choice)].size
      ensures ok ==> Valid() && LiveKept(l, m0, cs, mem, chunks, {ptr - l.startSize})
      ensures ok ==> exists x :: LiveAt(l, chunks, dest, x) && chunks[x].size == old(chunks)[BlockIndex(l, cs, choice)].size
      ensures ok ==> Moved(l, m0, ptr, mem, dest, Least(size, cs[i].size))
      ensures ok ==> exists j :: LiveAt(l, old(chunks), ptr, j) && chunks == Released(l, old(chunks), j)
    {
      hide Valid, ListOk, ChoiceOk, Allocated, BlockIndex, LiveKept, Released, Bytes, Word;
      ghost var m1, cs1, k := mem, chunks, BlockIndex(l, cs, choice);
      LeastIs(size, cs[i].size);
      ghost var j := OldBlock(l, m0, cs, hi, m1, cs1, n, choice, ptr, i, Least(size, cs[i].size), dest);
      MoveFacts(dest, ptr, k, j);
      if Least(size, Word(mem, ptr - l.startSize - l.heapStart + 4)) > Word(mem, dest - l.startSize - l.heapStart + 4) {
        return false;
      }
      ghost var x := MoveBlock(dest, ptr, size, k, j);
      LiveKeptTrans(l, m0, cs, m1, cs1, mem, chunks, {}, {dest - l.startSize, ptr - l.startSize});
      LiveKeptNarrow(l, m0, cs, mem, chunks, {} + {dest - l.startSize, ptr - l.startSize}, {ptr - l.startSize});
      ok := true;
    }

    lemma MoveFacts(dest: nat, ptr: nat, k: nat, j: nat)
      requires Valid() && LiveAt(l, chunks, dest, k) && LiveAt(l, chunks, ptr, j) && k != j
      ensures WellTagged(l, mem, chunks) && heapEnd == l.heapStart + |mem| && heapEnd <= SPAN * PAGE
      ensures ListOk(l, chunks, l.heapStart + |mem|)
      ensures k < |chunks| && j < |chunks| && dest == chunks[k].addr + l.startSize && ptr == chunks[j].addr + l.startSize
      ensures l.heapStart <= chunks[k].addr && dest + chunks[k].size <= l.heapStart + |mem|
      ensures l.heapStart <= chunks[j].addr && ptr + chunks[j].size <= l.heapStart + |mem|
      ensures dest + chunks[k].size <= ptr || ptr + chunks[j].size <= dest
      ensures chunks[j].addr - l.heapStart + 8 <= |mem| && Word(mem, chunks[j].addr - l.heapStart + 4) == chunks[j].size
      ensures chunks[k].addr - l.heapStart + 8 <= |mem| && Word(mem, chunks[k].addr - l.heapStart + 4) == chunks[k].size
    {
      hide WellTagged, ListOk, Word, Tagged, Valid;
      Bounds();
      SizeTag(k);
      SizeTag(j);
      SoundList();
      Separate(l, chunks, heapEnd, k, j);
    }

    lemma SoundList()
      requires Valid()
      ensures ListOk(l, chunks, heapEnd)
    {
    }

    /** What the start marker of a chunk says, and where the chunk lies. */
    lemma SizeTag(i: nat)
      requires Valid() && i < |chunks|
      ensures l.heapStart <= chunks[i].addr && chunks[i].End(l) <= l.heapStart + |mem|
      ensures chunks[i].addr - l.heapStart + 8 <= |mem| && Word(mem, chunks[i].addr - l.heapStart + 4) == chunks[i].size
    {
      ChunkTags(i);
    }
  }

  /** The first `length` bytes at ptr in mem are those at ptr' in mem'. */
  ghost predicate Moved(l: Layout, mem: seq<byte>, ptr: nat, mem': seq<byte>, ptr': nat, length: nat) {
    Bytes(l, mem', ptr', length) == Bytes(l, mem, ptr, length) && |Bytes(l, mem', ptr', length)| == length
  }

  /** After malloc, the block to be moved is still live, apart from the new one, with its bytes. */
  lemma OldBlock(l: Layout, m0: seq<byte>, cs: seq<Chunk>, hi: nat, m1: seq<byte>, cs1: seq<Chunk>, n: nat, choice: Choice,
                 ptr: nat, i: nat, length: nat, dest: nat) returns (j: nat)
    requires ListOk(l, cs, hi) && ChoiceOk(l, cs, n, choice) && n % l.align == 0
    requires cs1 == Allocated(l, cs, hi, n, choice) && LiveKept(l, m0, cs, m1, cs1, {})
    requires LiveAt(l, cs, ptr, i) && length <= cs[i].size && LiveAt(l, cs1, dest, BlockIndex(l, cs, choice))
    ensures LiveAt(l, cs1, ptr, j) && cs1[j] == cs[i] && j != BlockIndex(l, cs, choice)
    ensures Bytes(l, m1, ptr, length) == Bytes(l, m0, ptr, length)
    ensures forall x :: 0 <= x < |cs| && !cs[x].free ==> cs[x].addr != dest - l.startSize
  {
    hide ListOk, ChoiceOk, Allocated, BlockIndex, LiveKept, Bytes, Payload, Word;
    NewBlock(l, cs, hi, n, choice);
    j := FindKept(l, m0, cs, m1, cs1, {}, i);
    PrefixBytes(l, m0, m1, cs[i], length);
    forall x | 0 <= x < |cs| && !cs[x].free ensures cs[x].addr != dest - l.startSize {
      NewBlockFresh(l, cs, hi, n, choice, x);
    }
  }

  lemma LeastIs(a: nat, b: nat)
    ensures Least(a, b) == (if a < b then a else b) && Least(a, b) <= a && Least(a, b) <= b
  {
  }

  /** After the copy: the heap invariant holds, only the destination changed, and it has the bytes. */
  lemma CopyInstalled(l: Layout, mem: seq<byte>, cs: seq<Chunk>, k: nat, j: nat, length: nat)
    requires WellTagged(l, mem, cs) && k < |cs| && j < |cs| && length <= cs[k].size && length <= cs[j].size
    requires l.heapStart <= cs[k].addr && cs[k].addr + l.startSize + cs[k].size <= l.heapStart + |mem|
    requires l.heapStart <= cs[j].addr && cs[j].addr + l.startSize + cs[j].size <= l.heapStart + |mem|
    ensures var dest, src := cs[k].addr + l.startSize, cs[j].addr + l.startSize;
      var mem' := Copied(l, mem, dest, src, length);
      && WellTagged(l, mem', cs) && LiveKept(l, mem, cs, mem', cs, {cs[k].addr})
      && Bytes(l, mem', dest, length) == Bytes(l, mem, src, length)
  {
    hide WellTagged, LiveKept, Bytes, Copied;
    var dest, src := cs[k].addr + l.startSize, cs[j].addr + l.startSize;
    CopiedBytes(l, mem, dest, src, length);
    PayloadWritten(l, mem, Copied(l, mem, dest, src, length), cs, k);
  }

  lemma MoveDone(l: Layout, m0: seq<byte>, m1: seq<byte>, cs: seq<Chunk>, m2: seq<byte>, cs2: seq<Chunk>,
                 dest: nat, ptr: nat, length: nat, k: nat, j: nat) returns (x: nat)
    requires LiveAt(l, cs, dest, k) && LiveAt(l, cs, ptr, j) && k != j && length <= cs[k].size
    requires ListOk(l, cs, l.heapStart + |m1|)
    requires LiveKept(l, m0, cs, m1, cs, {cs[k].addr}) && LiveKept(l, m1, cs, m2, cs2, {ptr - l.startSize})
    requires Bytes(l, m1, dest, length) == Bytes(l, m0, ptr, length)
    ensures Bytes(l, m2, dest, length) == Bytes(l, m0, ptr, length) && |Bytes(l, m2, dest, length)| == length
    ensures LiveKept(l, m0, cs, m2, cs2, {dest - l.startSize, ptr - l.startSize})
    ensures LiveAt(l, cs2, dest, x) && cs2[x] == cs[k]
  {
    hide LiveKept, Bytes, Payload, Word, ListOk;
    Separate(l, cs, l.heapStart + |m1|, k, j);
    x := FindKept(l, m1, cs, m2, cs2, {ptr - l.startSize}, k);
    PrefixBytes(l, m1, m2, cs[k], length);
    LiveKeptTrans(l, m0, cs, m1, cs, m2, cs2, {cs[k].addr}, {ptr - l.startSize});
    assert {cs[k].addr} + {ptr - l.startSize} == {dest - l.startSize, ptr - l.startSize};
  }

  /** The bytes realloc copies do not fit the new block. */
  ghost predicate CopyOverruns(l: Layout, cs: seq<Chunk>, hi: nat, n: nat, c: Choice, ptr: nat, size: nat) {
    ChoiceOk(l, cs, n, c) && BlockIndex(l, cs, c) < |Allocated(l, cs, hi, n, c)| &&
    exists i :: LiveAt(l, cs, ptr, i) && Least(size, cs[i].size) > Allocated(l, cs, hi, n, c)[BlockIndex(l, cs, c)].size
  }

  lemma OverrunsIff(l: Layout, cs: seq<Chunk>, hi: nat, n: nat, c: Choice, ptr: nat, size: nat, i: nat)
    requires ChoiceOk(l, cs, n, c) && BlockIndex(l, cs, c) < |Allocated(l, cs, hi, n, c)|
    requires LiveAt(l, cs, ptr, i) && forall j :: LiveAt(l, cs, ptr, j) ==> j == i
    ensures i < |cs|
    ensures CopyOverruns(l, cs, hi, n, c, ptr, size) <==>
      Least(size, cs[i].size) > Allocated(l, cs, hi, n, c)[BlockIndex(l, cs, c)].size
  {
    hide ChoiceOk, Allocated, BlockIndex, Least;
  }

  function Least(a: nat, b: nat): nat { if a < b then a else b }

  lemma LeastPagesExist(l: Layout, cs: seq<Chunk>, n: nat, k: nat) returns (pages: nat)
    requires Tail(l, cs) + k * PAGE < n + l.Overhead()
    ensures pages > k && LeastPages(l, cs, n, pages)
  {
    pages := k + 1;
    while Tail(l, cs) + pages * PAGE < n + l.Overhead()
      invariant pages > k && Tail(l, cs) + (pages - 1) * PAGE < n + l.Overhead()
      decreases n + l.Overhead() - pages * PAGE
    {
      pages := pages + 1;
    }
  }
}
