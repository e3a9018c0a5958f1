/** The heap of libk/src/all/stdlib/malloc.c as a list of chunks, and how the list lies in memory. */
module HeapSpec {
  import opened Words
  import Division

  const CANARY := 0xCAFE_BABE

  /** Alignment, padded sizes of the two markers, and where the heap starts. */
  datatype Layout = Layout(align: nat, startSize: nat, endSize: nat, heapStart: nat) {
    /** Both markers hold two 4-byte fields; everything is a multiple of the alignment, itself within a page. */
    predicate Ok() {
      && align > 0 && PAGE >= startSize >= 8 && PAGE >= endSize >= 8 && heapStart > 0
      && startSize % align == 0 && endSize % align == 0 && PAGE % align == 0 && heapStart % PAGE == 0
    }

    function Overhead(): nat { startSize + endSize }
  }

  /** A chunk by the address of its start marker and the size of its usable memory. */
  datatype Chunk = Chunk(addr: nat, size: nat, free: bool) {
    function End(l: Layout): nat { addr + size + l.Overhead() }
  }

  // ----- aligned sizes

  function AlignedSize(size: nat, align: nat): nat
    requires align > 0
  {
    var modulo := size % align;
    size + if modulo != 0 then align - modulo else 0
  }

  lemma MultipleAdd(a: int, b: int, m: nat)
    requires m > 0 && a % m == 0 && b % m == 0
    ensures (a + b) % m == 0 && (a - b) % m == 0
  {
    var p, q := a / m, b / m;
    MultipleOf(p + q, m);
    MultipleOf(p - q, m);
    assert (p + q) * m == a + b;
    assert (p - q) * m == a - b;
  }

  lemma MultipleOf(k: int, m: nat)
    requires m > 0
    ensures k * m % m == 0
  {
    Division.FloorOfDivision(k * m, m);
    Division.FloorUnique(k * m, m, k, k * m / m);
  }

  /** The smallest multiple of the alignment that is not below the request. */
  lemma AlignedSizeLeast(size: nat, align: nat)
    requires align > 0
    ensures var n := AlignedSize(size, align);
      size <= n < size + align && n % align == 0 && (size > 0 ==> n > 0)
  {
    var q, r := size / align, size % align;
    assert size == q * align + r;
    MultipleOf(q, align);
    MultipleOf(q + 1, align);
    assert (q + 1) * align == q * align + align;
  }

  /** In 32 bits the computation wraps, to 0, exactly for requests within one alignment of 2^32. */
  lemma AlignedSizeWraps(size: uint32, align: nat)
    requires align > 0 && TWO_32 % align == 0
    ensures ToU32(AlignedSize(size, align)) >= size <==> size <= TWO_32 - align
    ensures size > TWO_32 - align ==> ToU32(AlignedSize(size, align)) == 0
  {
    AlignedSizeLeast(size, align);
    var n := AlignedSize(size, align);
    MultipleAdd(n, TWO_32, align);
    SmallMultiple(n - TWO_32, align);
  }

  /** The only multiple of m strictly between -m and m is 0. */
  lemma SmallMultiple(x: int, m: int)
    requires m > 0 && x % m == 0
    ensures -m < x < m ==> x == 0
  {
    var q := x / m;
    assert x == q * m;
    Division.MulOrder(1, q, m);
    Division.MulOrder(q, -1, m);
  }

  // ----- lists of chunks

  /** The chunks lie back to back from lo to hi. */
  predicate Tiles(l: Layout, cs: seq<Chunk>, lo: nat, hi: nat) {
    if cs == [] then lo == hi
    else cs[0].addr == lo && Tiles(l, cs[1..], cs[0].End(l), hi)
  }

  predicate ChunkOk(l: Layout, c: Chunk)
    requires l.align > 0
  {
    c.addr % l.align == 0 && c.size % l.align == 0
  }

  ghost predicate NoTwoFree(cs: seq<Chunk>) {
    forall i, j :: 0 <= i && j == i + 1 && j < |cs| ==> !(cs[i].free && cs[j].free)
  }

  /** The list invariant: a partition of [heapStart, hi) into sane chunks, no two neighbours free. */
  ghost predicate ListOk(l: Layout, cs: seq<Chunk>, hi: nat) {
    && l.Ok() && hi % PAGE == 0
    && Tiles(l, cs, l.heapStart, hi)
    && (forall i :: 0 <= i < |cs| ==> ChunkOk(l, cs[i]))
    && NoTwoFree(cs)
  }

  lemma {:induction false} TilesConcat(l: Layout, a: seq<Chunk>, b: seq<Chunk>, lo: nat, mid: nat, hi: nat)
    requires Tiles(l, a, lo, mid) && Tiles(l, b, mid, hi)
    ensures Tiles(l, a + b, lo, hi)
  {
    if a == [] {
      assert a + b == b;
    } else {
      TilesConcat(l, a[1..], b, a[0].End(l), mid, hi);
      assert (a + b)[1..] == a[1..] + b;
    }
  }

  /** Where the i-th chunk starts, or the end of the heap. */
  function AddrAt(cs: seq<Chunk>, i: nat, hi: nat): nat
    requires i <= |cs|
  {
    if i < |cs| then cs[i].addr else hi
  }

  lemma {:induction false} TilesSplit(l: Layout, cs: seq<Chunk>, i: nat, lo: nat, hi: nat)
    requires Tiles(l, cs, lo, hi) && i <= |cs|
    ensures Tiles(l, cs[..i], lo, AddrAt(cs, i, hi)) && Tiles(l, cs[i..], AddrAt(cs, i, hi), hi)
  {
    if i == 0 {
      assert cs[i..] == cs;
    } else {
      TilesSplit(l, cs[1..], i - 1, cs[0].End(l), hi);
      assert cs[..i][1..] == cs[1..][..i - 1];
      assert cs[1..][i - 1..] == cs[i..];
    }
  }

  lemma {:induction false} TilesBounds(l: Layout, cs: seq<Chunk>, lo: nat, hi: nat, i: nat)
    requires Tiles(l, cs, lo, hi) && i < |cs|
    ensures lo <= cs[i].addr && cs[i].End(l) <= hi
    ensures AddrAt(cs, i + 1, hi) == cs[i].End(l)
  {
    TilesRange(l, cs[1..], cs[0].End(l), hi);
    if i > 0 {
      TilesBounds(l, cs[1..], cs[0].End(l), hi, i - 1);
    }
  }

  lemma {:induction false} TilesRange(l: Layout, cs: seq<Chunk>, lo: nat, hi: nat)
    requires Tiles(l, cs, lo, hi)
    ensures lo <= hi
    ensures cs != [] ==> cs[0].addr == lo && AddrAt(cs, 1, hi) == cs[0].End(l)
  {
    if cs != [] {
      TilesRange(l, cs[1..], cs[0].End(l), hi);
      assert |cs| > 1 ==> cs[1] == cs[1..][0];
    }
  }

  /** Distinct chunks never overlap. */
  lemma {:induction false} ChunksDisjoint(l: Layout, cs: seq<Chunk>, lo: nat, hi: nat, i: nat, j: nat)
    requires Tiles(l, cs, lo, hi) && i < j < |cs|
    ensures cs[i].End(l) <= cs[j].addr
  {
    if i == 0 {
      TilesBounds(l, cs[1..], cs[0].End(l), hi, j - 1);
    } else {
      ChunksDisjoint(l, cs[1..], cs[0].End(l), hi, i - 1, j - 1);
    }
  }

  // ----- replacing a stretch of the list

  /** The first and last free flags around a seam. */
  predicate SeamOk(a: seq<Chunk>, b: seq<Chunk>) {
    a != [] && b != [] ==> !(a[|a| - 1].free && b[0].free)
  }

  lemma NoTwoFreeConcat(a: seq<Chunk>, b: seq<Chunk>)
    requires NoTwoFree(a) && NoTwoFree(b) && SeamOk(a, b)
    ensures NoTwoFree(a + b)
  {
  }

  lemma NoTwoFreeSlice(cs: seq<Chunk>, i: nat)
    requires NoTwoFree(cs) && i <= |cs|
    ensures NoTwoFree(cs[..i]) && NoTwoFree(cs[i..]) && SeamOk(cs[..i], cs[i..])
  {
  }

  /** Any stretch may be replaced by sane chunks that tile the same addresses and fit at the seams. */
  lemma ReplaceKeepsList(l: Layout, a: seq<Chunk>, ps: seq<Chunk>, b: seq<Chunk>, lo: nat, mid: nat, hi: nat)
    requires l.Ok() && hi % PAGE == 0 && ps != []
    requires Tiles(l, a, l.heapStart, lo) && Tiles(l, ps, lo, mid) && Tiles(l, b, mid, hi)
    requires forall i :: 0 <= i < |a| ==> ChunkOk(l, a[i])
    requires forall i :: 0 <= i < |ps| ==> ChunkOk(l, ps[i])
    requires forall i :: 0 <= i < |b| ==> ChunkOk(l, b[i])
    requires NoTwoFree(a) && NoTwoFree(ps) && NoTwoFree(b) && SeamOk(a, ps) && SeamOk(ps, b)
    ensures ListOk(l, a + ps + b, hi)
  {
    hide Tiles, NoTwoFree, ChunkOk, Layout.Ok, SeamOk;
    TilesConcat(l, a, ps, l.heapStart, lo, mid);
    TilesConcat(l, a + ps, b, l.heapStart, mid, hi);
    NoTwoFreeConcat(a, ps);
    SeamThrough(a, ps, b);
    NoTwoFreeConcat(a + ps, b);
  }

  lemma SeamThrough(a: seq<Chunk>, ps: seq<Chunk>, b: seq<Chunk>)
    requires ps != [] && SeamOk(ps, b)
    ensures SeamOk(a + ps, b)
  {
  }

  // ----- malloc on lists

  predicate Fits(c: Chunk, n: nat) { c.free && c.size >= n }

  predicate NoFit(cs: seq<Chunk>, n: nat) {
    forall i :: 0 <= i < |cs| ==> !Fits(cs[i], n)
  }

  /** The lowest-addressed among the smallest free chunks of at least n. */
  predicate IsBestFit(cs: seq<Chunk>, n: nat, i: int) {
    && 0 <= i < |cs| && Fits(cs[i], n)
    && (forall j :: 0 <= j < |cs| && Fits(cs[j], n) ==> cs[i].size <= cs[j].size)
    && (forall j :: 0 <= j < i && Fits(cs[j], n) ==> cs[i].size < cs[j].size)
  }

  /** An allocated chunk of n cut from c, and a free rest when the rest can be a chunk. */
  function Pieces(l: Layout, c: Chunk, n: nat): (ps: seq<Chunk>)
    ensures ps != []
  {
    if c.size > n + l.Overhead()
    then [Chunk(c.addr, n, false), Chunk(c.addr + n + l.Overhead(), c.size - n - l.Overhead(), true)]
    else [Chunk(c.addr, c.size, false)]
  }

  function Carve(l: Layout, cs: seq<Chunk>, i: nat, n: nat): seq<Chunk>
    requires i < |cs|
  {
    cs[..i] + Pieces(l, cs[i], n) + cs[i + 1..]
  }

  /** The free memory at the end of the heap, counted with its markers. */
  function Tail(l: Layout, cs: seq<Chunk>): nat {
    if cs == [] || !cs[|cs| - 1].free then 0 else cs[|cs| - 1].size + l.Overhead()
  }

  /** The chunk that `pages` more pages make, together with a free chunk at the end. */
  function GrownChunk(l: Layout, cs: seq<Chunk>, hi: nat, pages: nat): Chunk
    requires Tail(l, cs) + pages * PAGE >= l.Overhead()
  {
    var addr := if Tail(l, cs) == 0 then hi else cs[|cs| - 1].addr;
    Chunk(addr, Tail(l, cs) + pages * PAGE - l.Overhead(), true)
  }

  /** What stays in front of it. */
  function Kept(l: Layout, cs: seq<Chunk>): seq<Chunk> {
    if Tail(l, cs) == 0 then cs else cs[..|cs| - 1]
  }

  /** The least number of pages that makes room for n at the end of the heap. */
  predicate LeastPages(l: Layout, cs: seq<Chunk>, n: nat, pages: nat) {
    && Tail(l, cs) + pages * PAGE >= n + l.Overhead()
    && (pages > 0 ==> Tail(l, cs) + (pages - 1) * PAGE < n + l.Overhead())
  }

  /** One allocation of n: from the best fit, or, if there is none, from a grown heap. */
  datatype Choice = Fit(index: nat) | Grow(pages: nat)

  predicate ChoiceOk(l: Layout, cs: seq<Chunk>, n: nat, c: Choice) {
    match c
    case Fit(i) => IsBestFit(cs, n, i)
    case Grow(pages) => NoFit(cs, n) && LeastPages(l, cs, n, pages)
  }

  /** The choice is determined by the list and the request. */
  lemma ChoiceUnique(l: Layout, cs: seq<Chunk>, n: nat, c: Choice, d: Choice)
    requires ChoiceOk(l, cs, n, c) && ChoiceOk(l, cs, n, d)
    ensures c == d
  {
    if c.Fit? && d.Fit? {
      assert cs[c.index].size == cs[d.index].size;
    }
  }

  function Allocated(l: Layout, cs: seq<Chunk>, hi: nat, n: nat, c: Choice): seq<Chunk>
    requires ChoiceOk(l, cs, n, c)
  {
    match c
    case Fit(i) => Carve(l, cs, i, n)
    case Grow(pages) => Kept(l, cs) + Pieces(l, GrownChunk(l, cs, hi, pages), n)
  }

  lemma FitChoice(l: Layout, cs: seq<Chunk>, hi: nat, n: nat, i: nat)
    requires IsBestFit(cs, n, i)
    ensures i < |cs| && ChoiceOk(l, cs, n, Fit(i)) && Allocated(l, cs, hi, n, Fit(i)) == Carve(l, cs, i, n)
  {
  }

  function GrownEnd(hi: nat, c: Choice): nat {
    hi + if c.Grow? then c.pages * PAGE else 0
  }

  /** A live block: the chunk whose usable memory starts at ptr. */
  predicate LiveAt(l: Layout, cs: seq<Chunk>, ptr: nat, i: int) {
    0 <= i < |cs| && !cs[i].free && ptr == cs[i].addr + l.startSize
  }

  /** Index of the new block. */
  function BlockIndex(l: Layout, cs: seq<Chunk>, c: Choice): nat {
    match c
    case Fit(i) => i
    case Grow(_) => |Kept(l, cs)|
  }

  lemma NewBlock(l: Layout, cs: seq<Chunk>, hi: nat, n: nat, c: Choice)
    requires ListOk(l, cs, hi) && ChoiceOk(l, cs, n, c) && n % l.align == 0
    ensures var cs', i := Allocated(l, cs, hi, n, c), BlockIndex(l, cs, c);
      && i < |cs'| && cs'[i].size >= n && (cs'[i].addr + l.startSize) % l.align == 0
      && cs'[i].addr == (match c case Fit(k) => cs[k].addr case Grow(p) => GrownChunk(l, cs, hi, p).addr)
      && LiveAt(l, cs', cs'[i].addr + l.startSize, i)
  {
    AllocatedOk(l, cs, hi, n, c);
    var cs', i := Allocated(l, cs, hi, n, c), BlockIndex(l, cs, c);
    assert ChunkOk(l, cs'[i]);
    MultipleAdd(cs'[i].addr, l.startSize, l.align);
  }

  /** No live block was where the new one is. */
  lemma NewBlockFresh(l: Layout, cs: seq<Chunk>, hi: nat, n: nat, c: Choice, i: nat)
    requires ListOk(l, cs, hi) && ChoiceOk(l, cs, n, c) && i < |cs| && !cs[i].free
    ensures cs[i].addr != match c case Fit(k) => cs[k].addr case Grow(p) => GrownChunk(l, cs, hi, p).addr
  {
    TilesBounds(l, cs, l.heapStart, hi, i);
    var k := if c.Fit? then c.index else |cs| - 1;
    if i < k {
      ChunksDisjoint(l, cs, l.heapStart, hi, i, k);
    } else if k < i {
      ChunksDisjoint(l, cs, l.heapStart, hi, k, i);
    }
  }

  lemma PiecesOk(l: Layout, c: Chunk, n: nat)
    requires l.Ok() && ChunkOk(l, c) && n <= c.size && n % l.align == 0
    ensures var ps := Pieces(l, c, n);
      && Tiles(l, ps, c.addr, c.End(l)) && NoTwoFree(ps)
      && (forall i :: 0 <= i < |ps| ==> ChunkOk(l, ps[i]))
      && !ps[0].free && ps[0].addr == c.addr && n <= ps[0].size
  {
    var ps := Pieces(l, c, n);
    if c.size > n + l.Overhead() {
      MultipleAdd(l.startSize, l.endSize, l.align);
      MultipleAdd(n, l.Overhead(), l.align);
      MultipleAdd(c.addr, n + l.Overhead(), l.align);
      MultipleAdd(c.size, n + l.Overhead(), l.align);
      assert ps[1..][1..] == [];
      assert Tiles(l, ps[1..], ps[0].End(l), c.End(l));
    } else {
      assert ps[1..] == [];
    }
  }

  lemma CarveOk(l: Layout, cs: seq<Chunk>, hi: nat, i: nat, n: nat)
    requires ListOk(l, cs, hi) && i < |cs| && Fits(cs[i], n) && n % l.align == 0
    ensures ListOk(l, Carve(l, cs, i, n), hi)
  {
    var a, b, ps := cs[..i], cs[i + 1..], Pieces(l, cs[i], n);
    TilesSplit(l, cs, i, l.heapStart, hi);
    TilesBounds(l, cs, l.heapStart, hi, i);
    TilesSplit(l, cs, i + 1, l.heapStart, hi);
    NoTwoFreeSlice(cs, i);
    NoTwoFreeSlice(cs, i + 1);
    PiecesOk(l, cs[i], n);
    assert cs[..i + 1][i] == cs[i];
    ReplaceKeepsList(l, a, ps, b, cs[i].addr, cs[i].End(l), hi);
  }

  lemma PagesAligned(l: Layout, hi: nat, pages: nat)
    requires l.Ok() && hi % PAGE == 0
    ensures hi % l.align == 0 && pages * PAGE % l.align == 0
    ensures (hi + pages * PAGE) % PAGE == 0
  {
    MultipleTimes(PAGE, hi / PAGE, l.align);
    MultipleTimes(PAGE, pages, l.align);
  }

  lemma MultipleTimes(x: int, q: int, m: nat)
    requires m > 0 && x % m == 0
    ensures q * x % m == 0
  {
    var k := x / m;
    assert x == k * m;
    MultipleOf(q * k, m);
    assert q * k * m == q * (k * m);
  }

  lemma GrownChunkOk(l: Layout, cs: seq<Chunk>, hi: nat, pages: nat, n: nat)
    requires ListOk(l, cs, hi) && LeastPages(l, cs, n, pages)
    ensures var g := GrownChunk(l, cs, hi, pages);
      && ChunkOk(l, g) && g.size >= n && g.End(l) == hi + pages * PAGE
      && Tiles(l, Kept(l, cs), l.heapStart, g.addr) && NoTwoFree(Kept(l, cs))
      && (forall i :: 0 <= i < |Kept(l, cs)| ==> ChunkOk(l, Kept(l, cs)[i]))
  {
    PagesAligned(l, hi, pages);
    MultipleAdd(l.startSize, l.endSize, l.align);
    MultipleAdd(pages * PAGE, l.Overhead(), l.align);
    if Tail(l, cs) != 0 {
      var last := |cs| - 1;
      TilesSplit(l, cs, last, l.heapStart, hi);
      TilesBounds(l, cs, l.heapStart, hi, last);
      NoTwoFreeSlice(cs, last);
      MultipleAdd(cs[last].size, pages * PAGE, l.align);
    }
  }

  /** Allocation keeps the list invariant. */
  lemma AllocatedOk(l: Layout, cs: seq<Chunk>, hi: nat, n: nat, c: Choice)
    requires ListOk(l, cs, hi) && ChoiceOk(l, cs, n, c) && n % l.align == 0
    ensures ListOk(l, Allocated(l, cs, hi, n, c), GrownEnd(hi, c))
    ensures var cs', i := Allocated(l, cs, hi, n, c), BlockIndex(l, cs, c);
      i < |cs'| && !cs'[i].free && cs'[i].size >= n
  {
    match c
    case Fit(i) =>
      CarveOk(l, cs, hi, i, n);
      PiecesOk(l, cs[i], n);
    case Grow(pages) =>
      var g := GrownChunk(l, cs, hi, pages);
      GrownChunkOk(l, cs, hi, pages, n);
      PiecesOk(l, g, n);
      PagesAligned(l, hi, pages);
      var ps, kept := Pieces(l, g, n), Kept(l, cs);
      ReplaceKeepsList(l, kept, ps, [], g.addr, g.End(l), g.End(l));
      assert kept + ps + [] == kept + ps;
  }

  // ----- free on lists

  /** First and last index of the stretch that freeing the i-th chunk turns into one. */
  function MergeFrom(cs: seq<Chunk>, i: nat): nat
    requires i < |cs|
  {
    if i > 0 && cs[i - 1].free then i - 1 else i
  }

  function MergeTo(cs: seq<Chunk>, i: nat): nat
    requires i < |cs|
  {
    if i + 1 < |cs| && cs[i + 1].free then i + 1 else i
  }

  function Merged(l: Layout, cs: seq<Chunk>, i: nat): Chunk
    requires i < |cs|
  {
    var before := if MergeFrom(cs, i) < i then cs[i - 1].size + l.Overhead() else 0;
    var after := if MergeTo(cs, i) > i then cs[i + 1].size + l.Overhead() else 0;
    Chunk(cs[MergeFrom(cs, i)].addr, before + cs[i].size + after, true)
  }

  /** The freed chunk after the first of the two merges. */
  function MergedAfter(l: Layout, cs: seq<Chunk>, i: nat): Chunk
    requires i < |cs|
  {
    Chunk(cs[i].addr, cs[i].size + (if MergeTo(cs, i) > i then cs[i + 1].size + l.Overhead() else 0), true)
  }

  function Released(l: Layout, cs: seq<Chunk>, i: nat): seq<Chunk>
    requires i < |cs|
  {
    cs[..MergeFrom(cs, i)] + [Merged(l, cs, i)] + cs[MergeTo(cs, i) + 1..]
  }

  lemma MergedOk(l: Layout, cs: seq<Chunk>, hi: nat, i: nat)
    requires ListOk(l, cs, hi) && i < |cs|
    ensures var m := Merged(l, cs, i);
      && ChunkOk(l, m) && Tiles(l, [m], cs[MergeFrom(cs, i)].addr, AddrAt(cs, MergeTo(cs, i) + 1, hi))
  {
    var m := Merged(l, cs, i);
    MultipleAdd(l.startSize, l.endSize, l.align);
    TilesBounds(l, cs, l.heapStart, hi, i);
    MergedSize(l, cs, i);
    if MergeFrom(cs, i) < i {
      TilesBounds(l, cs, l.heapStart, hi, i - 1);
    }
    if MergeTo(cs, i) > i {
      TilesBounds(l, cs, l.heapStart, hi, i + 1);
    }
    assert [m][1..] == [];
    assert m.End(l) == AddrAt(cs, MergeTo(cs, i) + 1, hi);
  }

  lemma MergedSize(l: Layout, cs: seq<Chunk>, i: nat)
    requires l.Ok() && i < |cs| && forall k :: 0 <= k < |cs| ==> ChunkOk(l, cs[k])
    ensures Merged(l, cs, i).size % l.align == 0
  {
    MultipleAdd(l.startSize, l.endSize, l.align);
    var h: int := l.Overhead();
    var before: int := if MergeFrom(cs, i) < i then cs[i - 1].size else -h;
    var after: int := if MergeTo(cs, i) > i then cs[i + 1].size else -h;
    MultipleAdd(0, l.Overhead(), l.align);
    assert ChunkOk(l, cs[i]) && before % l.align == 0 && after % l.align == 0;
    ThreeMultiples(before, cs[i].size, after, l.Overhead(), l.align);
  }

  lemma ThreeMultiples(a: int, b: int, c: int, h: int, m: nat)
    requires m > 0 && a % m == 0 && b % m == 0 && c % m == 0 && h % m == 0
    ensures (a + h + b + (c + h)) % m == 0
  {
    MultipleAdd(a, h, m);
    MultipleAdd(a + h, b, m);
    MultipleAdd(c, h, m);
    MultipleAdd(a + h + b, c + h, m);
  }

  /** The neighbours of the merged stretch are taken. */
  lemma MergeSeams(cs: seq<Chunk>, i: nat)
    requires i < |cs| && NoTwoFree(cs) && !cs[i].free
    ensures MergeFrom(cs, i) <= i <= MergeTo(cs, i) < |cs|
    ensures MergeFrom(cs, i) > 0 ==> !cs[MergeFrom(cs, i) - 1].free
    ensures MergeTo(cs, i) + 1 < |cs| ==> !cs[MergeTo(cs, i) + 1].free
  {
  }

  lemma OneChunk(c: Chunk)
    ensures NoTwoFree([c])
  {
  }

  /** Two-sided coalescing keeps the list invariant, in particular no two free neighbours. */
  lemma ReleasedOk(l: Layout, cs: seq<Chunk>, hi: nat, i: nat)
    requires ListOk(l, cs, hi) && i < |cs| && !cs[i].free
    ensures ListOk(l, Released(l, cs, i), hi)
  {
    hide Tiles, NoTwoFree, ChunkOk, Merged, Layout.Ok, MergeFrom, MergeTo;
    var from, to := MergeFrom(cs, i), MergeTo(cs, i);
    MergeSeams(cs, i);
    MergedOk(l, cs, hi, i);
    TilesSplit(l, cs, from, l.heapStart, hi);
    TilesSplit(l, cs, to + 1, l.heapStart, hi);
    NoTwoFreeSlice(cs, from);
    NoTwoFreeSlice(cs, to + 1);
    OneChunk(Merged(l, cs, i));
    ReplaceKeepsList(l, cs[..from], [Merged(l, cs, i)], cs[to + 1..], cs[from].addr, AddrAt(cs, to + 1, hi), hi);
  }

  // ----- an idle heap is one chunk

  lemma SomeTaken(cs: seq<Chunk>)
    requires NoTwoFree(cs)
    ensures |cs| >= 2 ==> exists i :: 0 <= i < |cs| && !cs[i].free
  {
    if |cs| >= 2 {
      assert !cs[0].free || !cs[1].free;
    }
  }

  /** With no live block left, the heap is empty or a single free chunk that covers it. */
  lemma AllFreeIsOne(l: Layout, cs: seq<Chunk>, hi: nat)
    requires ListOk(l, cs, hi) && forall i :: 0 <= i < |cs| ==> cs[i].free
    ensures |cs| <= 1
    ensures cs == [] ==> hi == l.heapStart
    ensures cs != [] ==> cs[0].addr == l.heapStart && cs[0].End(l) == hi
  {
    SomeTaken(cs);
    if cs != [] {
      TilesRange(l, cs, l.heapStart, hi);
    }
  }
}
