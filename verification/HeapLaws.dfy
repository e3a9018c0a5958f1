/** What malloc and free do to sizes, places and bytes, said without the functions that compute it. */
module HeapLaws {
  import opened Words
  import opened HeapSpec
  import opened HeapMemory
  import opened Heap
  import opened HeapRuns

  /** Where the hole ends that a choice cuts its block from. */
  function HoleEnd(l: Layout, cs: seq<Chunk>, hi: nat, c: Choice): int {
    match c
    case Fit(k) => if k < |cs| then cs[k].addr + l.startSize + cs[k].size + l.endSize else hi
    case Grow(pages) => hi + pages * 4096
  }

  /** The lowest-addressed among the smallest free chunks that are large enough. */
  lemma FitIsLeast(l: Layout, cs: seq<Chunk>, n: nat, i: nat)
    requires ChoiceOk(l, cs, n, Fit(i))
    ensures i < |cs| && cs[i].free && cs[i].size >= n
    ensures forall j :: 0 <= j < |cs| && cs[j].free && cs[j].size >= n ==>
      cs[i].size < cs[j].size || (cs[i].size == cs[j].size && i <= j)
  {
    forall j | 0 <= j < |cs| && cs[j].free && cs[j].size >= n
      ensures cs[i].size < cs[j].size || (cs[i].size == cs[j].size && i <= j)
    {
      assert Fits(cs[j], n);
    }
  }

  /** The heap grows only when nothing fits, by the least number of pages beside a free chunk at its end. */
  lemma GrowthIsLeast(l: Layout, cs: seq<Chunk>, hi: nat, n: nat, pages: nat)
    requires ChoiceOk(l, cs, n, Grow(pages))
    ensures forall j :: 0 <= j < |cs| && cs[j].free ==> cs[j].size < n
    ensures var tail := if cs != [] && cs[|cs| - 1].free then cs[|cs| - 1].size + l.startSize + l.endSize else 0;
      && tail + pages * 4096 >= n + l.startSize + l.endSize
      && (pages > 0 ==> tail + (pages - 1) * 4096 < n + l.startSize + l.endSize)
  {
    forall j | 0 <= j < |cs| && cs[j].free ensures cs[j].size < n {
      assert !Fits(cs[j], n);
    }
  }

  /** A growth starts at the free chunk at the end of the heap, if there is one. */
  lemma BlockPlace(l: Layout, cs: seq<Chunk>, hi: nat, n: nat, c: Choice)
    requires ListOk(l, cs, hi) && ChoiceOk(l, cs, n, c) && n % l.align == 0
    ensures var cs', i := Allocated(l, cs, hi, n, c), BlockIndex(l, cs, c);
      && i < |cs'| && !cs'[i].free
      && (c.Fit? ==> c.index < |cs| && cs'[i].addr == cs[c.index].addr)
      && (c.Grow? && cs != [] && cs[|cs| - 1].free ==> cs'[i].addr == cs[|cs| - 1].addr)
      && (c.Grow? && (cs == [] || !cs[|cs| - 1].free) ==> cs'[i].addr == hi)
  {
    hide Tiles, NoTwoFree, Pieces;
    NewBlock(l, cs, hi, n, c);
  }

  /**
   * The block is exactly as large as asked when the hole has room for one more chunk, and otherwise the
   * whole hole, which then exceeds the request by no more than one pair of markers.
   */
  lemma BlockSizeExact(l: Layout, cs: seq<Chunk>, hi: nat, n: nat, c: Choice)
    requires ListOk(l, cs, hi) && ChoiceOk(l, cs, n, c) && n % l.align == 0
    ensures var cs', i := Allocated(l, cs, hi, n, c), BlockIndex(l, cs, c);
      && i < |cs'|
      && var hole := HoleEnd(l, cs, hi, c) - cs'[i].addr - l.startSize - l.endSize;
        && hole >= n && (c.Fit? ==> c.index < |cs| && hole == cs[c.index].size)
        && cs'[i].size == if hole > n + l.startSize + l.endSize then n else hole
  {
    hide ListOk, Layout.Ok;
    NewBlock(l, cs, hi, n, c);
    match c
    case Fit(k) => FitIndex(cs, n, k);
    case Grow(pages) => GrownChunkOk(l, cs, hi, pages, n);
  }

  // ----- conservation

  /** The free bytes of a heap, markers included. */
  function FreeBytes(l: Layout, cs: seq<Chunk>): nat {
    if cs == [] then 0
    else FreeBytes(l, cs[1..]) + if cs[0].free then cs[0].size + l.startSize + l.endSize else 0
  }

  /** The bytes in live blocks, markers included. */
  function LiveBytes(l: Layout, cs: seq<Chunk>): nat {
    if cs == [] then 0
    else LiveBytes(l, cs[1..]) + if cs[0].free then 0 else cs[0].size + l.startSize + l.endSize
  }

  /** Every byte between the ends of the heap belongs to one of the two. */
  lemma {:induction false} BytesCovered(l: Layout, cs: seq<Chunk>, lo: nat, hi: nat)
    requires Tiles(l, cs, lo, hi)
    ensures FreeBytes(l, cs) + LiveBytes(l, cs) == hi - lo
  {
    if cs != [] {
      BytesCovered(l, cs[1..], cs[0].End(l), hi);
    }
  }

  lemma {:induction false} FreeConcat(l: Layout, a: seq<Chunk>, b: seq<Chunk>)
    ensures FreeBytes(l, a + b) == FreeBytes(l, a) + FreeBytes(l, b)
  {
    if a == [] {
      assert a + b == b;
    } else {
      assert (a + b)[1..] == a[1..] + b;
      FreeConcat(l, a[1..], b);
    }
  }

  lemma FreeThree(l: Layout, a: seq<Chunk>, m: seq<Chunk>, b: seq<Chunk>)
    ensures FreeBytes(l, a + m + b) == FreeBytes(l, a) + FreeBytes(l, m) + FreeBytes(l, b)
  {
    FreeConcat(l, a, m);
    FreeConcat(l, a + m, b);
  }

  lemma FreeOne(l: Layout, c: Chunk)
    ensures FreeBytes(l, [c]) == if c.free then c.size + l.startSize + l.endSize else 0
  {
    assert [c][1..] == [];
  }

  lemma FreePieces(l: Layout, c: Chunk, n: nat)
    requires n <= c.size
    ensures var ps := Pieces(l, c, n);
      FreeBytes(l, ps) + ps[0].size + l.startSize + l.endSize == c.size + l.startSize + l.endSize
  {
    var ps := Pieces(l, c, n);
    assert ps == [ps[0]] + ps[1..];
    FreeOne(l, ps[0]);
    FreeConcat(l, [ps[0]], ps[1..]);
    if |ps| == 2 {
      assert ps[1..] == [ps[1]];
      FreeOne(l, ps[1]);
    } else {
      assert ps[1..] == [];
    }
  }

  lemma FreeKept(l: Layout, cs: seq<Chunk>)
    ensures FreeBytes(l, Kept(l, cs)) + Tail(l, cs) == FreeBytes(l, cs)
    ensures Tail(l, cs) == if cs != [] && cs[|cs| - 1].free then cs[|cs| - 1].size + l.startSize + l.endSize else 0
  {
    if cs != [] {
      var k := |cs| - 1;
      assert cs == cs[..k] + [cs[k]];
      FreeConcat(l, cs[..k], [cs[k]]);
      FreeOne(l, cs[k]);
    }
  }

  /** malloc turns exactly the new block and its markers from free bytes, old or new, into live ones. */
  lemma AllocationConserves(l: Layout, cs: seq<Chunk>, hi: nat, n: nat, c: Choice)
    requires ListOk(l, cs, hi) && ChoiceOk(l, cs, n, c) && n % l.align == 0
    ensures var cs', i := Allocated(l, cs, hi, n, c), BlockIndex(l, cs, c);
      i < |cs'| && FreeBytes(l, cs') + cs'[i].size + l.startSize + l.endSize ==
        FreeBytes(l, cs) + if c.Grow? then c.pages * 4096 else 0
  {
    hide FreeBytes, ListOk, Layout.Ok, Pieces, Tail, Kept;
    NewBlock(l, cs, hi, n, c);
    match c
    case Fit(k) =>
      FitIndex(cs, n, k);
      assert cs == cs[..k] + [cs[k]] + cs[k + 1..];
      FreeThree(l, cs[..k], [cs[k]], cs[k + 1..]);
      FreeThree(l, cs[..k], Pieces(l, cs[k], n), cs[k + 1..]);
      FreeOne(l, cs[k]);
      FreePieces(l, cs[k], n);
    case Grow(pages) =>
      GrownChunkOk(l, cs, hi, pages, n);
      FreeKept(l, cs);
      FreeConcat(l, Kept(l, cs), Pieces(l, GrownChunk(l, cs, hi, pages), n));
      FreePieces(l, GrownChunk(l, cs, hi, pages), n);
  }

  /** free turns exactly the block and its markers back. */
  lemma ReleaseConserves(l: Layout, cs: seq<Chunk>, hi: nat, i: nat)
    requires ListOk(l, cs, hi) && i < |cs| && !cs[i].free
    ensures FreeBytes(l, Released(l, cs, i)) == FreeBytes(l, cs) + cs[i].size + l.startSize + l.endSize
  {
    hide FreeBytes, ListOk, Merged, MergeFrom, MergeTo;
    MergeRange(cs, i);
    var from, to := MergeFrom(cs, i), MergeTo(cs, i);
    assert cs == cs[..from] + cs[from..to + 1] + cs[to + 1..];
    FreeThree(l, cs[..from], cs[from..to + 1], cs[to + 1..]);
    FreeThree(l, cs[..from], [Merged(l, cs, i)], cs[to + 1..]);
    FreeMerged(l, cs, i);
  }

  lemma FreeMerged(l: Layout, cs: seq<Chunk>, i: nat)
    requires i < |cs| && !cs[i].free
    ensures MergeFrom(cs, i) <= i <= MergeTo(cs, i) < |cs|
    ensures FreeBytes(l, [Merged(l, cs, i)]) ==
      FreeBytes(l, cs[MergeFrom(cs, i)..MergeTo(cs, i) + 1]) + cs[i].size + l.startSize + l.endSize
  {
    hide FreeBytes;
    var from, to := MergeFrom(cs, i), MergeTo(cs, i);
    var mid := cs[from..to + 1];
    var a, b := cs[from..i], cs[i + 1..to + 1];
    assert mid == a + [cs[i]] + b;
    FreeThree(l, a, [cs[i]], b);
    FreeOne(l, cs[i]);
    FreeOne(l, Merged(l, cs, i));
    FreeAtMostOne(l, a);
    FreeAtMostOne(l, b);
    assert from < i ==> a == [cs[i - 1]];
    assert to > i ==> b == [cs[i + 1]];
  }

  lemma FreeAtMostOne(l: Layout, a: seq<Chunk>)
    requires |a| <= 1
    ensures FreeBytes(l, a) == if a != [] && a[0].free then a[0].size + l.startSize + l.endSize else 0
  {
  }

  // ----- bytes

  /** What keeping a live block means for each of its bytes. */
  lemma KeptBytes(l: Layout, mem: seq<byte>, cs: seq<Chunk>, mem': seq<byte>, cs': seq<Chunk>, gone: set<int>, i: nat, x: int)
    requires LiveKept(l, mem, cs, mem', cs', gone) && i < |cs| && !cs[i].free && cs[i].addr !in gone
    requires cs[i].addr + l.startSize <= x < cs[i].addr + l.startSize + cs[i].size
    ensures cs[i] in cs' && 0 <= x - l.heapStart < |mem| && x - l.heapStart < |mem'|
    ensures mem'[x - l.heapStart] == mem[x - l.heapStart]
  {
    hide LiveKept;
    var j := FindKept(l, mem, cs, mem', cs', gone, i);
    var o := x - (cs[i].addr + l.startSize);
    assert Payload(l, mem', cs'[j])[o] == Payload(l, mem, cs[i])[o];
  }

  /** And what moving bytes means. */
  lemma MovedBytes(l: Layout, mem: seq<byte>, ptr: nat, mem': seq<byte>, ptr': nat, size: nat, old_size: nat, x: nat)
    requires Moved(l, mem, ptr, mem', ptr', Least(size, old_size)) && x < size && x < old_size
    ensures 0 <= ptr + x - l.heapStart < |mem| && 0 <= ptr' + x - l.heapStart < |mem'|
    ensures mem'[ptr' + x - l.heapStart] == mem[ptr + x - l.heapStart]
  {
    var length := Least(size, old_size);
    assert Bytes(l, mem', ptr', length)[x] == Bytes(l, mem, ptr, length)[x];
  }
}
