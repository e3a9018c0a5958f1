/** Properties of whole heap histories, and the heap read back from memory alone. */
module HeapRuns {
  import opened Words
  import opened HeapSpec
  import opened HeapMemory
  import opened LittleEndian
  import opened Heap

  datatype HeapState = HeapState(chunks: seq<Chunk>, end: nat)

  /** What malloc and free do to the chunk list; realloc is one of each. */
  datatype HeapEvent = Alloc(n: nat, choice: Choice) | Release(index: nat)

  ghost predicate Enabled(l: Layout, s: HeapState, e: HeapEvent) {
    match e
    case Alloc(n, c) => l.align > 0 && n % l.align == 0 && ChoiceOk(l, s.chunks, n, c)
    case Release(i) => i < |s.chunks| && !s.chunks[i].free
  }

  ghost function Step(l: Layout, s: HeapState, e: HeapEvent): HeapState
    requires Enabled(l, s, e)
  {
    match e
    case Alloc(n, c) => HeapState(Allocated(l, s.chunks, s.end, n, c), GrownEnd(s.end, c))
    case Release(i) => HeapState(Released(l, s.chunks, i), s.end)
  }

  ghost predicate IsRun(l: Layout, states: seq<HeapState>, events: seq<HeapEvent>) {
    && l.Ok() && |states| == |events| + 1 && states[0] == HeapState([], l.heapStart)
    && forall i :: 0 <= i < |events| ==> Enabled(l, states[i], events[i]) && states[i + 1] == Step(l, states[i], events[i])
  }

  /** In every reachable heap the chunks partition [heapStart, end) and no two neighbours are free. */
  lemma {:induction false} ReachableListOk(l: Layout, states: seq<HeapState>, events: seq<HeapEvent>, i: nat)
    requires IsRun(l, states, events) && i <= |events|
    ensures ListOk(l, states[i].chunks, states[i].end)
  {
    if i == 0 {
    } else {
      ReachableListOk(l, states, events, i - 1);
      match events[i - 1]
      case Alloc(n, c) => AllocatedOk(l, states[i - 1].chunks, states[i - 1].end, n, c);
      case Release(k) => ReleasedOk(l, states[i - 1].chunks, states[i - 1].end, k);
    }
  }

  predicate NonEmpty(cs: seq<Chunk>) {
    forall i :: 0 <= i < |cs| ==> cs[i].size > 0
  }

  lemma NonEmptyStep(l: Layout, s: HeapState, e: HeapEvent)
    requires ListOk(l, s.chunks, s.end) && Enabled(l, s, e) && NonEmpty(s.chunks) && (e.Alloc? ==> e.n > 0)
    ensures NonEmpty(Step(l, s, e).chunks)
  {
    hide ListOk, NoFit, NonEmpty, Pieces, Merged, MergeFrom, MergeTo, Kept, GrownChunk;
    var cs := s.chunks;
    match e
    case Alloc(n, c) =>
      match c {
        case Fit(i) =>
          FitIndex(cs, n, i);
          Parts(cs, i, i + 1);
          PiecesNonEmpty(l, cs[i], n);
          NonEmptyConcat(cs[..i], Pieces(l, cs[i], n), cs[i + 1..]);
        case Grow(pages) =>
          GrownNonEmpty(l, cs, s.end, n, pages);
          var ps := Pieces(l, GrownChunk(l, cs, s.end, pages), n);
          NonEmptyConcat(Kept(l, cs), ps, []);
          assert Kept(l, cs) + ps + [] == Kept(l, cs) + ps;
      }
    case Release(i) =>
      MergeRange(cs, i);
      Parts(cs, MergeFrom(cs, i), MergeTo(cs, i) + 1);
      MergedNonEmpty(l, cs, i);
      NonEmptyConcat(cs[..MergeFrom(cs, i)], [Merged(l, cs, i)], cs[MergeTo(cs, i) + 1..]);
  }

  lemma Parts(cs: seq<Chunk>, i: nat, j: nat)
    requires NonEmpty(cs) && i <= j <= |cs|
    ensures NonEmpty(cs[..i]) && NonEmpty(cs[j..]) && NonEmpty([]) && (i < |cs| ==> cs[i].size > 0)
  {
  }

  lemma NonEmptyConcat(a: seq<Chunk>, b: seq<Chunk>, c: seq<Chunk>)
    requires NonEmpty(a) && NonEmpty(b) && NonEmpty(c)
    ensures NonEmpty(a + b + c)
  {
  }

  lemma PiecesNonEmpty(l: Layout, c: Chunk, n: nat)
    requires c.size > 0 && n > 0
    ensures NonEmpty(Pieces(l, c, n))
  {
  }

  lemma GrownNonEmpty(l: Layout, cs: seq<Chunk>, hi: nat, n: nat, pages: nat)
    requires LeastPages(l, cs, n, pages) && n > 0 && NonEmpty(cs)
    ensures NonEmpty(Kept(l, cs)) && NonEmpty([]) && NonEmpty(Pieces(l, GrownChunk(l, cs, hi, pages), n))
  {
    PiecesNonEmpty(l, GrownChunk(l, cs, hi, pages), n);
  }

  lemma MergedNonEmpty(l: Layout, cs: seq<Chunk>, i: nat)
    requires i < |cs| && NonEmpty(cs)
    ensures NonEmpty([Merged(l, cs, i)])
  {
    assert cs[i].size > 0;
  }

  /** Only a request that wraps to 0 makes an empty chunk. */
  lemma {:induction false} ReachableNonEmpty(l: Layout, states: seq<HeapState>, events: seq<HeapEvent>, i: nat)
    requires IsRun(l, states, events) && i <= |events|
    requires forall k :: 0 <= k < |events| && events[k].Alloc? ==> events[k].n > 0
    ensures NonEmpty(states[i].chunks)
  {
    hide NonEmpty, Step, Enabled;
    if i == 0 {
      assert NonEmpty([]) by { NothingEmpty(); }
    } else {
      ReachableNonEmpty(l, states, events, i - 1);
      ReachableListOk(l, states, events, i - 1);
      NonEmptyStep(l, states[i - 1], events[i - 1]);
    }
  }

  lemma NothingEmpty()
    ensures NonEmpty([])
  {
  }

  // ----- which blocks are live

  function Live(cs: seq<Chunk>): set<Chunk> {
    set c | c in cs && !c.free
  }

  lemma LiveConcat(a: seq<Chunk>, b: seq<Chunk>)
    ensures Live(a + b) == Live(a) + Live(b)
  {
  }

  lemma LiveCarved(l: Layout, a: seq<Chunk>, c: Chunk, b: seq<Chunk>, n: nat)
    requires c.free
    ensures Live(a + Pieces(l, c, n) + b) == Live(a + [c] + b) + {Pieces(l, c, n)[0]}
  {
    var ps := Pieces(l, c, n);
    LiveConcat(a, ps);
    LiveConcat(a + ps, b);
    LiveConcat(a, [c]);
    LiveConcat(a + [c], b);
    assert Live(ps) == {ps[0]};
    assert Live([c]) == {};
  }

  lemma GrowLive(l: Layout, cs: seq<Chunk>, hi: nat, n: nat, pages: nat)
    requires LeastPages(l, cs, n, pages)
    ensures var ps := Pieces(l, GrownChunk(l, cs, hi, pages), n);
      Live(Kept(l, cs) + ps) == Live(cs) + {ps[0]}
  {
    var kept, ps := Kept(l, cs), Pieces(l, GrownChunk(l, cs, hi, pages), n);
    LiveConcat(kept, ps);
    assert Live(ps) == {ps[0]};
    LiveConcat(kept, cs[|kept|..]);
    assert cs == kept + cs[|kept|..];
    assert Live(cs[|kept|..]) == {};
  }

  /** An allocation adds exactly the new block to the live ones. */
  lemma AllocLive(l: Layout, s: HeapState, n: nat, c: Choice)
    requires ListOk(l, s.chunks, s.end) && Enabled(l, s, Alloc(n, c))
    ensures var s' := Step(l, s, Alloc(n, c));
      var k := BlockIndex(l, s.chunks, c);
      k < |s'.chunks| && Live(s'.chunks) == Live(s.chunks) + {s'.chunks[k]} && s'.chunks[k] !in Live(s.chunks)
  {
    hide ListOk, Pieces, IsBestFit, NoFit, LeastPages, Kept, GrownChunk, Layout.Ok;
    var cs := s.chunks;
    var cs', k := Allocated(l, cs, s.end, n, c), BlockIndex(l, cs, c);
    NewBlock(l, cs, s.end, n, c);
    match c {
      case Fit(i) =>
        FitIndex(cs, n, i);
        assert cs == cs[..i] + [cs[i]] + cs[i + 1..];
        LiveCarved(l, cs[..i], cs[i], cs[i + 1..], n);
      case Grow(pages) =>
        GrowLive(l, cs, s.end, n, pages);
    }
    forall i | 0 <= i < |cs| && !cs[i].free ensures cs[i] != cs'[k] {
      NewBlockFresh(l, cs, s.end, n, c, i);
    }
  }

  lemma FitIndex(cs: seq<Chunk>, n: nat, i: nat)
    requires IsBestFit(cs, n, i)
    ensures i < |cs| && cs[i].free
  {
  }

  lemma MergeRange(cs: seq<Chunk>, i: nat)
    requires i < |cs|
    ensures MergeFrom(cs, i) <= i <= MergeTo(cs, i) < |cs|
  {
  }

  lemma MergedStretch(l: Layout, cs: seq<Chunk>, i: nat)
    requires i < |cs| && !cs[i].free
    ensures Live(cs[MergeFrom(cs, i)..MergeTo(cs, i) + 1]) == {cs[i]} && Live([Merged(l, cs, i)]) == {}
  {
    var mid := cs[MergeFrom(cs, i)..MergeTo(cs, i) + 1];
    assert mid[i - MergeFrom(cs, i)] == cs[i];
  }

  /** A release removes exactly the freed block. */
  lemma ReleaseLive(l: Layout, s: HeapState, i: nat)
    requires ListOk(l, s.chunks, s.end) && Enabled(l, s, Release(i))
    ensures Live(Step(l, s, Release(i)).chunks) == Live(s.chunks) - {s.chunks[i]}
  {
    hide ListOk, Merged, Live, MergeFrom, MergeTo;
    MergeRange(s.chunks, i);
    var cs := s.chunks;
    var from, to, m := MergeFrom(cs, i), MergeTo(cs, i), Merged(l, cs, i);
    var a, mid, b := cs[..from], cs[from..to + 1], cs[to + 1..];
    assert cs == a + mid + b;
    LiveConcat(a, mid);
    LiveConcat(a + mid, b);
    LiveConcat(a, [m]);
    LiveConcat(a + [m], b);
    MergedStretch(l, cs, i);
    NotElsewhere(l, cs, s.end, i, from, to);
    RemoveMiddle(Live(a), cs[i], Live(b));
  }

  lemma RemoveMiddle(a: set<Chunk>, x: Chunk, b: set<Chunk>)
    requires x !in a && x !in b
    ensures a + {} + b == a + {x} + b - {x}
  {
  }

  lemma NotElsewhere(l: Layout, cs: seq<Chunk>, hi: nat, i: nat, from: nat, to: nat)
    requires ListOk(l, cs, hi) && from <= i <= to < |cs|
    ensures cs[i] !in Live(cs[..from]) && cs[i] !in Live(cs[to + 1..])
  {
    hide ListOk;
    forall k | 0 <= k < |cs| && k != i ensures cs[k] != cs[i] {
      Separate(l, cs, hi, k, i);
    }
  }

  /** The blocks a history has handed out and not taken back. */
  ghost function Outstanding(l: Layout, states: seq<HeapState>, events: seq<HeapEvent>, i: nat): set<Chunk>
    requires IsRun(l, states, events) && i <= |events|
  {
    if i == 0 then {}
    else
      var before := Outstanding(l, states, events, i - 1);
      match events[i - 1]
      case Alloc(n, c) =>
        NewBlockInRange(l, states, events, i);
        before + {states[i].chunks[BlockIndex(l, states[i - 1].chunks, c)]}
      case Release(k) => before - {states[i - 1].chunks[k]}
  }

  lemma NewBlockInRange(l: Layout, states: seq<HeapState>, events: seq<HeapEvent>, i: nat)
    requires IsRun(l, states, events) && 0 < i <= |events| && events[i - 1].Alloc?
    ensures BlockIndex(l, states[i - 1].chunks, events[i - 1].choice) < |states[i].chunks|
  {
    ReachableListOk(l, states, events, i - 1);
    AllocLive(l, states[i - 1], events[i - 1].n, events[i - 1].choice);
  }

  /**
   * Over any history the live chunks are the blocks handed out and not taken back; once all are back the
   * heap is empty or one free chunk from heapStart to its end.
   */
  lemma {:induction false} LiveIsOutstanding(l: Layout, states: seq<HeapState>, events: seq<HeapEvent>, i: nat)
    requires IsRun(l, states, events) && i <= |events|
    ensures Live(states[i].chunks) == Outstanding(l, states, events, i)
    ensures Outstanding(l, states, events, i) == {} ==>
      var cs := states[i].chunks;
      |cs| <= 1 && (cs != [] ==> cs[0].addr == l.heapStart && cs[0].End(l) == states[i].end)
  {
    ReachableListOk(l, states, events, i);
    if i > 0 {
      LiveIsOutstanding(l, states, events, i - 1);
      ReachableListOk(l, states, events, i - 1);
      match events[i - 1]
      case Alloc(n, c) => AllocLive(l, states[i - 1], n, c);
      case Release(k) => ReleaseLive(l, states[i - 1], k);
    }
    NothingLive(l, states[i].chunks, states[i].end);
  }

  lemma NothingLive(l: Layout, cs: seq<Chunk>, hi: nat)
    requires ListOk(l, cs, hi)
    ensures Live(cs) == {} ==> |cs| <= 1 && (cs != [] ==> cs[0].addr == l.heapStart && cs[0].End(l) == hi)
  {
    if Live(cs) == {} {
      forall i | 0 <= i < |cs| ensures cs[i].free {
        assert cs[i] in cs;
        assert cs[i] !in Live(cs);
      }
      AllFreeIsOne(l, cs, hi);
    }
  }

  // ----- the list is in the memory

  /** What a walk over the start markers from ptr to the end of the heap reads. */
  function Walk(l: Layout, mem: seq<byte>, ptr: nat): seq<Chunk>
    requires l.startSize >= 8
    decreases l.heapStart + |mem| - ptr
  {
    var o := ptr - l.heapStart;
    if o < 0 || o + 8 > |mem| then []
    else
      var c := Chunk(ptr, Word(mem, o + 4), mem[o] != 0);
      [c] + Walk(l, mem, c.End(l))
  }

  lemma MarkersFit(l: Layout)
    requires l.Ok()
    ensures l.startSize >= 8 && l.endSize >= 8
  {
  }

  /** The walk finds exactly the chunks of the invariant and stops exactly at the end of the heap. */
  lemma {:induction false} WalkFindsChunks(l: Layout, mem: seq<byte>, cs: seq<Chunk>, lo: nat)
    requires l.Ok() && l.heapStart <= lo && Tiles(l, cs, lo, l.heapStart + |mem|) && AllTagged(l, mem, cs)
    ensures Walk(l, mem, lo) == cs
  {
    hide Tagged, Word, Layout.Ok;
    MarkersFit(l);
    TilesRange(l, cs, lo, l.heapStart + |mem|);
    if cs != [] {
      StartMarker(l, mem, cs[0]);
      assert AllTagged(l, mem, cs[1..]);
      WalkFindsChunks(l, mem, cs[1..], cs[0].End(l));
    }
  }

  lemma EndMarker(l: Layout, mem: seq<byte>, c: Chunk)
    requires Tagged(l, mem, c)
    ensures var e := c.End(l) - l.endSize - l.heapStart;
      0 <= e && e + 8 <= |mem| && Word(mem, e) == c.size && Word(mem, e + 4) == CANARY
  {
    hide Word;
  }

  /** The step back over an end marker reaches the true predecessor. */
  lemma BackwardStep(l: Layout, mem: seq<byte>, cs: seq<Chunk>, i: nat)
    requires WellTagged(l, mem, cs) && 0 < i < |cs|
    ensures var e := cs[i].addr - l.endSize - l.heapStart;
      && 0 <= e && e + 8 <= |mem| && Word(mem, e + 4) == CANARY
      && cs[i].addr - l.endSize - Word(mem, e) - l.startSize == cs[i - 1].addr
  {
    hide Tagged, Word, Tiles, NoTwoFree;
    TilesBounds(l, cs, l.heapStart, l.heapStart + |mem|, i - 1);
    EndMarker(l, mem, cs[i - 1]);
  }
}
