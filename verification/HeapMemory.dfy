/** Boundary tags in byte memory. */
module HeapMemory {
  import opened Words
  import opened LittleEndian
  import opened HeapSpec

  /** The chunk's two markers stand in memory with its size, its state and an intact canary. */
  predicate Tagged(l: Layout, mem: seq<byte>, c: Chunk) {
    && l.startSize >= 8 && l.endSize >= 8 && l.heapStart <= c.addr && c.End(l) <= l.heapStart + |mem|
    && var o := c.addr - l.heapStart;
      && (mem[o] != 0 <==> c.free) && Word(mem, o + 4) == c.size
      && Word(mem, o + l.startSize + c.size) == c.size && Word(mem, o + l.startSize + c.size + 4) == CANARY
  }

  ghost predicate AllTagged(l: Layout, mem: seq<byte>, cs: seq<Chunk>) {
    forall i :: 0 <= i < |cs| ==> Tagged(l, mem, cs[i])
  }

  function Payload(l: Layout, mem: seq<byte>, c: Chunk): seq<byte>
    requires l.heapStart <= c.addr && c.End(l) <= l.heapStart + |mem|
  {
    mem[c.addr + l.startSize - l.heapStart..c.addr + l.startSize + c.size - l.heapStart]
  }

  /** The bytes at ptr (none when they are not all mapped). */
  function Bytes(l: Layout, mem: seq<byte>, ptr: nat, length: nat): seq<byte> {
    if l.heapStart <= ptr && ptr + length <= l.heapStart + |mem|
    then mem[ptr - l.heapStart..ptr - l.heapStart + length] else []
  }

  lemma PrefixBytes(l: Layout, mem: seq<byte>, mem': seq<byte>, c: Chunk, length: nat)
    requires l.heapStart <= c.addr && c.End(l) <= l.heapStart + |mem| && c.End(l) <= l.heapStart + |mem'|
    requires Payload(l, mem', c) == Payload(l, mem, c) && length <= c.size
    ensures Bytes(l, mem', c.addr + l.startSize, length) == Bytes(l, mem, c.addr + l.startSize, length)
    ensures |Bytes(l, mem, c.addr + l.startSize, length)| == length
  {
    assert Bytes(l, mem, c.addr + l.startSize, length) == Payload(l, mem, c)[..length];
    assert Bytes(l, mem', c.addr + l.startSize, length) == Payload(l, mem', c)[..length];
  }

  /** memcpy between two mapped, disjoint ranges. */
  function Copied(l: Layout, mem: seq<byte>, dest: nat, src: nat, length: nat): (mem': seq<byte>)
    requires l.heapStart <= dest && dest + length <= l.heapStart + |mem|
    requires l.heapStart <= src && src + length <= l.heapStart + |mem|
    ensures |mem'| == |mem|
  {
    var d, s := dest - l.heapStart, src - l.heapStart;
    mem[..d] + mem[s..s + length] + mem[d + length..]
  }

  lemma CopyStart(l: Layout, mem: seq<byte>, dest: nat, src: nat)
    requires l.heapStart <= dest <= l.heapStart + |mem| && l.heapStart <= src <= l.heapStart + |mem|
    ensures Copied(l, mem, dest, src, 0) == mem
  {
  }

  lemma CopyStep(l: Layout, mem: seq<byte>, dest: nat, src: nat, x: nat)
    requires l.heapStart <= dest && dest + x < l.heapStart + |mem|
    requires l.heapStart <= src && src + x < l.heapStart + |mem|
    requires dest + x < src || src + x < dest
    ensures var m := Copied(l, mem, dest, src, x);
      m[dest + x - l.heapStart := m[src + x - l.heapStart]] == Copied(l, mem, dest, src, x + 1)
  {
    var m := Copied(l, mem, dest, src, x);
    assert m[src + x - l.heapStart] == mem[src + x - l.heapStart];
  }

  lemma CopiedBytes(l: Layout, mem: seq<byte>, dest: nat, src: nat, length: nat)
    requires l.heapStart <= dest && dest + length <= l.heapStart + |mem|
    requires l.heapStart <= src && src + length <= l.heapStart + |mem|
    ensures Bytes(l, Copied(l, mem, dest, src, length), dest, length) == Bytes(l, mem, src, length)
    ensures SameOutside(l, mem, Copied(l, mem, dest, src, length), dest, dest + length)
  {
  }

  /** mem' may be longer; on the bytes of mem it differs only in [lo, hi). */
  ghost predicate SameOutside(l: Layout, mem: seq<byte>, mem': seq<byte>, lo: nat, hi: nat) {
    && |mem| <= |mem'|
    && forall x :: 0 <= x < |mem| && !(lo <= x + l.heapStart < hi) ==> mem'[x] == mem[x]
  }

  /** A chunk outside the changed stretch keeps its tags and its payload. */
  lemma TaggedKept(l: Layout, mem: seq<byte>, mem': seq<byte>, c: Chunk, lo: nat, hi: nat)
    requires Tagged(l, mem, c) && SameOutside(l, mem, mem', lo, hi) && (c.End(l) <= lo || hi <= c.addr)
    ensures Tagged(l, mem', c) && Payload(l, mem', c) == Payload(l, mem, c)
  {
    var o := c.addr - l.heapStart;
    WordKept(mem, mem', o + 4);
    WordKept(mem, mem', o + l.startSize + c.size);
    WordKept(mem, mem', o + l.startSize + c.size + 4);
  }

  ghost predicate PayloadsKept(l: Layout, mem: seq<byte>, mem': seq<byte>, cs: seq<Chunk>) {
    AllTagged(l, mem, cs) && AllTagged(l, mem', cs) &&
    forall i :: 0 <= i < |cs| ==> Payload(l, mem', cs[i]) == Payload(l, mem, cs[i])
  }

  /** The chunks in front of a changed stretch are untouched. */
  lemma PrefixKept(l: Layout, mem: seq<byte>, mem': seq<byte>, a: seq<Chunk>, lo: nat, hi: nat)
    requires Tiles(l, a, l.heapStart, lo) && AllTagged(l, mem, a) && SameOutside(l, mem, mem', lo, hi)
    ensures PayloadsKept(l, mem, mem', a)
  {
    hide SameOutside, Word;
    forall i | 0 <= i < |a| ensures Tagged(l, mem', a[i]) && Payload(l, mem', a[i]) == Payload(l, mem, a[i]) {
      TilesBounds(l, a, l.heapStart, lo, i);
      TaggedKept(l, mem, mem', a[i], lo, hi);
    }
  }

  /** And so are those behind it. */
  lemma SuffixKept(l: Layout, mem: seq<byte>, mem': seq<byte>, b: seq<Chunk>, lo: nat, hi: nat, end: nat)
    requires Tiles(l, b, hi, end) && AllTagged(l, mem, b) && SameOutside(l, mem, mem', lo, hi)
    ensures PayloadsKept(l, mem, mem', b)
  {
    hide SameOutside, Word;
    forall i | 0 <= i < |b| ensures Tagged(l, mem', b[i]) && Payload(l, mem', b[i]) == Payload(l, mem, b[i]) {
      TilesBounds(l, b, hi, end, i);
      TaggedKept(l, mem, mem', b[i], lo, hi);
    }
  }

  /** mark_chunck as a function on memory. */
  function Marked(l: Layout, mem: seq<byte>, c: Chunk): (mem': seq<byte>)
    requires l.startSize >= 8 && l.endSize >= 8 && l.heapStart <= c.addr
    requires c.End(l) <= l.heapStart + |mem| && c.size < TWO_32
    ensures |mem'| == |mem|
  {
    var o := c.addr - l.heapStart;
    var e := o + l.startSize + c.size;
    var flag: byte := if c.free then 1 else 0;
    PutWord(PutWord(PutWord(mem[o := flag], o + 4, c.size), e, c.size), e + 4, CANARY)
  }

  /** The four fields of a marked chunk. */
  lemma MarkedFields(l: Layout, mem: seq<byte>, c: Chunk)
    requires l.startSize >= 8 && l.endSize >= 8 && l.heapStart <= c.addr
    requires c.End(l) <= l.heapStart + |mem| && c.size < TWO_32
    ensures var m, o, e := Marked(l, mem, c), c.addr - l.heapStart, c.addr - l.heapStart + l.startSize + c.size;
      && m[o] == (if c.free then 1 else 0) && Word(m, o + 4) == c.size
      && Word(m, e) == c.size && Word(m, e + 4) == 0xCAFE_BABE
  {
    hide PutWord, Word;
    var o, e := c.addr - l.heapStart, c.addr - l.heapStart + l.startSize + c.size;
    var flag: byte := if c.free then 1 else 0;
    var m0 := mem[o := flag];
    var m1 := PutWord(m0, o + 4, c.size);
    var m2 := PutWord(m1, e, c.size);
    var m3 := PutWord(m2, e + 4, CANARY);
    WordKept(m1, m2, o + 4);
    WordKept(m2, m3, o + 4);
    WordKept(m2, m3, e);
  }

  lemma MarkedTagged(l: Layout, mem: seq<byte>, c: Chunk)
    requires l.startSize >= 8 && l.endSize >= 8 && l.heapStart <= c.addr
    requires c.End(l) <= l.heapStart + |mem| && c.size < TWO_32
    ensures Tagged(l, Marked(l, mem, c), c)
    ensures SameOutside(l, mem, Marked(l, mem, c), c.addr, c.End(l))
    ensures var mem' := Marked(l, mem, c);
      forall x :: 0 <= x < |mem| && mem'[x] != mem[x] ==>
        c.addr <= x + l.heapStart < c.addr + 8 || c.addr + l.startSize + c.size <= x + l.heapStart < c.End(l)
  {
    hide PutWord;
    var o := c.addr - l.heapStart;
    var e := o + l.startSize + c.size;
    var flag: byte := if c.free then 1 else 0;
    var m0 := mem[o := flag];
    var m1 := PutWord(m0, o + 4, c.size);
    var m2 := PutWord(m1, e, c.size);
    var m3 := PutWord(m2, e + 4, CANARY);
    WordKept(m1, m2, o + 4);
    WordKept(m2, m3, o + 4);
    WordKept(m2, m3, e);
  }
}
