/** The memory map a boot loader passes: section 3.3 of the Multiboot Specification 0.6.96. */
module Multiboot {
  import opened Words
  import opened LittleEndian
  import opened Frames

  /** One entry, by its bytes: behind a size field of four, address, length and type. */
  ghost predicate EntryAt(mmap: seq<byte>, o: nat, r: Region) {
    && o + 24 <= |mmap| && Value(mmap[o + 4..o + 12]) == r.addr && Value(mmap[o + 12..o + 20]) == r.len
    && (Value(mmap[o + 20..o + 24]) == 1 <==> r.usable)
  }

  /** From o the map is the entries rs; each says where the next one is, and the last one ends the map. */
  ghost predicate MapAt(mmap: seq<byte>, o: nat, rs: seq<Region>)
    decreases |rs|
  {
    if rs == [] then o == |mmap|
    else EntryAt(mmap, o, rs[0]) && MapAt(mmap, o + 4 + Value(mmap[o..o + 4]), rs[1..])
  }

  /** Whether the loop goes on, and what it reads. */
  lemma MapHead(mmap: seq<byte>, o: nat, rs: seq<Region>)
    requires MapAt(mmap, o, rs)
    ensures o < |mmap| <==> rs != []
    ensures rs != [] ==> EntryAt(mmap, o, rs[0]) && MapAt(mmap, o + 4 + Word(mmap, o), rs[1..])
  {
    if rs != [] {
      WordIsValue(mmap, o);
    }
  }

  /** What the loop reads of an entry is what its bytes say. */
  lemma EntryRead(mmap: seq<byte>, o: nat, r: Region)
    requires EntryAt(mmap, o, r)
    ensures o + 24 <= |mmap| && Long(mmap, o + 4) == r.addr && Long(mmap, o + 12) == r.len
    ensures Word(mmap, o + 20) == 1 <==> r.usable
  {
    LongIsValue(mmap, o + 4);
    LongIsValue(mmap, o + 12);
    WordIsValue(mmap, o + 20);
  }
}
