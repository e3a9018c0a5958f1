/** Stack slots: bitmap search and address arithmetic (mm/stack.c, sched/process.c), in 32-bit words. */
module Stacks {
  import opened Words

  const SLOT_SIZE: nat := 0x4000

  predicate Bit(field: bv32, i: bv32)
    requires i < 32
  {
    field & (1 << i) != 0
  }

  /** find_free_bit: the first 0 bit, None when there is none. */
  method FindFreeBit(bitfield: bv32) returns (found: bool, bit: bv32)
    ensures found ==> bit < 32 && !Bit(bitfield, bit) && forall k: bv32 :: k < bit ==> Bit(bitfield, k)
    ensures !found <==> forall k: bv32 :: k < 32 ==> Bit(bitfield, k)
  {
    found, bit := false, 0;
    if bitfield == 0xFFFF_FFFF {
      AllSet();
      return;
    }
    while bit < 32
      invariant bit <= 32 && forall k: bv32 :: k < bit ==> Bit(bitfield, k)
      decreases 32 - bit
    {
      var test: bv32 := 1 << bit;
      if bitfield & test != test {
        SingleBit(bitfield, bit);
        return true, bit;
      }
      SingleBit(bitfield, bit);
      bit := bit + 1;
    }
  }

  lemma AllSet()
    ensures forall k: bv32 :: k < 32 ==> Bit(0xFFFF_FFFF, k)
  {
  }

  lemma SingleBit(field: bv32, i: bv32)
    requires i < 32
    ensures Bit(field, i) <==> field & (1 << i) == 1 << i
  {
  }

  /** Taking a slot sets its bit and no other; giving it back clears it and no other. */
  lemma TakeAndGive(field: bv32, i: bv32, k: bv32)
    requires i < 32 && k < 32
    ensures Bit(field | (1 << i), k) <==> k == i || Bit(field, k)
    ensures Bit(field & !(1 << i), k) <==> k != i && Bit(field, k)
  {
  }

  // ----- addresses

  /** The address behind slot n: stacks grow down from `start`, in 32-bit arithmetic. */
  function StackTop(start: uint32, n: uint32): uint32 {
    ToU32(start - n * SLOT_SIZE)
  }

  /** The first address of slot n. */
  function Base(start: uint32, n: uint32): uint32 {
    ToU32(StackTop(start, n) - SLOT_SIZE)
  }

  /** The slot mm_free_stack computes from a stack pointer. */
  function SlotOf(start: uint32, sp: uint32): uint32 {
    ToU32(start - sp) / SLOT_SIZE
  }

  /** Slot n lies below `start`. */
  predicate Slot(start: uint32, n: uint32) {
    start % SLOT_SIZE == 0 && (n + 1) * SLOT_SIZE <= start
  }

  /** mm_free_stack finds slot n from exactly the pointers above its first byte, up to and including its end. */
  lemma SlotRecovered(start: uint32, n: uint32, sp: uint32)
    requires Slot(start, n)
    ensures SlotOf(start, sp) == n <==> Base(start, n) < sp <= StackTop(start, n)
  {
    hide ToU32;
    SlotRange(start, n);
    Below(start, sp);
  }

  /** Within the region nothing wraps. */
  lemma SlotRange(start: uint32, n: uint32)
    requires Slot(start, n)
    ensures StackTop(start, n) == start - n * 4 * 4096 && Base(start, n) == start - (n + 1) * 4 * 4096
    ensures Base(start, n) % SLOT_SIZE == 0
  {
  }

  lemma Below(start: uint32, sp: uint32)
    ensures ToU32(start - sp) == if sp <= start then start - sp else start - sp + TWO_32
    ensures sp <= start ==> SlotOf(start, sp) == (start - sp) / 0x4000
  {
  }

  /** Slots are 16 KiB blocks; no address is in two of them. */
  lemma SlotsDisjoint(start: uint32, m: uint32, n: uint32, address: uint32)
    requires Slot(start, m) && Slot(start, n)
    requires Base(start, m) <= address < StackTop(start, m) && Base(start, n) <= address < StackTop(start, n)
    ensures m == n && Base(start, n) % SLOT_SIZE == 0 && StackTop(start, n) == Base(start, n) + SLOT_SIZE
  {
    hide StackTop, Base;
    SlotRange(start, m);
    SlotRange(start, n);
  }

  /** current_process_control_block_ptr. */
  function CurrentPcbSlot(esp: bv32): bv32 {
    (esp & 0xFFFF_D000) | 0x3FF8
  }

  /** Where mm_alloc_stack stores the control block pointer of the stack at base. */
  function PcbSlot(base: bv32): bv32 {
    base | 0x3FF8
  }

  /** The first address of the 16 KiB block x lies in. */
  function Block(x: bv32): bv32 {
    x & 0xFFFF_C000
  }

  lemma BlockAround(x: bv32)
    ensures Block(x) <= x <= Block(x) | 0x3FFF
  {
  }

  /** The control block pointer stands 8 bytes below the end of its slot. */
  lemma PcbPlace(base: bv32)
    requires Block(base) == base
    ensures PcbSlot(base) & 0x3FFF == 0x3FF8 && PcbSlot(base) & 0xFFFF_C000 == base
  {
  }

  /** Masking the stack pointer gives the control block pointer of exactly the slot the pointer lies in. */
  lemma PcbFound(base: bv32, esp: bv32)
    requires Block(base) == base
    ensures CurrentPcbSlot(esp) == PcbSlot(base) <==> Block(esp) == base
  {
    hide *;
    OneMask(esp);
    BlockBack(base);
    BlockBack(esp);
  }

  lemma OneMask(esp: bv32)
    ensures CurrentPcbSlot(esp) == PcbSlot(Block(esp))
  {
  }

  lemma BlockBack(x: bv32)
    ensures Block(PcbSlot(Block(x))) == Block(x)
  {
  }
}
