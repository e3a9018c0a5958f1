/** 32-bit fields in byte memory. */
module LittleEndian {
  import opened Words

  /** The number bytes stand for, the first one being the lowest. */
  function Value(bytes: seq<byte>): nat {
    if bytes == [] then 0 else bytes[0] + 256 * Value(bytes[1..])
  }

  /** A byte behind counts 256 to the number of bytes before it. */
  lemma {:induction false} ValueAppend(bytes: seq<byte>, b: byte)
    ensures Value(bytes + [b]) == Value(bytes) + b * Pow2(8 * |bytes|)
  {
    hide Pow2;
    if bytes == [] {
      assert bytes + [b] == [b] && [b][1..] == [];
      assert Value([b][1..]) == 0;
      OneByte();
    } else {
      assert (bytes + [b])[1..] == bytes[1..] + [b];
      ValueAppend(bytes[1..], b);
      NextByte(|bytes|);
      Scale(b, Pow2(8 * |bytes[1..]|));
    }
  }

  lemma OneByte()
    ensures Pow2(0) == 1
  {
  }

  lemma NextByte(k: nat)
    requires k > 0
    ensures Pow2(8 * k) == 256 * Pow2(8 * (k - 1))
  {
    hide Pow2;
    Pow2Add(8, 8 * (k - 1));
    EightBits();
  }

  lemma EightBits()
    ensures Pow2(8) == 256
  {
    assert Pow2(4) == 16;
  }

  lemma Scale(b: int, p: int)
    ensures 256 * (b * p) == b * (256 * p)
  {
  }

  function FromBytes(a: int, b: int, c: int, d: int): nat
    requires 0 <= a < 256 && 0 <= b < 256 && 0 <= c < 256 && 0 <= d < 256
  {
    a + 0x100 * b + 0x1_0000 * c + 0x100_0000 * d
  }

  lemma BytesOf(v: nat)
    requires v < TWO_32
    ensures 0 <= v / 0x100_0000 < 256
    ensures FromBytes(v % 0x100, v / 0x100 % 0x100, v / 0x1_0000 % 0x100, v / 0x100_0000) == v
  {
    var w := v / 0x100;
    Shifted(v, w);
    assert v == v % 0x100 + 0x100 * w;
    assert w == w % 0x100 + 0x100 * (w / 0x100);
    assert w / 0x100 == w / 0x100 % 0x100 + 0x100 * (w / 0x100 / 0x100);
  }

  lemma Shifted(v: nat, w: nat)
    requires w == v / 0x100
    ensures v / 0x1_0000 == w / 0x100 && v / 0x100_0000 == w / 0x1_0000 == w / 0x100 / 0x100
  {
  }

  /** The little-endian 32-bit field at offset o. */
  function Word(mem: seq<byte>, o: nat): nat
    requires o + 4 <= |mem|
  {
    FromBytes(mem[o], mem[o + 1], mem[o + 2], mem[o + 3])
  }

  function PutWord(mem: seq<byte>, o: nat, v: nat): (mem': seq<byte>)
    requires o + 4 <= |mem| && v < TWO_32
    ensures |mem'| == |mem| && Word(mem', o) == v
    ensures forall x :: 0 <= x < |mem| && !(o <= x < o + 4) ==> mem'[x] == mem[x]
  {
    BytesOf(v);
    var a: byte, b: byte, c: byte, d: byte := v % 0x100, v / 0x100 % 0x100, v / 0x1_0000 % 0x100, v / 0x100_0000;
    mem[o := a][o + 1 := b][o + 2 := c][o + 3 := d]
  }

  /** The 64-bit field at offset o. */
  function Long(mem: seq<byte>, o: nat): (v: nat)
    requires o + 8 <= |mem|
  {
    Word(mem, o) + TWO_32 * Word(mem, o + 4)
  }

  /** The code's reading of a 32-bit field is the number its bytes stand for. */
  lemma WordIsValue(mem: seq<byte>, o: nat)
    requires o + 4 <= |mem|
    ensures Word(mem, o) == Value(mem[o..o + 4])
    ensures Word(mem, o) == mem[o] as int + 0x100 * mem[o + 1] as int + 0x1_0000 * mem[o + 2] as int
      + 0x100_0000 * mem[o + 3] as int < TWO_32
  {
    FourBytes(mem[o..o + 4]);
  }

  lemma FourBytes(bytes: seq<byte>)
    requires |bytes| >= 4
    ensures Value(bytes) == bytes[0] as int + 0x100 * bytes[1] as int + 0x1_0000 * bytes[2] as int
      + 0x100_0000 * bytes[3] as int + TWO_32 * Value(bytes[4..])
    ensures |bytes| == 4 ==> Value(bytes[4..]) == 0
  {
    var b1, b2, b3, b4 := bytes[1..], bytes[1..][1..], bytes[1..][1..][1..], bytes[1..][1..][1..][1..];
    assert b4 == bytes[4..];
    assert Value(b3) == bytes[3] + 256 * Value(b4);
    assert Value(b2) == bytes[2] + 256 * Value(b3);
    assert Value(b1) == bytes[1] + 256 * Value(b2);
  }

  /** And so is its reading of a 64-bit field. */
  lemma LongIsValue(mem: seq<byte>, o: nat)
    requires o + 8 <= |mem|
    ensures Long(mem, o) == Value(mem[o..o + 8]) < TWO_64
    ensures Long(mem, o) == mem[o] as int + 0x100 * mem[o + 1] as int + 0x1_0000 * mem[o + 2] as int
      + 0x100_0000 * mem[o + 3] as int + 0x1_0000_0000 * mem[o + 4] as int + 0x100_0000_0000 * mem[o + 5] as int
      + 0x1_0000_0000_0000 * mem[o + 6] as int + 0x100_0000_0000_0000 * mem[o + 7] as int
  {
    hide Value, Word;
    var bytes := mem[o..o + 8];
    WordIsValue(mem, o);
    WordIsValue(mem, o + 4);
    FourBytes(bytes);
    assert bytes[4..] == mem[o + 4..o + 8];
  }

  lemma WordKept(mem: seq<byte>, mem': seq<byte>, o: nat)
    requires o + 4 <= |mem| && o + 4 <= |mem'|
    requires forall x :: o <= x < o + 4 ==> mem'[x] == mem[x]
    ensures Word(mem', o) == Word(mem, o)
  {
  }
}
