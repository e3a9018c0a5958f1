/** 64-bit division built from the 64-by-32-bit DIV instruction (libk/src/arch/i386/arithmetic.c). */
module Division {
  import opened Words

  /** q is the floor of n / d, said without a division. */
  predicate IsFloor(n: int, d: int, q: int) {
    d > 0 && q * d <= n < q * d + d
  }

  /** x shifted left by n bits, without truncation. */
  function Shl(x: int, n: nat): int {
    x * Pow2(n)
  }

  // ----- arithmetic facts

  lemma MulAtLeast(x: int, c: int)
    requires x >= 1 && c > 0
    ensures x * c >= c
  {
  }

  lemma MulOrder(a: int, b: int, c: int)
    requires c > 0
    ensures a <= b <==> a * c <= b * c
    ensures a < b ==> a * c + c <= b * c
  {
    if a < b {
      MulAtLeast(b - a, c);
      assert (b - a) * c == b * c - a * c;
    } else if a > b {
      MulAtLeast(a - b, c);
      assert (a - b) * c == a * c - b * c;
    }
  }

  lemma MulBounds(a: int, b: int, x: int, y: int)
    requires 0 <= a <= x && 0 <= b <= y
    ensures a * b <= x * y
  {
    assert x * b - a * b == (x - a) * b;
    assert x * y - x * b == x * (y - b);
  }

  lemma Pow2Table()
    ensures Pow2(0) == 1 && Pow2(1) == 2 && Pow2(2) == 4 && Pow2(4) == 16 && Pow2(8) == 256
    ensures Pow2(16) == 65536 && Pow2(31) == TWO_31 && Pow2(32) == TWO_32
  {
    assert Pow2(6) == 64;
    assert Pow2(8) == 256;
    assert Pow2(10) == 1024;
    assert Pow2(12) == 4096;
    assert Pow2(14) == 16384;
    assert Pow2(16) == 65536;
    assert Pow2(18) == 0x4_0000;
    assert Pow2(20) == 0x10_0000;
    assert Pow2(22) == 0x40_0000;
    assert Pow2(24) == 0x100_0000;
    assert Pow2(26) == 0x400_0000;
    assert Pow2(28) == 0x1000_0000;
    assert Pow2(30) == 0x4000_0000;
  }

  lemma FloorOfDivision(n: int, d: int)
    requires d > 0
    ensures IsFloor(n, d, n / d)
  {
  }

  /** A quotient is determined by its remainder bounds. */
  lemma FloorUnique(n: int, d: int, p: int, q: int)
    requires IsFloor(n, d, p) && IsFloor(n, d, q)
    ensures p == q
  {
    MulOrder(p, q, d);
    MulOrder(q, p, d);
  }

  lemma FloorBelow(n: int, d: int, q: int, bound: int)
    requires IsFloor(n, d, q) && n < bound * d
    ensures q < bound
  {
    MulOrder(bound, q, d);
  }

  lemma FloorFits(n: nat, d: int, q: int)
    requires IsFloor(n, d, q)
    ensures 0 <= q <= n
  {
    MulOrder(q + 1, 0, d);
    MulAtMost(q, d);
  }

  lemma MulAtMost(x: int, c: int)
    requires x >= 0 && c > 0
    ensures x <= x * c
  {
  }

  /** Dividing twice is dividing by the product. */
  lemma NestedFloor(n: int, b: int, c: int, p: int, q: int)
    requires IsFloor(n, b, p) && IsFloor(p, c, q)
    ensures IsFloor(n, b * c, q)
  {
    MulAtLeast(b, c);
    MulOrder(q * c, p, b);
    MulOrder(p + 1, q * c + c, b);
    assert (p + 1) * b == p * b + b;
    Distribute(q, c, b);
  }

  lemma Distribute(q: int, c: int, b: int)
    ensures q * c * b == q * (b * c)
    ensures (q * c + c) * b == q * (b * c) + b * c
  {
  }

  // ----- the normalised estimate

  /** v * m is d with its low bits cleared. */
  lemma TruncatedDivisor(d: int, k: int, m: int, v: int)
    requires k >= 1 && m >= 2 && k * m == TWO_32
    requires TWO_63 <= d * k < TWO_64
    requires v == d * k / TWO_32
    ensures TWO_31 <= v < TWO_32
    ensures 0 <= d - v * m < m
    ensures v * m >= TWO_31 * m
  {
    var r := d * k % TWO_32;
    assert d * k == v * TWO_32 + r;
    assert v * TWO_32 == v * m * k by { assert v * m * k == v * (k * m); }
    assert (d - v * m) * k == r;
    MulOrder(0, d - v * m, k);
    MulOrder(m, d - v * m, k);
    MulOrder(TWO_31, v, m);
  }

  /** With quotient Q, the cleared bits cost less than one truncated divisor. */
  lemma EstimateSlack(n: uint64, d: int, k: int, m: int, D: int, w: int, Q: int)
    requires 1 <= k <= TWO_31 && m >= 2 && k * m == TWO_32
    requires d > 0 && TWO_63 <= d * k && D >= TWO_31 * m && 0 <= w < m
    requires Q >= 0 && Q * d <= n
    ensures (Q + 1) * w <= D
  {
    MulOrder(2 * k, Q, d);  // Q < 2k, because 2k * d >= 2^64 > n
    assert 2 * k * d == 2 * (d * k);
    MulBounds(Q + 1, w, 2 * k, m - 1);
    assert 2 * k * (m - 1) == 2 * TWO_32 - 2 * k;
    assert m == 2 ==> k == TWO_31;
    assert m == 3 ==> 3 * k == TWO_32;
  }

  lemma EstimateGap(n: int, D: int, w: int, Q: int, e: int)
    requires D > 0 && w >= 0 && Q >= 0 && (Q + 1) * w <= D
    requires IsFloor(n, D + w, Q) && IsFloor(n, D, e)
    ensures Q <= e <= Q + 1
  {
    var qd, qw := Q * D, Q * w;
    assert Q * (D + w) == qd + qw;
    assert (Q + 1) * w == qw + w;
    assert qw >= 0;
    FloorOrder(n, D, e, Q, qd);
  }

  lemma FloorOrder(n: int, D: int, e: int, Q: int, qd: int)
    requires IsFloor(n, D, e) && qd == Q * D
    requires qd <= n < qd + D + D
    ensures Q <= e <= Q + 1
  {
    MulOrder(e + 1, Q, D);
    MulOrder(Q + 2, e, D);
    assert (Q + 2) * D == qd + D + D;
    assert (e + 1) * D == e * D + D;
  }

  /**
   * k = 2^s moves the top bit of d to bit 63, m = 2^(32-s), and v is the top half of the shifted
   * divisor, so v * m is d with its low 32-s bits cleared.  Dividing by it instead of d gives the
   * true quotient or one more.
   */
  lemma EstimateOffByOne(n: uint64, d: uint64, k: int, m: int, v: int, Q: int, e: int)
    requires 1 <= k <= TWO_31 && m >= 2 && k * m == TWO_32
    requires TWO_63 <= d * k < TWO_64
    requires v == d * k / TWO_32
    requires IsFloor(n, d, Q) && IsFloor(n, v * m, e)
    ensures Q <= e <= Q + 1
  {
    TruncatedDivisor(d, k, m, v);
    FloorFits(n, d, Q);
    EstimateSlack(n, d, k, m, v * m, d - v * m, Q);
    hide IsFloor;
    assert d == v * m + (d - v * m);
    EstimateGap(n, v * m, d - v * m, Q, e);
  }

  /** The estimate as the code computes it: halve n, divide by v, shift the rest of the way. */
  lemma HalvedEstimate(n: uint64, d: uint64, k: int, half: int, v: int, e: int, Q: int, q: int)
    requires 1 <= k <= TWO_31 && half >= 1 && k * (2 * half) == TWO_32
    requires TWO_63 <= d * k < TWO_64 && v == d * k / TWO_32
    requires IsFloor(n / 2, v, e) && IsFloor(e, half, q) && IsFloor(n, d, Q)
    ensures Q <= q <= Q + 1
  {
    assert IsFloor(n, 2, n / 2);
    hide IsFloor;
    NestedFloor(n / 2, v, half, e, q);
    NestedFloor(n, 2, v * half, n / 2, q);
    assert 2 * (v * half) == v * (2 * half);
    EstimateOffByOne(n, d, k, 2 * half, v, Q, q);
  }

  lemma LargeEstimate(n: uint64, d: uint64, s: nat, v: uint32, e: int, Q: int, q: int)
    requires s <= 31
    requires TWO_63 <= Shl(d, s) < TWO_64
    requires v == Shl(d, s) / TWO_32
    requires IsFloor(n / 2, v, e) && IsFloor(e, Pow2(31 - s), q) && IsFloor(n, d, Q)
    ensures Q <= q <= Q + 1
  {
    hide IsFloor, Pow2;
    Pow2Complement(s);
    HalvedEstimate(n, d, Pow2(s), Pow2(31 - s), v, e, Q, q);
  }

  lemma Pow2Complement(s: nat)
    requires s <= 31
    ensures 1 <= Pow2(s) <= TWO_31 && Pow2(s) * (2 * Pow2(31 - s)) == TWO_32
  {
    hide Pow2;
    Pow2Add(s, 31 - s);
    Pow2Table();
    Pow2Monotone(s, 31);
    assert Pow2(s) * (2 * Pow2(31 - s)) == 2 * (Pow2(s) * Pow2(31 - s));
  }

  /** Shifting the top word to bit 31 shifts the whole divisor to bit 63 without loss. */
  lemma ShiftFits(d: uint64, d1: uint32, k: int, m: int)
    requires 1 <= k && m >= 1 && k * m == TWO_32
    requires d1 == d / TWO_32
    requires TWO_31 <= d1 * k < TWO_32
    ensures TWO_63 <= d * k < TWO_64
  {
    var r := d % TWO_32;
    assert d * k == TWO_32 * (d1 * k) + r * k;
    MulOrder(r, TWO_32, k);
    MulOrder(0, r + 1, k);
    MulOrder(d1, m, k);
    assert r * k >= 0;
  }

  /** The two-word case: divl cannot trap. */
  lemma LargeNoTrap(n: uint64, d: uint64, d1: uint32, s: nat)
    requires d1 == d / TWO_32 && s <= 31
    requires TWO_31 <= Shl(d1, s) < TWO_32
    ensures TWO_63 <= Shl(d, s) < TWO_64
    ensures ToU32(ToU64(Shl(d, s)) / TWO_32) == Shl(d, s) / TWO_32
    ensures n / 2 < TWO_32 * (Shl(d, s) / TWO_32)
  {
    hide Pow2, ToU32, ToU64;
    Pow2Complement(s);
    ShiftFits(d, d1, Pow2(s), 2 * Pow2(31 - s));
    HighWord(n, Shl(d, s));
  }

  lemma HighWord(n: uint64, x: int)
    requires TWO_63 <= x < TWO_64
    ensures ToU32(ToU64(x) / TWO_32) == x / TWO_32
    ensures n / 2 < TWO_32 * (x / TWO_32)
  {
  }

  /** The final comparison never underflows and settles between the two candidates. */
  lemma Correction(n: uint64, d: uint64, Q: int, q: int)
    requires IsFloor(n, d, Q) && d <= n && Q <= q <= Q + 1
    ensures q >= 1 && 0 <= (q - 1) * d <= n
    ensures n - (q - 1) * d < d <==> q == Q + 1
  {
    MulOrder(Q, 0, d);
    assert (Q - 1) * d == Q * d - d;
    MulOrder(0, q - 1, d);
  }

  lemma NoUnderflow(n: uint64, d: uint64, q: uint64)
    requires q >= 1 && 0 <= (q - 1) * d <= n
    ensures ToU64(q - 1) == q - 1
    ensures ToU64(n - ToU64(ToU64(q - 1) * d)) == n - (q - 1) * d
  {
  }

  /** The one-word case: the two partial quotients add up. */
  lemma SmallDivisor(n1: int, n0: int, d: int, high: int, low: int)
    requires IsFloor(n1, d, high)
    requires IsFloor(TWO_32 * (n1 - high * d) + n0, d, low)
    ensures IsFloor(TWO_32 * n1 + n0, d, low + TWO_32 * high)
  {
    assert (low + TWO_32 * high) * d == low * d + TWO_32 * (high * d);
  }

  // ----- the code

  /** The DIV instruction: the precondition is exactly "no divide error". */
  method Divl(n: uint64, d: uint32) returns (q: uint32)
    requires d != 0 && n < TWO_32 * d
    ensures IsFloor(n, d, q)
  {
    FloorOfDivision(n, d);
    FloorBelow(n, d, n / d, TWO_32);
    FloorFits(n, d, n / d);
    q := n / d;
  }

  /** Number of leading zero bits: the one n that shifts the top bit of x to position 31. */
  method Nlz(x: uint32) returns (n: nat)
    requires x != 0
    ensures n <= 31
    ensures TWO_31 <= Shl(x, n) < TWO_32
  {
    hide Pow2, Shl, ToU32;
    Pow2Table();
    ShlZero(x);
    n := 0;
    var y: uint32 := x;
    if y <= 0x0000_FFFF {
      ShiftStep(x, y, n, 16, 65536);
      n := n + 16;
      y := ToU32(y * 65536);
    }
    if y <= 0x00FF_FFFF {
      ShiftStep(x, y, n, 8, 256);
      n := n + 8;
      y := ToU32(y * 256);
    }
    if y <= 0x0FFF_FFFF {
      ShiftStep(x, y, n, 4, 16);
      n := n + 4;
      y := ToU32(y * 16);
    }
    if y <= 0x3FFF_FFFF {
      ShiftStep(x, y, n, 2, 4);
      n := n + 2;
      y := ToU32(y * 4);
    }
    if y <= 0x7FFF_FFFF {
      ShiftStep(x, y, n, 1, 2);
      n := n + 1;
    }
  }

  lemma ShlZero(x: int)
    ensures Shl(x, 0) == x
  {
  }

  /** One conditional shift of Nlz keeps y == x shifted by n. */
  lemma ShiftStep(x: int, y: int, n: nat, shift: nat, factor: int)
    requires y == Shl(x, n) && factor == Pow2(shift) && 0 <= y * factor < TWO_32
    ensures ToU32(y * factor) == Shl(x, n + shift) == y * factor
  {
    hide Pow2;
    Pow2Add(n, shift);
    assert x * (Pow2(n) * factor) == x * Pow2(n) * factor;
  }

  method Udiv64(n: uint64, d: uint64) returns (q: uint64)
    requires d != 0
    ensures IsFloor(n, d, q) && q == n / d
  {
    hide IsFloor;
    if d / TWO_32 == 0 {
      q := UdivSmall(n, d);
    } else if n < d {
      q := 0;
    } else {
      q := UdivLarge(n, d);
    }
    if d / TWO_32 != 0 && n < d {
      BelowDivisor(n, d);
    }
    FloorOfDivision(n, d);
    FloorUnique(n, d, q, n / d);
  }

  lemma BelowDivisor(n: nat, d: int)
    requires n < d
    ensures IsFloor(n, d, 0)
  {
  }

  /** The branch of udiv64 for a divisor that fits 32 bits; n1 / d0 and n1 % d0 are 32-bit divisions. */
  method UdivSmall(n: uint64, d: uint64) returns (q: uint64)
    requires 0 < d < TWO_32
    ensures IsFloor(n, d, q)
  {
    hide IsFloor, ToU32, ToU64;
    Halves(n);
    Fits32(d);
    var n1: uint32, n0: uint32, d0: uint32 := n / TWO_32, ToU32(n), ToU32(d);
    var high, rest := DivMod32(n1, d0);
    var low := Divl(TWO_32 * rest + n0, d0);
    SmallDivisor(n1, n0, d0, high, low);
    FloorFits(n, d, low + TWO_32 * high);
    Fits64(low + TWO_32 * high);
    q := ToU64(low + TWO_32 * high);
  }

  lemma Halves(n: uint64)
    ensures 0 <= n / TWO_32 < TWO_32 && n == TWO_32 * (n / TWO_32) + ToU32(n)
  {
  }

  lemma Fits32(x: uint32)
    ensures ToU32(x) == x
  {
  }

  lemma Fits64(x: uint64)
    ensures ToU64(x) == x
  {
  }

  method DivMod32(n: uint32, d: uint32) returns (q: uint32, r: uint32)
    requires d != 0
    ensures IsFloor(n, d, q) && r == n - q * d && r < d
  {
    FloorOfDivision(n, d);
    FloorFits(n, d, n / d);
    q, r := n / d, n % d;
  }

  /** The branch of udiv64 for a divisor of more than 32 bits that is not above n. */
  method UdivLarge(n: uint64, d: uint64) returns (q: uint64)
    requires TWO_32 <= d <= n
    ensures IsFloor(n, d, q)
  {
    hide IsFloor, Shl, Pow2, ToU32, ToU64;
    var d1: uint32 := d / TWO_32;
    var s := Nlz(d1);
    LargeNoTrap(n, d, d1, s);
    var v: uint32 := ToU32(ToU64(Shl(d, s)) / TWO_32);
    var e := Divl(n / 2, v);
    var estimate := ShiftRight(e, 31 - s);
    ghost var Q := FloorExists(n, d);
    LargeEstimate(n, d, s, v, e, Q, estimate);
    q := Choose(n, d, estimate, Q);
  }

  lemma FloorExists(n: int, d: int) returns (q: int)
    requires d > 0
    ensures IsFloor(n, d, q)
  {
    q := n / d;
    FloorOfDivision(n, d);
  }

  method ShiftRight(x: uint32, shift: nat) returns (y: uint32)
    ensures IsFloor(x, Pow2(shift), y)
  {
    hide Pow2;
    FloorOfDivision(x, Pow2(shift));
    FloorFits(x, Pow2(shift), x / Pow2(shift));
    y := x / Pow2(shift);
  }

  /** The last line of udiv64, in wrapping 64-bit arithmetic. */
  method Choose(n: uint64, d: uint64, estimate: uint64, ghost Q: int) returns (q: uint64)
    requires IsFloor(n, d, Q) && d <= n && Q <= estimate <= Q + 1
    ensures IsFloor(n, d, q)
  {
    Correction(n, d, Q, estimate);
    NoUnderflow(n, d, estimate);
    hide IsFloor, ToU64;
    q := if ToU64(n - ToU64(ToU64(estimate - 1) * d)) < d then ToU64(estimate - 1) else estimate;
  }

  /** umod64 returns a 32-bit type: the remainder survives exactly when it fits. */
  method Umod64(n: uint64, d: uint64) returns (r: uint32)
    requires d != 0
    ensures r == ToU32(n % d) == n % d % 0x1_0000_0000
    ensures r == n % d <==> n % d < TWO_32
    ensures d <= TWO_32 ==> r == n % d
  {
    hide IsFloor, ToU32, ToU64;
    Reduced(n % d);
    var q := Udiv64(n, d);
    r := ToU32(ToU64(n - ToU64(d * q)));
    UmodResult(n, d, q, r);
  }

  lemma UmodResult(n: uint64, d: uint64, q: uint64, r: uint32)
    requires IsFloor(n, d, q) && r == ToU32(ToU64(n - ToU64(d * q)))
    ensures r == ToU32(n % d)
    ensures r == n % d <==> n % d < TWO_32
    ensures d <= TWO_32 ==> r == n % d
  {
    hide IsFloor, ToU32, ToU64;
    RemainderOfFloor(n, d, q);
    Difference64(n, d * q);
    Narrowed(n % d);
  }

  /** Subtracting a smaller word does not wrap. */
  lemma Difference64(n: uint64, p: int)
    requires 0 <= p <= n
    ensures ToU64(n - ToU64(p)) == n - p
  {
  }

  lemma Reduced(x: nat)
    ensures ToU32(x) == x % 0x1_0000_0000
  {
  }

  lemma Narrowed(x: nat)
    ensures ToU32(x) == x <==> x < TWO_32
    ensures x <= TWO_32 - 1 ==> ToU32(x) == x
  {
  }

  lemma RemainderOfFloor(n: nat, d: int, q: int)
    requires IsFloor(n, d, q)
    ensures n - d * q == n % d && 0 <= n % d < d
    ensures 0 <= d * q <= n
  {
    FloorOfDivision(n, d);
    FloorUnique(n, d, n / d, q);
    FloorFits(n, d, q);
  }

  function Abs(x: int): (a: nat)
    ensures a == x || a == -x
  {
    if x < 0 then -x else x
  }

  /** C's truncated division: the remainder is smaller than the divisor and has the sign of n. */
  predicate IsTruncated(n: int, d: int, q: int) {
    var r := n - q * d;
    Abs(r) < Abs(d) && (r == 0 || (r < 0 <==> n < 0))
  }

  /** The remainder that goes with it. */
  function TruncRem(n: int, d: int): int
    requires d != 0
  {
    if n >= 0 then n % Abs(d) else -((-n) % Abs(d))
  }

  /** From the floor of the absolute values to the truncated quotient, in the two sign cases. */
  lemma SignedFromFloor(n: int, d: int, a: int)
    requires d != 0 && IsFloor(Abs(n), Abs(d), a)
    ensures a >= 0
    ensures (n < 0) == (d < 0) ==> n - a * d == TruncRem(n, d)
    ensures (n < 0) != (d < 0) ==> n - (-a) * d == TruncRem(n, d)
    ensures Abs(TruncRem(n, d)) < Abs(d) && (TruncRem(n, d) == 0 || (TruncRem(n, d) < 0 <==> n < 0))
  {
    RemainderOfFloor(Abs(n), Abs(d), a);
    FloorFits(Abs(n), Abs(d), a);
    assert a * (-d) == -(a * d) == (-a) * d;
  }

  /** Only the quotient 2^63, of INT64_MIN by -1, does not fit. */
  lemma SignedQuotientFits(n: int64, d: int64, a: int)
    requires d != 0 && IsFloor(Abs(n), Abs(d), a)
    ensures 0 <= a <= TWO_63
    ensures a == TWO_63 ==> n == -TWO_63 && Abs(d) == 1
  {
    FloorFits(Abs(n), Abs(d), a);
    if Abs(d) >= 2 {
      MulOrder(2, Abs(d), a + 1);
    }
  }

  method Sdiv64(n: int64, d: int64) returns (q: int64)
    requires d != 0
    ensures IsTruncated(n, d, q) <==> !(n == -TWO_63 && d == -1)
    ensures q == -TWO_63 <== n == -TWO_63 && d == -1
    ensures ToI64(n - ToI64(d * q)) == TruncRem(n, d)
    ensures var a := Abs(n) / Abs(d);
      !(n == -0x8000_0000_0000_0000 && d == -1) ==> q == if (n < 0) == (d < 0) then a else -a
  {
    hide IsFloor, IsTruncated, TruncRem, ToI64;
    AbsWord(n);
    AbsWord(d);
    var nAbs: uint64 := if n >= 0 then n else ToU64(-ToU64(n));
    var dAbs: uint64 := if d >= 0 then d else ToU64(-ToU64(d));
    var qAbs := Udiv64(nAbs, dAbs);
    q := if (n < 0) == (d < 0) then ToI64(qAbs) else ToI64(-ToI64(qAbs));
    SignedResult(n, d, qAbs, q);
    SignedIsQuotient(n, d, qAbs, q);
  }

  /** The magnitude of the result is the quotient of the magnitudes. */
  lemma SignedIsQuotient(n: int64, d: int64, a: int, q: int64)
    requires d != 0 && IsFloor(Abs(n), Abs(d), a)
    requires q == if (n < 0) == (d < 0) then ToI64(a) else ToI64(-ToI64(a))
    ensures var b := Abs(n) / Abs(d);
      !(n == -0x8000_0000_0000_0000 && d == -1) ==> q == if (n < 0) == (d < 0) then b else -b
  {
    hide IsFloor, ToI64;
    SignedQuotientFits(n, d, a);
    FloorOfDivision(Abs(n), Abs(d));
    FloorUnique(Abs(n), Abs(d), a, Abs(n) / Abs(d));
    WordFits(a);
    if a == TWO_63 {
      FullQuotient(n, d, a);
    }
  }

  /** The quotient 2^63 is that of INT64_MIN by 1 or -1. */
  lemma FullQuotient(n: int64, d: int64, a: int)
    requires d != 0 && IsFloor(Abs(n), Abs(d), a) && a == TWO_63
    ensures n == -TWO_63 && (d == 1 || d == -1)
  {
    SignedQuotientFits(n, d, a);
  }

  lemma AbsWord(x: int64)
    ensures x < 0 ==> ToU64(-ToU64(x)) == Abs(x)
  {
  }

  lemma SignedResult(n: int64, d: int64, a: int, q: int64)
    requires d != 0 && IsFloor(Abs(n), Abs(d), a)
    requires q == if (n < 0) == (d < 0) then ToI64(a) else ToI64(-ToI64(a))
    ensures IsTruncated(n, d, q) <==> !(n == -TWO_63 && d == -1)
    ensures q == -TWO_63 <== n == -TWO_63 && d == -1
    ensures ToI64(n - ToI64(d * q)) == TruncRem(n, d)
  {
    hide IsFloor, IsTruncated, TruncRem, ToI64;
    SignedQuotientFits(n, d, a);
    if n == -TWO_63 && d == -1 {
      SignedOverflow(a);
    } else {
      WordFits(a);
      SignedRegular(n, d, a, q);
    }
  }

  lemma WordFits(a: int)
    requires 0 <= a <= TWO_63
    ensures a < TWO_63 ==> ToI64(a) == a && ToI64(-a) == -a
    ensures ToI64(a) == (if a == TWO_63 then -TWO_63 else a) && ToI64(-ToI64(a)) == -a
  {
  }

  /** INT64_MIN by -1: the quotient 2^63 wraps to INT64_MIN. */
  lemma SignedOverflow(a: int)
    requires IsFloor(TWO_63, 1, a)
    ensures ToI64(a) == -TWO_63 && !IsTruncated(-TWO_63, -1, -TWO_63)
    ensures ToI64(-TWO_63 - ToI64(-1 * -TWO_63)) == TruncRem(-TWO_63, -1)
  {
    assert a == TWO_63;
  }

  lemma SignedRegular(n: int64, d: int64, a: int, q: int64)
    requires d != 0 && IsFloor(Abs(n), Abs(d), a)
    requires q == if (n < 0) == (d < 0) then a else -a
    ensures IsTruncated(n, d, q)
    ensures ToI64(n - ToI64(d * q)) == TruncRem(n, d)
  {
    hide IsFloor, TruncRem, ToI64;
    SignedFromFloor(n, d, a);
    assert d * q == q * d;
    SignedProductFits(n, TruncRem(n, d), d * q);
  }

  lemma SignedProductFits(n: int64, r: int, p: int)
    requires n - p == r && Abs(r) < TWO_63 && (r == 0 || (r < 0 <==> n < 0))
    ensures ToI64(n - ToI64(p)) == r
  {
  }

  method Smod64(n: int64, d: int64) returns (r: int32)
    requires d != 0
    ensures r == ToI32(TruncRem(n, d))
    ensures r == TruncRem(n, d) <==> -TWO_31 <= TruncRem(n, d) < TWO_31
    ensures Abs(d) <= TWO_31 ==> r == TruncRem(n, d)
  {
    hide TruncRem, ToI64, ToI32, IsTruncated;
    var q := Sdiv64(n, d);
    r := ToI32(ToI64(n - ToI64(d * q)));
    RemBound(n, d);
    NarrowedSigned(TruncRem(n, d));
  }

  lemma NarrowedSigned(x: int)
    ensures ToI32(x) == x <==> -TWO_31 <= x < TWO_31
  {
  }

  lemma RemBound(n: int, d: int)
    requires d != 0
    ensures Abs(TruncRem(n, d)) < Abs(d)
  {
  }
}
