/** The number printer of libk/src/all/stdio/printf.c, with its 64-bit / and % taken through Division. */
module Printf {
  import opened Words
  import Division

  const MAX_NUMBER_LENGTH := 22
  const LOWER_DIGITS := "0123456789abcdef"
  const UPPER_DIGITS := "0123456789ABCDEF"

  function Alphabet(uppercase: bool): string {
    if uppercase then UPPER_DIGITS else LOWER_DIGITS
  }

  /** What a reader takes a digit character for. */
  function DigitValue(c: char): nat {
    if '0' <= c <= '9' then c as int - '0' as int
    else if 'a' <= c <= 'f' then c as int - 'a' as int + 10
    else if 'A' <= c <= 'F' then c as int - 'A' as int + 10
    else 0
  }

  /** Positional value of a numeral, most significant digit first. */
  function Eval(s: string, base: nat): nat {
    if s == [] then 0 else Eval(s[..|s| - 1], base) * base + DigitValue(s[|s| - 1])
  }

  /** Positional value of the reversed buffer, least significant digit first. */
  function EvalReversed(s: string, base: nat): nat {
    if s == [] then 0 else DigitValue(s[0]) + base * EvalReversed(s[1..], base)
  }

  function Pow(base: nat, e: nat): nat {
    if e == 0 then 1 else base * Pow(base, e - 1)
  }

  function Reversed(s: string): string {
    seq(|s|, i requires 0 <= i < |s| => s[|s| - 1 - i])
  }

  predicate IsDigit(c: char, base: nat, uppercase: bool) {
    c in Alphabet(uppercase) && DigitValue(c) < base
  }

  /** s is the numeral of i: digits of the base only, the right value, no leading zero but in "0". */
  predicate IsNumeral(s: string, i: nat, base: nat, uppercase: bool) {
    && s != []
    && (forall k :: 0 <= k < |s| ==> IsDigit(s[k], base, uppercase))
    && Eval(s, base) == i
    && (s[0] == '0' ==> s == "0")
  }

  /** Overrun is the write of reversed[22]; DivideError the trap of the first division. */
  datatype Outcome = Panic | DivideError | Overrun | Printed(output: string, count: int)

  lemma AlphabetValue(d: nat, uppercase: bool)
    requires d < 16
    ensures DigitValue(Alphabet(uppercase)[d]) == d
  {
    if uppercase {
      assert UPPER_DIGITS[d] as int == if d < 10 then 48 + d else 55 + d;
    } else {
      assert LOWER_DIGITS[d] as int == if d < 10 then 48 + d else 87 + d;
    }
  }

  lemma AlphabetIndex(c: char, uppercase: bool)
    requires c in Alphabet(uppercase)
    ensures DigitValue(c) < 16 && Alphabet(uppercase)[DigitValue(c)] == c
  {
    var d :| 0 <= d < 16 && Alphabet(uppercase)[d] == c;
    AlphabetValue(d, uppercase);
  }

  lemma PowPositive(base: nat, e: nat)
    requires base >= 1
    ensures Pow(base, e) >= 1
  {
  }

  lemma {:induction false} PowMonotone(a: nat, b: nat, e: nat)
    requires a <= b
    ensures Pow(a, e) <= Pow(b, e)
  {
    if e != 0 {
      PowMonotone(a, b, e - 1);
      Division.MulBounds(a, Pow(a, e - 1), b, Pow(b, e - 1));
    }
  }

  lemma {:induction false} PowExponent(base: nat, e: nat, f: nat)
    requires base >= 1 && e <= f
    ensures Pow(base, e) <= Pow(base, f)
  {
    if e < f {
      PowExponent(base, e, f - 1);
      Division.MulBounds(1, Pow(base, f - 1), base, Pow(base, f - 1));
    }
  }

  /** Appending a digit to the reversed buffer adds it at the next power. */
  lemma {:induction false} EvalAppend(s: string, c: char, base: nat)
    ensures EvalReversed(s + [c], base) == EvalReversed(s, base) + DigitValue(c) * Pow(base, |s|)
  {
    if s == [] {
      assert s + [c] == [c] && [c][1..] == [];
      assert EvalReversed([c], base) == DigitValue(c) + base * EvalReversed([], base);
    } else {
      assert (s + [c])[1..] == s[1..] + [c];
      EvalAppend(s[1..], c, base);
      Distribute3(base, EvalReversed(s[1..], base), DigitValue(c), Pow(base, |s| - 1));
    }
  }

  lemma Distribute3(b: int, x: int, d: int, p: int)
    ensures b * (x + d * p) == b * x + d * (b * p)
  {
  }

  lemma ReversedTail(s: string)
    ensures |Reversed(s)| == |s|
    ensures s != [] ==> Reversed(s)[..|s| - 1] == Reversed(s[1..]) && Reversed(s)[|s| - 1] == s[0]
  {
  }

  /** Reading the reversal most significant digit first gives the same value. */
  lemma {:induction false} EvalOfReversed(s: string, base: nat)
    ensures Eval(Reversed(s), base) == EvalReversed(s, base)
  {
    hide DigitValue, Reversed;
    ReversedTail(s);
    if s != [] {
      EvalOfReversed(s[1..], base);
    }
  }

  /** What the digit loop keeps: the digits written plus the rest still to convert give i. */
  predicate Converting(i: nat, base: nat, digits: string, remain: nat) {
    i == EvalReversed(digits, base) + remain * Pow(base, |digits|)
  }

  lemma ConvertDigit(i: nat, base: nat, digits: string, remain: nat, q: nat, c: char)
    requires Converting(i, base, digits, remain) && base > 0
    requires remain == q * base + DigitValue(c)
    ensures Converting(i, base, digits + [c], q)
  {
    EvalAppend(digits, c, base);
    assert |digits + [c]| == |digits| + 1;
    ConvertSplit(q, base, DigitValue(c), Pow(base, |digits|));
  }

  lemma ConvertSplit(q: int, base: int, d: int, p: int)
    ensures (q * base + d) * p == d * p + q * (base * p)
  {
  }

  /** Digits of the base: w of them make a value below base^w. */
  lemma {:induction false} EvalBelow(s: string, base: nat)
    requires forall k :: 0 <= k < |s| ==> DigitValue(s[k]) < base
    ensures EvalReversed(s, base) < Pow(base, |s|)
  {
    hide DigitValue;
    if s != [] {
      EvalBelow(s[1..], base);
      OneMoreDigit(DigitValue(s[0]), base, EvalReversed(s[1..], base), Pow(base, |s| - 1));
    }
  }

  lemma OneMoreDigit(d: nat, base: nat, x: nat, p: nat)
    requires d < base && x < p
    ensures d + base * x < base * p
  {
    Division.MulOrder(x, p, base);
  }

  /** printf_u for every value and base. */
  method PrintfU(i: uint64, base: nat, uppercase: bool) returns (r: Outcome)
    ensures r == Panic <==> base > 16
    ensures r == DivideError <==> base == 0 && i > 0
    ensures r == Overrun <==> 1 <= base <= 16 && i >= Pow(base, 22)
    ensures r.Printed? && base > 0 ==> IsNumeral(r.output, i, base, uppercase) && Eval(r.output, base) == i
    ensures r.Printed? && base > 0 ==> r.output != "" && (r.output[0] == '0' ==> r.output == "0")
    ensures r.Printed? && base > 0 ==> forall k :: 0 <= k < |r.output| ==>
      var c := r.output[k];
      ('0' <= c <= '9' || if uppercase then 'A' <= c <= 'F' else 'a' <= c <= 'f') && DigitValue(c) < base
    ensures r.Printed? ==> r.count == |r.output| <= 22 && (i == 0 ==> r.output == "0")
  {
    hide Eval, EvalReversed, Pow, IsNumeral, IsDigit, DigitValue, Reversed;
    if base > 16 {
      return Panic;
    }
    var digits := Alphabet(uppercase);
    if i == 0 {
      ZeroNumeral(base, uppercase);
      if base > 0 {
        NumeralMeans("0", 0, base, uppercase);
      }
      return Printed([digits[0]], 1);
    }
    if base == 0 {
      return DivideError;
    }
    var reversed := new char[MAX_NUMBER_LENGTH];
    var written, overrun := FillReversed(i, base, digits, uppercase, reversed);
    if overrun {
      return Overrun;
    }
    NumeralFromDigits(i, base, uppercase, reversed[..written]);
    var output := PutReversed(reversed, written);
    NumeralMeans(output, i, base, uppercase);
    r := Printed(output, written);
  }

  /** A numeral, character by character. */
  lemma NumeralMeans(s: string, i: nat, base: nat, uppercase: bool)
    requires IsNumeral(s, i, base, uppercase)
    ensures Eval(s, base) == i && s != "" && (s[0] == '0' ==> s == "0")
    ensures forall k :: 0 <= k < |s| ==>
      ('0' <= s[k] <= '9' || if uppercase then 'A' <= s[k] <= 'F' else 'a' <= s[k] <= 'f') && DigitValue(s[k]) < base
  {
    hide Eval, DigitValue;
    forall k | 0 <= k < |s|
      ensures ('0' <= s[k] <= '9' || if uppercase then 'A' <= s[k] <= 'F' else 'a' <= s[k] <= 'f') && DigitValue(s[k]) < base
    {
      assert IsDigit(s[k], base, uppercase);
      InAlphabet(s[k], uppercase);
    }
  }

  lemma InAlphabet(c: char, uppercase: bool)
    ensures c in Alphabet(uppercase) <==> '0' <= c <= '9' || if uppercase then 'A' <= c <= 'F' else 'a' <= c <= 'f'
  {
    forall d | 0 <= d < 16
      ensures Alphabet(uppercase)[d] as int == if d < 10 then 48 + d else if uppercase then 55 + d else 87 + d
    {
      AlphabetCode(d, uppercase);
    }
    var d := c as int - if c <= '9' then 48 else if uppercase then 55 else 87;
    if '0' <= c <= '9' || if uppercase then 'A' <= c <= 'F' else 'a' <= c <= 'f' {
      assert Alphabet(uppercase)[d] == c;
    }
  }

  lemma AlphabetCode(d: nat, uppercase: bool)
    requires d < 16
    ensures Alphabet(uppercase)[d] as int == if d < 10 then 48 + d else if uppercase then 55 + d else 87 + d
  {
  }

  /** Reading a numeral: every digit behind multiplies what is before it by the base. */
  lemma EvalDigits(s: string, c: char, base: nat)
    ensures Eval("", base) == 0 && Eval(s + [c], base) == Eval(s, base) * base + DigitValue(c)
    ensures '0' <= c <= '9' ==> DigitValue(c) == c as int - 48
    ensures 'A' <= c <= 'F' ==> DigitValue(c) == c as int - 55
    ensures 'a' <= c <= 'f' ==> DigitValue(c) == c as int - 87
  {
    assert (s + [c])[..|s|] == s;
  }

  lemma ZeroNumeral(base: nat, uppercase: bool)
    ensures [Alphabet(uppercase)[0]] == "0"
    ensures base > 0 ==> IsNumeral("0", 0, base, uppercase) && Pow(base, MAX_NUMBER_LENGTH) > 0
  {
    hide Eval, Pow;
    ZeroValue(base);
    if base > 0 {
      PowPositive(base, MAX_NUMBER_LENGTH);
      assert Alphabet(uppercase)[0] == '0';
    }
  }

  /** The output loop of printf_u. */
  method PutReversed(reversed: array<char>, written: nat) returns (output: string)
    requires written <= reversed.Length
    ensures output == Reversed(reversed[..written])
  {
    output := "";
    var j := written - 1;
    while j >= 0
      invariant -1 <= j < written && |output| == written - 1 - j
      invariant forall k :: 0 <= k < |output| ==> output[k] == reversed[written - 1 - k]
    {
      output := output + [reversed[j]];
      j := j - 1;
    }
  }

  /** What the loop has made of i after `written` rounds. */
  ghost predicate Filled(i: nat, base: nat, uppercase: bool, digits: string, remain: nat) {
    && (forall k :: 0 <= k < |digits| ==> IsDigit(digits[k], base, uppercase))
    && Converting(i, base, digits, remain)
    && (remain == 0 ==> digits != [] && DigitValue(digits[|digits| - 1]) != 0)
  }

  /** The digit loop of printf_u.  Its own guard, written > 22, comes one round too late to stop the overrun. */
  method FillReversed(i: uint64, base: nat, digits: string, uppercase: bool, reversed: array<char>)
    returns (written: nat, overrun: bool)
    requires i > 0 && 1 <= base <= 16
    requires digits == Alphabet(uppercase) && reversed.Length == MAX_NUMBER_LENGTH
    modifies reversed
    ensures written <= MAX_NUMBER_LENGTH && (overrun <==> i >= Pow(base, MAX_NUMBER_LENGTH))
    ensures !overrun ==> Filled(i, base, uppercase, reversed[..written], 0)
  {
    hide Pow, Filled, IsDigit;
    written, overrun := 0, false;
    var remain: uint64 := i;
    NothingFilled(i, base, uppercase, reversed[..0]);
    while remain != 0
      invariant written <= MAX_NUMBER_LENGTH && Filled(i, base, uppercase, reversed[..written], remain)
      decreases MAX_NUMBER_LENGTH - written
    {
      if written > MAX_NUMBER_LENGTH {
        assert false;  // the "Buffer too small" panic is unreachable
      }
      ghost var before := reversed[..written];
      var d, q := NextDigit(remain, base);
      if written == MAX_NUMBER_LENGTH {
        FilledAtLeast(i, base, uppercase, before, remain);
        return written, true;
      }
      FillDigit(i, base, uppercase, before, remain, q, d);
      reversed[written] := digits[d];
      assert reversed[..written + 1] == before + [digits[d]];
      remain := q;
      written := written + 1;
    }
    FilledBelow(i, base, uppercase, reversed[..written]);
  }

  lemma NothingFilled(i: nat, base: nat, uppercase: bool, s: string)
    requires s == [] && i > 0
    ensures Filled(i, base, uppercase, s, i)
  {
    assert Pow(base, 0) == 1;
  }

  /** One round. */
  lemma FillDigit(i: nat, base: nat, uppercase: bool, digits: string, remain: nat, q: nat, d: nat)
    requires Filled(i, base, uppercase, digits, remain) && 1 <= base <= 16 && d < base
    requires remain == q * base + d && (q == 0 ==> d != 0)
    ensures Filled(i, base, uppercase, digits + [Alphabet(uppercase)[d]], q)
  {
    hide Converting, DigitValue;
    var c := Alphabet(uppercase)[d];
    AlphabetValue(d, uppercase);
    ConvertDigit(i, base, digits, remain, q, c);
  }

  /** A rest after w rounds means at least base^w. */
  lemma FilledAtLeast(i: nat, base: nat, uppercase: bool, digits: string, remain: nat)
    requires Filled(i, base, uppercase, digits, remain) && remain > 0
    ensures i >= Pow(base, |digits|)
  {
    hide Pow, EvalReversed, IsDigit, DigitValue;
    if Pow(base, |digits|) > 0 {
      Division.MulAtLeast(remain, Pow(base, |digits|));
    }
  }

  /** No rest means less. */
  lemma FilledBelow(i: nat, base: nat, uppercase: bool, digits: string)
    requires Filled(i, base, uppercase, digits, 0) && base >= 1 && |digits| <= MAX_NUMBER_LENGTH
    ensures i < Pow(base, MAX_NUMBER_LENGTH)
  {
    hide Pow, EvalReversed, DigitValue;
    EvalBelow(digits, base);
    PowExponent(base, |digits|, MAX_NUMBER_LENGTH);
  }

  /** The % and / of one round, as GCC calls them. */
  method NextDigit(remain: uint64, base: nat) returns (d: nat, q: uint64)
    requires remain > 0 && 1 <= base <= 16
    ensures remain == q * base + d && d < base && (q == 0 ==> d != 0)
  {
    hide Division.IsFloor;
    d := Division.Umod64(remain, base);
    q := Division.Udiv64(remain, base);
    SplitRemain(remain, base, q, d);
  }

  lemma SplitRemain(remain: nat, base: nat, q: nat, d: nat)
    requires remain > 0 && base >= 1 && Division.IsFloor(remain, base, q) && d == remain % base
    ensures remain == q * base + d && d < base && (q == 0 ==> d != 0)
  {
    hide *;
    Division.RemainderOfFloor(remain, base, q);
    ZeroTimes(q, base);
  }

  lemma ZeroTimes(q: int, base: int)
    ensures base * q == q * base && (q == 0 ==> q * base == 0)
  {
  }

  lemma NumeralFromDigits(i: nat, base: nat, uppercase: bool, s: string)
    requires Filled(i, base, uppercase, s, 0)
    ensures IsNumeral(Reversed(s), i, base, uppercase) && |Reversed(s)| == |s|
  {
    hide Eval, EvalReversed, Pow, IsDigit;
    EvalOfReversed(s, base);
    assert Reversed(s)[0] == s[|s| - 1];
  }

  /** Every 64-bit value fits the buffer in every base the printer is called with. */
  lemma FitsFromOctal(i: uint64, base: nat)
    requires base >= 8
    ensures i < Pow(base, MAX_NUMBER_LENGTH)
  {
    PowMonotone(8, base, MAX_NUMBER_LENGTH);
    assert Pow(8, 22) >= TWO_64 by {
      assert Pow(8, 4) == 4096;
      assert Pow(8, 8) == 0x100_0000;
      assert Pow(8, 12) == 0x10_0000_0000;
      assert Pow(8, 16) == 0x1_0000_0000_0000;
      assert Pow(8, 20) == 0x1000_0000_0000_0000;
    }
  }

  /** Below base 8 the largest 64-bit value does not, and PrintfU overruns. */
  lemma OverrunBelowOctal(base: nat)
    requires base < 8
    ensures TWO_64 - 1 >= Pow(base, MAX_NUMBER_LENGTH)
  {
    PowMonotone(base, 7, MAX_NUMBER_LENGTH);
    assert Pow(7, 22) < TWO_64 by {
      assert Pow(7, 4) == 2401;
      assert Pow(7, 8) == 5764801;
      assert Pow(7, 12) == 13841287201;
      assert Pow(7, 16) == 33232930569601;
      assert Pow(7, 20) == 79792266297612001;
    }
  }

  // ----- the output is the only numeral

  lemma NumeralUnique(s: string, t: string, i: nat, base: nat, uppercase: bool)
    requires 2 <= base <= 16
    requires IsNumeral(s, i, base, uppercase) && IsNumeral(t, i, base, uppercase)
    ensures s == t
  {
    if s[0] != '0' {
      LeadingDigit(s, base, uppercase);
    }
    if t[0] != '0' {
      LeadingDigit(t, base, uppercase);
    }
    if s[0] != '0' && t[0] != '0' {
      DigitsUnique(s, t, base, uppercase);
    } else {
      ZeroValue(base);
    }
  }

  lemma ZeroValue(base: nat)
    ensures Eval("0", base) == 0
  {
    assert "0"[..0] == [];
    assert Eval("0"[..0], base) == 0;
  }

  /** Digit strings of the base that are empty or start with a non-zero digit. */
  predicate Significant(s: string, base: nat, uppercase: bool) {
    && (s != [] ==> s[0] != '0')
    && forall k :: 0 <= k < |s| ==> IsDigit(s[k], base, uppercase)
  }

  lemma {:induction false} DigitsUnique(s: string, t: string, base: nat, uppercase: bool)
    requires 2 <= base <= 16
    requires Significant(s, base, uppercase) && Significant(t, base, uppercase)
    requires Eval(s, base) == Eval(t, base)
    ensures s == t
    decreases |s|
  {
    hide DigitValue, IsDigit;
    if s == [] || t == [] {
      if s != [] { LeadingDigit(s, base, uppercase); }
      if t != [] { LeadingDigit(t, base, uppercase); }
    } else {
      var s0, t0 := s[..|s| - 1], t[..|t| - 1];
      var c, d := s[|s| - 1], t[|t| - 1];
      DigitBelow(c, base, uppercase);
      DigitBelow(d, base, uppercase);
      LastDigit(Eval(s0, base), DigitValue(c), Eval(t0, base), DigitValue(d), base);
      SameDigit(c, d, base, uppercase);
      DigitsUnique(s0, t0, base, uppercase);
      assert s == s0 + [c] && t == t0 + [d];
    }
  }

  lemma SameDigit(c: char, d: char, base: nat, uppercase: bool)
    requires IsDigit(c, base, uppercase) && IsDigit(d, base, uppercase) && DigitValue(c) == DigitValue(d)
    ensures c == d
  {
    AlphabetIndex(c, uppercase);
    AlphabetIndex(d, uppercase);
  }

  lemma DigitBelow(c: char, base: nat, uppercase: bool)
    requires IsDigit(c, base, uppercase)
    ensures DigitValue(c) < base
  {
  }

  lemma LastDigit(x: nat, c: nat, y: nat, d: nat, base: nat)
    requires c < base && d < base && x * base + c == y * base + d
    ensures x == y && c == d
  {
    Division.FloorUnique(x * base + c, base, x, y);
  }

  lemma {:induction false} LeadingDigit(s: string, base: nat, uppercase: bool)
    requires base >= 1 && s != [] && s[0] != '0'
    requires forall k :: 0 <= k < |s| ==> IsDigit(s[k], base, uppercase)
    ensures Eval(s, base) > 0
  {
    if |s| == 1 {
      assert IsDigit(s[0], base, uppercase);
      AlphabetIndex(s[0], uppercase);
      assert Alphabet(uppercase)[0] == '0';
    } else {
      LeadingDigit(s[..|s| - 1], base, uppercase);
      Division.MulAtLeast(Eval(s[..|s| - 1], base), base);
    }
  }
}
