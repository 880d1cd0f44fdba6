/** Printing 128-bit integers in decimal with 64-bit arithmetic only. */
module Decimal128 {
  import opened Words

  const TWO128: nat := TWO64 * TWO64
  const Q: nat := 1844674407370955161   // 2^64 / 10
  const SIZE: nat := 40

  // ------------------------------------------------ decimal notation

  function DigitChar(d: nat): char
    requires d < 10
  {
    '0' + d as char
  }

  /** The digits of v, most significant first; empty for 0. */
  function Digits(v: nat): string {
    if v == 0 then "" else Digits(v / 10) + [DigitChar(v % 10)]
  }

  function Decimal(v: nat): string {
    if v == 0 then "0" else Digits(v)
  }

  function DigitValue(c: char): int {
    c as int - '0' as int
  }

  function Value(s: string): int {
    if s == [] then 0 else 10 * Value(s[..|s| - 1]) + DigitValue(s[|s| - 1])
  }

  function Pow10(n: nat): nat {
    if n == 0 then 1 else 10 * Pow10(n - 1)
  }

  lemma {:induction false} DigitsValue(v: nat)
    ensures Value(Digits(v)) == v
  {
    if v > 0 {
      DigitsValue(v / 10);
      var front, last := Digits(v / 10), DigitChar(v % 10);
      assert (front + [last])[..|front|] == front;
      assert DigitValue(last) == v % 10;
    }
  }

  lemma {:induction false} DigitsOnly(v: nat)
    ensures forall c :: c in Digits(v) ==> '0' <= c <= '9'
  {
    if v > 0 {
      DigitsOnly(v / 10);
    }
  }

  lemma {:induction false} LeadingDigit(v: nat)
    requires v > 0
    ensures Digits(v) != "" && Digits(v)[0] != '0'
  {
    if v < 10 {
      assert Digits(v / 10) == "";
    } else {
      LeadingDigit(v / 10);
    }
  }

  /** Decimal notation denotes the number, in digits only, without a leading zero. */
  lemma DigitsMeaning(v: nat)
    ensures Value(Digits(v)) == v
    ensures forall i :: 0 <= i < |Digits(v)| ==> '0' <= Digits(v)[i] <= '9'
    ensures v > 0 ==> Digits(v) != "" && Digits(v)[0] != '0'
  {
    DigitsValue(v);
    DigitsOnly(v);
    if v > 0 {
      LeadingDigit(v);
    }
  }

  /** So does what is printed, for 0 as well: at least one digit, and a leading zero only alone. */
  lemma DecimalMeaning(v: nat)
    ensures Value(Decimal(v)) == v && Decimal(v) != ""
    ensures forall i :: 0 <= i < |Decimal(v)| ==> '0' <= Decimal(v)[i] <= '9'
    ensures Decimal(v)[0] == '0' ==> |Decimal(v)| == 1
  {
    DigitsMeaning(v);
    if v == 0 {
      assert "0"[..0] == "";
      assert Value("0") == 10 * Value("") + DigitValue('0');
    }
  }

  lemma {:induction false} DigitsLength(v: nat, n: nat)
    requires v < Pow10(n)
    ensures |Digits(v)| <= n
    decreases n
  {
    if v > 0 {
      DigitsLength(v / 10, n - 1);
    }
  }

  lemma TenTimes(x: nat, y: nat)
    ensures 10 * (x * y) == (10 * x) * y
  {
  }

  lemma {:induction false} Pow10Add(a: nat, b: nat)
    ensures Pow10(a + b) == Pow10(a) * Pow10(b)
    decreases a
  {
    if a > 0 {
      Pow10Add(a - 1, b);
      TenTimes(Pow10(a - 1), Pow10(b));
    }
  }

  /** 2^128 has 39 decimal digits. */
  lemma AtMost39Digits(v: nat)
    requires v < TWO128
    ensures |Digits(v)| <= 39
  {
    assert Pow10(5) == 100000;
    Pow10Add(5, 5);
    Pow10Add(10, 10);
    Pow10Add(20, 10);
    Pow10Add(30, 9);
    assert Pow10(9) == 1000000000;
    DigitsLength(v, 39);
  }

  // ------------------------------------------------ one round of long division

  /** A round divides high * 2^64 + low by 10 exactly, and no intermediate value needs more
      than 64 bits. */
  lemma Round(high: Word, low: Word)
    ensures var highMod := high % 10;
            var carry := 6 * highMod + low % 10;
            && low / 10 + highMod * Q + carry / 10 < TWO64
            && high / 10 * TWO64 + (low / 10 + highMod * Q + carry / 10) == (high * TWO64 + low) / 10
            && carry % 10 == (high * TWO64 + low) % 10
  {
    var highMod, lowMod := high % 10, low % 10;
    var carry := 6 * highMod + lowMod;
    var newLow := low / 10 + highMod * Q + carry / 10;
    assert TWO64 == 10 * Q + 6;
    assert 10 * newLow + carry % 10 == highMod * TWO64 + low;
    var v := high * TWO64 + low;
    assert v == 10 * (high / 10 * TWO64 + newLow) + carry % 10;
  }

  /** Long division of high * 2^64 + low, every variable a 64-bit word. */
  method DivideBy10(high: Word, low: Word) returns (high': Word, low': Word, digit: nat)
    ensures high' * TWO64 + low' == (high * TWO64 + low) / 10
    ensures digit == (high * TWO64 + low) % 10
  {
    Round(high, low);
    var highMod := high % 10;
    high' := high / 10;
    var carry: Word := 6 * highMod + low % 10;
    low' := low / 10 + highMod * Q + carry / 10;
    digit := carry % 10;
  }

  lemma DigitSplit(v: nat, rest: nat, tail: string)
    requires rest > 0 && Digits(v) == Digits(rest) + tail
    ensures Digits(v) == Digits(rest / 10) + ([DigitChar(rest % 10)] + tail)
    ensures |tail| < |Digits(v)|
  {
    Regroup(Digits(rest / 10), DigitChar(rest % 10), tail);
  }

  lemma Regroup(front: string, c: char, tail: string)
    ensures (front + [c]) + tail == front + ([c] + tail)
  {
  }

  /** *--p = c */
  method Push(buf: array<char>, p: nat, c: char) returns (q: nat)
    requires buf.Length == SIZE && 0 < p < SIZE
    modifies buf
    ensures q == p - 1 && buf[q..SIZE - 1] == [c] + old(buf[p..SIZE - 1])
  {
    q := p - 1;
    buf[q] := c;
  }

  lemma Halves(v: nat)
    requires v < TWO128
    ensures v / TWO64 < TWO64 && v == v / TWO64 * TWO64 + v % TWO64
  {
  }

  method PrintUint128(v: nat) returns (os: string)
    requires v < TWO128
    ensures os == Decimal(v)
  {
    if v == 0 {
      return "0";
    }
    var buf := new char[SIZE];
    var p := SIZE;
    Halves(v);
    var high: Word, low: Word := v / TWO64, v % TWO64;
    p := p - 1;
    buf[p] := '\0';
    AtMost39Digits(v);
    ghost var rest := v;
    while high != 0 || low != 0
      invariant 0 <= p <= SIZE - 1 && rest == high * TWO64 + low
      invariant Digits(v) == Digits(rest) + buf[p..SIZE - 1]
      decreases rest
    {
      var digit: nat;
      high, low, digit := DivideBy10(high, low);
      DigitSplit(v, rest, buf[p..SIZE - 1]);
      p := Push(buf, p, DigitChar(digit));
      rest := rest / 10;
    }
    os := buf[p..SIZE - 1];
  }

  /** Signed values: the two's complement pattern, negated on 128 bits when v is negative. */
  method PrintInt128(v: int) returns (os: string)
    requires -(TWO128 / 2) <= v < TWO128 / 2
    ensures os == if v < 0 then "-" + Decimal(-v) else Decimal(v)
  {
    var uv := if v < 0 then v + TWO128 else v;
    if v < 0 {
      uv := TWO128 - uv;
      var digits := PrintUint128(uv);
      return "-" + digits;
    }
    os := PrintUint128(uv);
  }
}
