/** 64-bit machine words as naturals: wrap-around, and the bitwise operators the
    runtime uses, defined bit by bit so that their arithmetic meaning is a theorem. */
module Words {

  const TWO64: nat := 0x1_0000_0000_0000_0000

  newtype byte = x: int | 0 <= x < 256
  type Word = x: int | 0 <= x < TWO64

  /** a + b on 64 bits */
  function Add(a: Word, b: Word): (r: Word) {
    if a + b < TWO64 then a + b else a + b - TWO64
  }

  /** a - b on 64 bits */
  function Sub(a: Word, b: Word): (r: Word) {
    if a >= b then a - b else a - b + TWO64
  }

  function Pow2(k: nat): (p: nat)
    ensures p > 0
  {
    if k == 0 then 1 else 2 * Pow2(k - 1)
  }

  /** x & y */
  function And(x: nat, y: nat): (r: nat)
    ensures r <= x && r <= y
  {
    if x == 0 || y == 0 then 0
    else 2 * And(x / 2, y / 2) + (if x % 2 == 1 && y % 2 == 1 then 1 else 0)
  }

  /** x | y */
  function Or(x: nat, y: nat): (r: nat)
    ensures r >= x && r >= y
    decreases x + y
  {
    if x == 0 then y else if y == 0 then x
    else 2 * Or(x / 2, y / 2) + (if x % 2 == 1 || y % 2 == 1 then 1 else 0)
  }

  /** ~x on 64 bits */
  function Not(x: Word): (r: Word) {
    TWO64 - 1 - x
  }

  ghost predicate IsPow2(v: nat) {
    exists k :: v == Pow2(k)
  }

  lemma Pow2Of64()
    ensures Pow2(64) == TWO64 && Pow2(63) == 0x8000_0000_0000_0000
  {
    assert Pow2(4) == 16;
    Pow2Add(4, 4);
    Pow2Add(8, 8);
    Pow2Add(16, 16);
    Pow2Add(32, 32);
  }

  lemma {:induction false} Pow2Add(a: nat, b: nat)
    ensures Pow2(a + b) == Pow2(a) * Pow2(b)
  {
    if a > 0 {
      Pow2Add(a - 1, b);
      assert Pow2(a + b) == 2 * Pow2((a - 1) + b);
    }
  }

  lemma {:induction false} Pow2Monotone(a: nat, b: nat)
    requires a <= b
    ensures Pow2(a) <= Pow2(b)
    ensures a < b ==> 2 * Pow2(a) <= Pow2(b)
  {
    if a < b {
      Pow2Monotone(a, b - 1);
    }
  }

  /** A 64-bit power of two has its exponent below 64. */
  lemma Exponent(v: Word) returns (k: nat)
    requires IsPow2(v)
    ensures v == Pow2(k) && k < 64
  {
    k :| v == Pow2(k);
    Pow2Of64();
    if k >= 64 {
      Pow2Monotone(64, k);
    }
  }

  lemma {:induction false} AndSelf(x: nat)
    ensures And(x, x) == x
  {
    if x > 0 {
      AndSelf(x / 2);
    }
  }

  /** The `v & (v - 1)` test recognises exactly the powers of two. */
  lemma {:induction false} PowerOfTwoTest(v: nat)
    requires v > 0
    ensures And(v, v - 1) == 0 <==> IsPow2(v)
  {
    if v == 1 {
      assert v == Pow2(0);
    } else if v % 2 == 1 {
      AndSelf(v / 2);
      assert v / 2 == (v - 1) / 2;
      assert And(v, v - 1) == 2 * (v / 2);
      forall k: nat ensures v != Pow2(k) {}
    } else {
      PowerOfTwoTest(v / 2);
      assert (v - 1) / 2 == v / 2 - 1;
      if IsPow2(v) {
        var k: nat :| v == Pow2(k);
        assert v / 2 == Pow2(k - 1);
      }
      if IsPow2(v / 2) {
        var k: nat :| v / 2 == Pow2(k);
        assert v == Pow2(k + 1);
      }
    }
  }

  /** The test v & (v - 1) == 0 on 64 bits, where 0 - 1 is the word of all ones. */
  lemma PowerOfTwoWord(v: Word)
    ensures And(v, Sub(v, 1)) == 0 <==> v == 0 || IsPow2(v)
  {
    if v > 0 {
      PowerOfTwoTest(v);
    }
  }

  lemma MulMonotone(m: nat, a: int, b: int)
    requires a <= b
    ensures m * a <= m * b
  {
  }

  lemma ModUnique(x: int, m: int, q: int, r: int)
    requires m > 0 && x == m * q + r && 0 <= r < m
    ensures x / m == q && x % m == r
  {
    var q', r' := x / m, x % m;
    assert m * (q - q') == r' - r;
    if q > q' {
      MulMonotone(m, 1, q - q');
    } else if q < q' {
      MulMonotone(m, q - q', -1);
    }
  }

  lemma AndEven(x: nat, y: nat)
    ensures And(x, 2 * y) == 2 * And(x / 2, y)
  {
    assert 2 * y / 2 == y;
  }

  lemma AndOdd(x: nat, y: nat)
    ensures And(x, 2 * y + 1) == 2 * And(x / 2, y) + x % 2
  {
    assert (2 * y + 1) / 2 == y && (2 * y + 1) % 2 == 1;
  }

  lemma {:induction false} AndOnes(x: nat, n: nat)
    requires x < Pow2(n)
    ensures And(x, Pow2(n) - 1) == x
  {
    if n > 0 {
      var half := Pow2(n - 1);
      assert Pow2(n) - 1 == 2 * (half - 1) + 1;
      AndOnes(x / 2, n - 1);
      AndOdd(x, half - 1);
    }
  }

  /** x with its low k bits cleared. */
  ghost function ClearLow(x: nat, k: nat): nat {
    if k == 0 then x else 2 * ClearLow(x / 2, k - 1)
  }

  /** n - k ones followed by k zeros. */
  ghost function Mask(n: nat, k: nat): nat
    requires k <= n
  {
    if k == 0 then Pow2(n) - 1 else 2 * Mask(n - 1, k - 1)
  }

  lemma {:induction false} MaskIs(n: nat, k: nat)
    requires k <= n
    ensures Mask(n, k) == Pow2(n) - Pow2(k)
  {
    if k > 0 {
      MaskIs(n - 1, k - 1);
    }
  }

  lemma {:induction false} MaskClears(x: nat, n: nat, k: nat)
    requires k <= n && x < Pow2(n)
    ensures And(x, Mask(n, k)) == ClearLow(x, k)
  {
    if k == 0 {
      AndOnes(x, n);
    } else {
      MaskClears(x / 2, n - 1, k - 1);
      AndEven(x, Mask(n - 1, k - 1));
    }
  }

  /** Masking with n-bit `~(2^k - 1)` clears the low k bits. */
  lemma AndMask(x: nat, n: nat, k: nat)
    requires k <= n && x < Pow2(n)
    ensures Pow2(k) <= Pow2(n) && And(x, Pow2(n) - Pow2(k)) == ClearLow(x, k)
  {
    MaskIs(n, k);
    MaskClears(x, n, k);
  }

  /** Clearing the low k bits rounds down to a multiple of 2^k. */
  lemma {:induction false} ClearLowIs(x: nat, k: nat)
    ensures ClearLow(x, k) == x - x % Pow2(k)
  {
    if k == 0 {
      assert x % 1 == 0;
    } else {
      ClearLowIs(x / 2, k - 1);
      ModDouble(x, Pow2(k - 1));
    }
  }

  lemma ModDouble(x: nat, m: nat)
    requires m > 0
    ensures x % (2 * m) == 2 * ((x / 2) % m) + x % 2
  {
    var q, r := (x / 2) / m, (x / 2) % m;
    assert x / 2 == m * q + r;
    assert x == (2 * m) * q + (2 * r + x % 2);
    ModUnique(x, 2 * m, q, 2 * r + x % 2);
  }

  /** `x & ~(m - 1)`, as the runtime aligns addresses, for a power of two m. */
  lemma AlignDown(x: Word, m: Word)
    requires IsPow2(m)
    ensures And(x, Not(Sub(m, 1))) == x - x % m
  {
    var k := Exponent(m);
    Pow2Of64();
    AndMask(x, 64, k);
    ClearLowIs(x, k);
  }

  /** x - x % m is the largest multiple of m not above x. */
  lemma MultipleBelow(x: nat, m: nat, p: nat)
    requires m > 0 && p % m == 0 && p <= x
    ensures p <= x - x % m
    ensures (x - x % m) % m == 0
  {
    var q, k := x / m, p / m;
    assert x - x % m == m * q && p == m * k;
    ModUnique(m * q, m, q, 0);
    if k > q {
      MulMonotone(m, q + 1, k);
    } else {
      MulMonotone(m, k, q);
    }
  }
}
