/** The 64-bit tricks behind kernel argument layout: rounding up to a power of two by
    smearing bits, and padding to an aligned offset. */
module ArgAlignment {
  import opened Words

  /** v >> t */
  function Shift(v: Word, t: nat): Word {
    Quotient(v, Pow2(t));
    v / Pow2(t)
  }

  lemma Quotient(v: nat, d: nat)
    requires d > 0
    ensures 0 <= v / d <= v
  {
    if v / d > v {
      MulMonotone(v / d, 1, d);
    }
  }

  /** v | (v >> t) */
  function Smear(v: Word, t: nat): Word {
    OrFits(v, Shift(v, t));
    Or(v, Shift(v, t))
  }

  lemma {:induction false} OrBelow(x: nat, y: nat, n: nat)
    requires x < Pow2(n) && y < Pow2(n)
    ensures Or(x, y) < Pow2(n)
    decreases n
  {
    if n > 0 && x > 0 && y > 0 {
      OrBelow(x / 2, y / 2, n - 1);
    }
  }

  lemma OrFits(x: Word, y: Word)
    ensures Or(x, y) < TWO64
  {
    Pow2Of64();
    OrBelow(x, y, 64);
  }

  lemma HalfOf(ap: nat, b: nat)
    ensures (2 * ap + b) / 2 == ap + b / 2 && (2 * ap + b) % 2 == b % 2
  {
  }

  /** A number below 2^k only touches the low k bits. */
  lemma {:induction false} OrLow(a: nat, b: nat, d: nat, k: nat)
    requires b < Pow2(k) && d < Pow2(k)
    ensures Or(a * Pow2(k) + b, d) == a * Pow2(k) + Or(b, d)
    decreases k
  {
    if k > 0 && d > 0 {
      var ap := a * Pow2(k - 1);
      assert a * Pow2(k) == 2 * ap;
      HalfOf(ap, b);
      OrLow(a, b / 2, d / 2, k - 1);
      assert Or(0, d / 2) == d / 2;
    }
  }

  /** The top m of n bits are ones. */
  ghost predicate TopOnes(x: nat, n: nat, m: nat)
    requires m <= n
  {
    Pow2(n) - Pow2(n - m) <= x < Pow2(n)
  }

  function Least(a: nat, b: nat): nat {
    if a <= b then a else b
  }

  lemma QuotientWithin(x: nat, d: nat, top: nat, gap: nat)
    requires d > 0 && d * top - d * gap <= x < d * top
    ensures top - gap <= x / d < top
  {
    var q := x / d;
    assert d * q <= x < d * q + d == d * (q + 1);
    assert d * (top - gap) == d * top - d * gap;
    if q >= top {
      MulMonotone(d, top, q);
    }
    if q + 1 <= top - gap {
      MulMonotone(d, q + 1, top - gap);
    }
  }

  lemma ShiftedOnes(x: Word, n: nat, t: nat)
    requires t <= n && TopOnes(x, n, t)
    ensures Pow2(n - t) - Pow2(n - t - Least(t, n - t)) <= Shift(x, t) < Pow2(n - t)
  {
    var k := n - t;
    var m := Least(t, k);
    Pow2Add(t, k);
    Pow2Add(t, k - m);
    Pow2Monotone(k, t + (k - m));
    QuotientWithin(x, Pow2(t), Pow2(k), Pow2(k - m));
  }

  lemma TopSplit(n: nat, t: nat)
    requires t <= n
    ensures (Pow2(t) - 1) * Pow2(n - t) == Pow2(n) - Pow2(n - t)
  {
    Pow2Add(t, n - t);
  }

  lemma OrTop(x: nat, y: nat, n: nat, t: nat)
    requires t <= n && TopOnes(x, n, t) && y < Pow2(n - t)
    ensures Pow2(n) - Pow2(n - t) + y <= Or(x, y) < Pow2(n)
  {
    var k := n - t;
    TopSplit(n, t);
    var b := x - (Pow2(n) - Pow2(k));
    OrLow(Pow2(t) - 1, b, y, k);
    OrBelow(b, y, k);
  }

  /** One smearing step doubles the number of leading ones. */
  lemma SmearDoubles(x: Word, n: nat, t: nat)
    requires 0 < t && n <= 64 && TopOnes(x, n, Least(t, n))
    ensures TopOnes(Smear(x, t), n, Least(2 * t, n))
  {
    var y := Shift(x, t);
    OrFits(x, y);
    if t >= n {
      Quotient(x, Pow2(t));
      OrBelow(x, y, n);
    } else {
      ShiftedOnes(x, n, t);
      assert n - t - Least(t, n - t) == n - Least(2 * t, n);
      OrTop(x, y, n, t);
    }
  }

  /** The exponent of the least power of two above u. */
  ghost function Width(u: nat): (n: nat)
    ensures u < Pow2(n) && (u > 0 ==> n > 0 && Pow2(n - 1) <= u)
  {
    if u == 0 then 0 else 1 + Width(u / 2)
  }

  lemma Smeared(u: Word, n: nat)
    requires 0 < n <= 64 && Pow2(n - 1) <= u < Pow2(n)
    ensures SmearedAll(u) == Pow2(n) - 1
  {
    var v1 := Smear(u, 1);
    SmearDoubles(u, n, 1);
    var v2 := Smear(v1, 2);
    SmearDoubles(v1, n, 2);
    var v4 := Smear(v2, 4);
    SmearDoubles(v2, n, 4);
    var v8 := Smear(v4, 8);
    SmearDoubles(v4, n, 8);
    var v16 := Smear(v8, 16);
    SmearDoubles(v8, n, 16);
    SmearDoubles(v16, n, 32);
  }

  /** The least power of two not below v, for v >= 1. */
  ghost function LeastPower2(v: nat): nat {
    if v <= 1 then 1 else 2 * LeastPower2((v + 1) / 2)
  }

  lemma {:induction false} LeastPower2Is(v: nat, n: nat)
    requires v <= Pow2(n) && (n == 0 || Pow2(n - 1) < v) && v > 0
    ensures LeastPower2(v) == Pow2(n)
  {
    if n > 0 {
      LeastPower2Is((v + 1) / 2, n - 1);
    }
  }

  /** It is a power of two, less than twice v, and no power of two from v on is smaller. */
  lemma LeastPower2Meaning(v: nat, k: nat)
    requires v > 0
    ensures IsPow2(LeastPower2(v)) && v <= LeastPower2(v) < 2 * v
    ensures v <= Pow2(k) ==> LeastPower2(v) <= Pow2(k)
  {
    var n := Width(v - 1);
    LeastPower2Is(v, n);
    if k < n {
      Pow2Monotone(k, n - 1);
    } else {
      Pow2Monotone(n, k);
    }
  }

  /** The alignment a value of this size gets: the least power of two not below it, or 0 when
      the size is 0 or that power does not fit in 64 bits. */
  ghost function NaturalAlignment(size: Word): Word {
    if size == 0 || LeastPower2(size) >= TWO64 then 0 else LeastPower2(size)
  }

  method RoundUpPower2(v: Word) returns (r: Word)
    ensures r == NaturalAlignment(v)
  {
    var x := Sub(v, 1);
    SmearedMeans(v);
    x := Smear(x, 1);
    x := Smear(x, 2);
    x := Smear(x, 4);
    x := Smear(x, 8);
    x := Smear(x, 16);
    x := Smear(x, 32);
    r := Add(x, 1);
  }

  ghost function SmearedAll(u: Word): Word {
    Smear(Smear(Smear(Smear(Smear(Smear(u, 1), 2), 4), 8), 16), 32)
  }

  lemma SmearedMeans(v: Word)
    ensures Add(SmearedAll(Sub(v, 1)), 1) == NaturalAlignment(v)
  {
    var u := Sub(v, 1);
    if v == 1 {
      SmearZero(1);
      SmearZero(2);
      SmearZero(4);
      SmearZero(8);
      SmearZero(16);
      SmearZero(32);
    } else {
      var n := Width(u);
      WidthWithin(u, n);
      Pow2Of64();
      Pow2Monotone(n, 64);
      Smeared(u, n);
      if v > 0 {
        LeastPower2Is(v, n);
      } else {
        FullWidth(u, n);
      }
    }
  }

  lemma SmearZero(t: nat)
    ensures Smear(0, t) == 0
  {
    Quotient(0, Pow2(t));
  }

  lemma FullWidth(u: Word, n: nat)
    requires u == TWO64 - 1 && 0 < n <= 64 && u < Pow2(n)
    ensures Pow2(n) == TWO64
  {
    Pow2Of64();
    Pow2Monotone(n, 64);
  }

  lemma WidthWithin(u: Word, n: nat)
    requires u > 0 && n > 0 && Pow2(n - 1) <= u
    ensures n <= 64
  {
    Pow2Of64();
    if n > 64 {
      Pow2Monotone(64, n - 1);
    }
  }

  function RoundToMultiple(val: Word, mult: Word): Word {
    And(Add(val, Sub(mult, 1)), Not(Sub(mult, 1)))
  }

  function CalcPadding(writePoint: Word, alignment: Word): Word {
    Sub(RoundToMultiple(writePoint, alignment), writePoint)
  }

  /** The least multiple of m not below n: climb from 0 in steps of m. */
  ghost function AlignUp(n: nat, m: nat): (r: nat)
    requires m > 0
  {
    Climb(0, n, m)
  }

  ghost function Climb(p: nat, n: nat, m: nat): (r: nat)
    requires m > 0
    decreases n - p
  {
    if p >= n then p else Climb(p + m, n, m)
  }

  /** Climbing from m * k stops at the first multiple m * r that is not below n. */
  lemma {:induction false} ClimbMeaning(k: nat, n: nat, m: nat, c: nat) returns (r: nat)
    requires m > 0 && m * k < n + m
    ensures Climb(m * k, n, m) == m * r && n <= m * r < n + m
    ensures k <= c && n <= m * c ==> r <= c
    decreases n - m * k
  {
    if m * k >= n {
      r := k;
    } else {
      assert m * (k + 1) == m * k + m;
      r := ClimbMeaning(k + 1, n, m, c);
      if k == c {
        assert m * c == m * k;
      }
    }
  }

  lemma NextMultiple(m: nat, a: nat, b: nat)
    requires m * a < m * b
    ensures m * a + m <= m * b
  {
    if a >= b {
      MulMonotone(m, b, a);
    } else {
      MulMonotone(m, a + 1, b);
      assert m * (a + 1) == m * a + m;
    }
  }

  /** AlignUp(n, m) is a multiple of m in [n, n + m), and no multiple from n on is smaller. */
  lemma AlignUpLeast(n: nat, m: nat, q: nat)
    requires m > 0
    ensures n <= AlignUp(n, m) < n + m && AlignUp(n, m) % m == 0
    ensures n <= q && q % m == 0 ==> AlignUp(n, m) <= q
  {
    assert m * 0 == 0;
    var c := q / m;
    var r := ClimbMeaning(0, n, m, c);
    ModUnique(m * r, m, r, 0);
    if n <= q && q % m == 0 {
      assert q == m * c;
      MulMonotone(m, r, c);
    }
  }

  lemma AlignUpIs(n: nat, m: nat, r: nat)
    requires m > 0 && r % m == 0 && n <= r < n + m
    ensures AlignUp(n, m) == r
  {
    AlignUpLeast(n, m, r);
    var a := AlignUp(n, m);
    assert a == m * (a / m) && r == m * (r / m);
    if a < r {
      NextMultiple(m, a / m, r / m);
    }
  }

  /** The padding brings the write point to the least aligned offset, when that offset exists
      below 2^64. An alignment of 0 sends it back to 0 instead. */
  lemma PaddingMeaning(at: Word, m: Word)
    ensures IsPow2(m) && AlignUp(at, m) < TWO64 ==> CalcPadding(at, m) == AlignUp(at, m) - at
    ensures m == 0 ==> CalcPadding(at, m) == Sub(0, at)
  {
    if m == 0 {
      assert Not(Sub(0, 1)) == 0;
      assert And(Add(at, TWO64 - 1), 0) == 0;
    } else if IsPow2(m) && AlignUp(at, m) < TWO64 {
      NoWrap(at, m);
      AlignDown(at + m - 1, m);
      MultipleBelow(at + m - 1, m, 0);
      AlignUpIs(at, m, at + m - 1 - (at + m - 1) % m);
    }
  }

  lemma NoWrap(at: Word, m: Word)
    requires IsPow2(m) && AlignUp(at, m) < TWO64
    ensures at + m - 1 < TWO64
  {
    var k := Exponent(m);
    Pow2Of64();
    Pow2Add(k, 64 - k);
    assert m * 0 == 0;
    var r := ClimbMeaning(0, at, m, 0);
    NextMultiple(m, r, Pow2(64 - k));
  }
}
