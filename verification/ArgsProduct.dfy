/** The Cartesian product of argument lists, enumerated by an odometer of indices. */
module ArgsProduct {
  import opened Words

  // ------------------------------------------------ mixed-radix numbers

  ghost predicate Positive(sizes: seq<nat>) {
    forall k :: 0 <= k < |sizes| ==> sizes[k] > 0
  }

  function Total(sizes: seq<nat>): nat {
    if sizes == [] then 1 else sizes[0] * Total(sizes[1..])
  }

  /** The digits of i, least significant first, digit k in base sizes[k]. */
  ghost function Digits(sizes: seq<nat>, i: nat): (ds: seq<nat>)
    requires Positive(sizes)
    ensures |ds| == |sizes|
    decreases |sizes|
  {
    if sizes == [] then [] else [i % sizes[0]] + Digits(sizes[1..], i / sizes[0])
  }

  /** One index per list, each within its list. */
  ghost predicate IsIndex(sizes: seq<nat>, ds: seq<nat>) {
    |ds| == |sizes| && forall k :: 0 <= k < |sizes| ==> ds[k] < sizes[k]
  }

  /** The number with the given digits. */
  ghost function Number(sizes: seq<nat>, ds: seq<nat>): nat
    requires |ds| == |sizes|
  {
    if sizes == [] then 0 else ds[0] + sizes[0] * Number(sizes[1..], ds[1..])
  }

  lemma {:induction false} DigitsAreIndex(sizes: seq<nat>, i: nat)
    requires Positive(sizes)
    ensures IsIndex(sizes, Digits(sizes, i))
    decreases |sizes|
  {
    if sizes != [] {
      DigitsAreIndex(sizes[1..], i / sizes[0]);
      var rest := Digits(sizes[1..], i / sizes[0]);
      forall k | 0 <= k < |sizes| ensures Digits(sizes, i)[k] < sizes[k] {
        if k > 0 {
          assert rest[k - 1] < sizes[1..][k - 1];
        }
      }
    }
  }

  lemma Horner(s: nat, d: nat, n: nat, t: nat)
    requires d < s && n < t
    ensures d + s * n < s * t
    ensures (d + s * n) % s == d && (d + s * n) / s == n
  {
    ModUnique(d + s * n, s, n, d);
    MulMonotone(s, n + 1, t);
    assert s * (n + 1) == s * n + s;
  }

  /** Every index vector is the digits of exactly its number, which is below the total. */
  lemma {:induction false} DigitsOfNumber(sizes: seq<nat>, ds: seq<nat>)
    requires Positive(sizes) && IsIndex(sizes, ds)
    ensures Number(sizes, ds) < Total(sizes) && Digits(sizes, Number(sizes, ds)) == ds
    decreases |sizes|
  {
    if sizes != [] {
      DigitsOfNumber(sizes[1..], ds[1..]);
      var n := Number(sizes[1..], ds[1..]);
      Horner(sizes[0], ds[0], n, Total(sizes[1..]));
      assert [ds[0]] + ds[1..] == ds;
    }
  }

  lemma {:induction false} NumberOfDigits(sizes: seq<nat>, i: nat)
    requires Positive(sizes) && i < Total(sizes)
    ensures Number(sizes, Digits(sizes, i)) == i
    decreases |sizes|
  {
    if sizes != [] {
      var s := sizes[0];
      QuotientBelow(i, s, Total(sizes[1..]));
      NumberOfDigits(sizes[1..], i / s);
      assert Digits(sizes, i)[1..] == Digits(sizes[1..], i / s);
    }
  }

  lemma QuotientBelow(i: nat, s: nat, t: nat)
    requires s > 0 && i < s * t
    ensures i / s < t && i == i % s + s * (i / s)
  {
    if i / s >= t {
      MulMonotone(s, t, i / s);
    }
  }

  /** The product of the sizes before position k. */
  ghost function Weight(sizes: seq<nat>, k: nat): nat
    requires k <= |sizes|
  {
    if k == 0 then 1 else sizes[0] * Weight(sizes[1..], k - 1)
  }

  lemma {:induction false} WeightPositive(sizes: seq<nat>, k: nat)
    requires Positive(sizes) && k <= |sizes|
    ensures Weight(sizes, k) > 0
  {
    if k > 0 {
      WeightPositive(sizes[1..], k - 1);
      MulMonotone(sizes[0], 1, Weight(sizes[1..], k - 1));
    }
  }

  lemma DivDivIs(i: nat, a: nat, b: nat, q: nat, r: nat, q': nat, r': nat)
    requires i == a * q + r && q == b * q' + r' && r < a && r' < b
    ensures a * b > 0 && i / (a * b) == q'
  {
    var ab := a * b;
    MulMonotone(a, 1, b);
    MulMonotone(a, r', b - 1);
    assert a * (b - 1) == ab - a;
    assert a * (b * q') == ab * q';
    assert a * (b * q' + r') == a * (b * q') + a * r';
    ModUnique(i, ab, q', a * r' + r);
  }

  lemma DivDiv(i: nat, a: nat, b: nat)
    requires a > 0 && b > 0
    ensures a * b > 0 && (i / a) / b == i / (a * b)
  {
    var q, r := i / a, i % a;
    var q', r' := q / b, q % b;
    assert i == a * q + r && q == b * q' + r';
    DivDivIs(i, a, b, q, r, q', r');
  }

  /** Digit k of step i is (i / product of earlier sizes) mod size k. */
  lemma {:induction false} DigitAt(sizes: seq<nat>, i: nat, k: nat)
    requires Positive(sizes) && k < |sizes|
    ensures Weight(sizes, k) > 0 && Digits(sizes, i)[k] == i / Weight(sizes, k) % sizes[k]
    decreases k
  {
    WeightPositive(sizes, k);
    if k > 0 {
      DigitAt(sizes[1..], i / sizes[0], k - 1);
      DivDiv(i, sizes[0], Weight(sizes[1..], k - 1));
    }
  }

  /** The odometer's next reading. */
  ghost function Next(sizes: seq<nat>, ds: seq<nat>): seq<nat>
    requires Positive(sizes) && |ds| == |sizes|
  {
    if sizes == [] then []
    else if (ds[0] + 1) % sizes[0] != 0 then [(ds[0] + 1) % sizes[0]] + ds[1..]
    else [0] + Next(sizes[1..], ds[1..])
  }

  lemma SuccessorDigits(i: nat, s: nat)
    requires s > 0
    ensures (i % s + 1) % s == (i + 1) % s
    ensures (i + 1) / s == if (i % s + 1) % s == 0 then i / s + 1 else i / s
  {
    var q, r := i / s, i % s;
    if r + 1 == s {
      ModUnique(i + 1, s, q + 1, 0);
      ModUnique(s, s, 1, 0);
    } else {
      ModUnique(i + 1, s, q, r + 1);
      ModUnique(r + 1, s, 0, r + 1);
    }
  }

  lemma {:induction false} NextCounts(sizes: seq<nat>, i: nat)
    requires Positive(sizes)
    ensures Next(sizes, Digits(sizes, i)) == Digits(sizes, i + 1)
    decreases |sizes|
  {
    if sizes != [] {
      var s := sizes[0];
      SuccessorDigits(i, s);
      assert Digits(sizes, i)[1..] == Digits(sizes[1..], i / s);
      NextCounts(sizes[1..], i / s);
    }
  }

  // ------------------------------------------------ the product

  function Sizes(arglists: seq<seq<int>>): (sizes: seq<nat>)
    ensures |sizes| == |arglists| && forall k :: 0 <= k < |sizes| ==> sizes[k] == |arglists[k]|
  {
    seq(|arglists|, k requires 0 <= k < |arglists| => |arglists[k]|)
  }

  /** The values at the given indices. */
  ghost function Pick(arglists: seq<seq<int>>, ds: seq<nat>): (t: seq<int>)
    requires IsIndex(Sizes(arglists), ds)
    ensures |t| == |arglists| && forall k :: 0 <= k < |t| ==> t[k] == arglists[k][ds[k]]
  {
    seq(|arglists|, k requires 0 <= k < |arglists| => arglists[k][ds[k]])
  }

  /** The first n tuples, tuple i picked by the digits of i. */
  ghost function Tuples(arglists: seq<seq<int>>, n: nat): (ts: seq<seq<int>>)
    requires Positive(Sizes(arglists))
    ensures |ts| == n
  {
    if n == 0 then []
    else
      DigitsAreIndex(Sizes(arglists), n - 1);
      Tuples(arglists, n - 1) + [Pick(arglists, Digits(Sizes(arglists), n - 1))]
  }

  lemma {:induction false} TupleAt(arglists: seq<seq<int>>, n: nat, i: nat)
    requires Positive(Sizes(arglists)) && i < n
    ensures IsIndex(Sizes(arglists), Digits(Sizes(arglists), i))
    ensures Tuples(arglists, n)[i] == Pick(arglists, Digits(Sizes(arglists), i))
  {
    DigitsAreIndex(Sizes(arglists), i);
    var front := Tuples(arglists, n - 1);
    assert Tuples(arglists, n)[..n - 1] == front;
    if i < n - 1 {
      TupleAt(arglists, n - 1, i);
      assert Tuples(arglists, n)[i] == front[i];
    }
  }

  /** n on 64 bits. */
  ghost function Wrapped(n: nat): (r: nat)
    ensures r <= n && r < TWO64
    ensures n < TWO64 ==> r == n
  {
    if n < TWO64 then n else Wrapped(n - TWO64)
  }

  lemma {:induction false} WrappedIs(n: nat)
    ensures Wrapped(n) == n % TWO64
  {
    if n >= TWO64 {
      WrappedIs(n - TWO64);
    }
  }

  /** How many tuples are emitted: the product of the sizes, on 64 bits. */
  ghost function Emitted(arglists: seq<seq<int>>): nat {
    Wrapped(Total(Sizes(arglists)))
  }

  lemma {:induction false} TotalZero(sizes: seq<nat>)
    ensures Total(sizes) != 0 <==> Positive(sizes)
  {
    if sizes != [] {
      TotalZero(sizes[1..]);
      if Positive(sizes) {
        MulMonotone(sizes[0], 1, Total(sizes[1..]));
        assert forall k :: 0 <= k < |sizes[1..]| ==> sizes[1..][k] == sizes[k + 1];
      } else if sizes[0] != 0 {
        var k :| 0 <= k < |sizes| && sizes[k] == 0;
        assert sizes[1..][k - 1] == 0;
      }
    }
  }

  ghost predicate Enumerated(sizes: seq<nat>, n: nat, ds: seq<nat>)
    requires Positive(sizes)
  {
    exists i: nat :: i < n && Digits(sizes, i) == ds
  }

  /** Every index vector is enumerated if and only if the product of the sizes fits in 64 bits,
      and none is enumerated twice. */
  lemma ProductComplete(arglists: seq<seq<int>>)
    requires Positive(Sizes(arglists))
    ensures (forall ds :: IsIndex(Sizes(arglists), ds) ==> Enumerated(Sizes(arglists), Emitted(arglists), ds))
       <==> Total(Sizes(arglists)) < TWO64
    ensures forall i: nat, j: nat :: i < j < Emitted(arglists) ==>
              Digits(Sizes(arglists), i) != Digits(Sizes(arglists), j)
  {
    var sizes := Sizes(arglists);
    TotalZero(sizes);
    var n := Emitted(arglists);
    if Total(sizes) < TWO64 {
      forall ds | IsIndex(sizes, ds) ensures Enumerated(sizes, n, ds) {
        DigitsOfNumber(sizes, ds);
        var i := Number(sizes, ds);
        assert i < n && Digits(sizes, i) == ds;
      }
    } else {
      var missing := Digits(sizes, n);
      DigitsAreIndex(sizes, n);
      forall i: nat | i < n ensures Digits(sizes, i) != missing {
        DistinctDigits(sizes, i, n);
      }
      assert IsIndex(sizes, missing) && !Enumerated(sizes, n, missing);
    }
    forall i: nat, j: nat | i < j < n ensures Digits(sizes, i) != Digits(sizes, j) {
      DistinctDigits(sizes, i, j);
    }
  }

  lemma DistinctDigits(sizes: seq<nat>, i: nat, j: nat)
    requires Positive(sizes) && i < j < Total(sizes)
    ensures Digits(sizes, i) != Digits(sizes, j)
  {
    NumberOfDigits(sizes, i);
    NumberOfDigits(sizes, j);
  }

  /** What a call appends to the argument list. */
  ghost function Appended(arglists: seq<seq<int>>): seq<seq<int>> {
    if Positive(Sizes(arglists)) then Tuples(arglists, Emitted(arglists)) else []
  }

  /** One value from each list. */
  ghost predicate InProduct(arglists: seq<seq<int>>, t: seq<int>) {
    |t| == |arglists| && forall k :: 0 <= k < |t| ==> t[k] in arglists[k]
  }

  ghost predicate NoRepeats(s: seq<int>) {
    forall i, j :: 0 <= i < j < |s| ==> s[i] != s[j]
  }

  /** Positions of the tuple's values in their lists. */
  lemma {:induction false} Positions(arglists: seq<seq<int>>, t: seq<int>, n: nat) returns (ds: seq<nat>)
    requires InProduct(arglists, t) && n <= |t|
    ensures |ds| == n && forall k :: 0 <= k < n ==> ds[k] < |arglists[k]| && arglists[k][ds[k]] == t[k]
  {
    if n == 0 {
      ds := [];
    } else {
      ds := Positions(arglists, t, n - 1);
      var i :| 0 <= i < |arglists[n - 1]| && arglists[n - 1][i] == t[n - 1];
      ds := ds + [i];
    }
  }

  /** Only members of the product are appended. */
  lemma AppendedSound(arglists: seq<seq<int>>, t: seq<int>)
    requires t in Appended(arglists)
    ensures InProduct(arglists, t)
  {
    var i :| 0 <= i < |Appended(arglists)| && Appended(arglists)[i] == t;
    TupleAt(arglists, Emitted(arglists), i);
  }

  /** When the product of the sizes fits, every member is appended. */
  lemma AppendedComplete(arglists: seq<seq<int>>, t: seq<int>)
    requires InProduct(arglists, t) && Total(Sizes(arglists)) < TWO64
    ensures t in Appended(arglists)
  {
    var sizes := Sizes(arglists);
    var ds := Positions(arglists, t, |t|);
    assert IsIndex(sizes, ds);
    assert Positive(sizes);
    DigitsOfNumber(sizes, ds);
    TupleAt(arglists, Emitted(arglists), Number(sizes, ds));
    assert Pick(arglists, ds) == t;
  }

  /** When it does not fit and no list repeats a value, some member is missing. */
  lemma AppendedMisses(arglists: seq<seq<int>>) returns (t: seq<int>)
    requires Total(Sizes(arglists)) >= TWO64 && forall k :: 0 <= k < |arglists| ==> NoRepeats(arglists[k])
    ensures InProduct(arglists, t) && t !in Appended(arglists)
  {
    var sizes, n := Sizes(arglists), Emitted(arglists);
    TotalZero(sizes);
    DigitsAreIndex(sizes, n);
    var ds := Digits(sizes, n);
    t := Pick(arglists, ds);
    if t in Appended(arglists) {
      var i :| 0 <= i < n && Appended(arglists)[i] == t;
      TupleAt(arglists, n, i);
      DistinctDigits(sizes, i, n);
      SamePick(arglists, Digits(sizes, i), ds);
    }
  }

  lemma SamePick(arglists: seq<seq<int>>, ds: seq<nat>, es: seq<nat>)
    requires IsIndex(Sizes(arglists), ds) && IsIndex(Sizes(arglists), es)
    requires forall k :: 0 <= k < |arglists| ==> NoRepeats(arglists[k])
    requires Pick(arglists, ds) == Pick(arglists, es)
    ensures ds == es
  {
    forall k | 0 <= k < |ds| ensures ds[k] == es[k] {
      assert Pick(arglists, ds)[k] == arglists[k][ds[k]] && Pick(arglists, es)[k] == arglists[k][es[k]];
      assert NoRepeats(arglists[k]);
    }
  }

  /** Lists without repeated values: no tuple is appended twice. */
  lemma AppendedOnce(arglists: seq<seq<int>>, i: nat, j: nat)
    requires i < j < |Appended(arglists)| && forall k :: 0 <= k < |arglists| ==> NoRepeats(arglists[k])
    ensures Appended(arglists)[i] != Appended(arglists)[j]
  {
    var sizes, n := Sizes(arglists), Emitted(arglists);
    TupleAt(arglists, n, i);
    TupleAt(arglists, n, j);
    DistinctDigits(sizes, i, j);
    if Appended(arglists)[i] == Appended(arglists)[j] {
      SamePick(arglists, Digits(sizes, i), Digits(sizes, j));
    }
  }

  /** A call appends exactly the Cartesian product, an empty one included, if the product of the
      sizes fits in 64 bits; and, for lists without repeated values, only then. Of such lists
      it never appends a tuple twice. */
  lemma AppendsProduct(arglists: seq<seq<int>>)
    ensures Total(Sizes(arglists)) < TWO64 ==> forall t :: t in Appended(arglists) <==> InProduct(arglists, t)
    ensures (forall k :: 0 <= k < |arglists| ==> NoRepeats(arglists[k])) ==>
              ((forall t :: t in Appended(arglists) <==> InProduct(arglists, t)) <==> Total(Sizes(arglists)) < TWO64)
    ensures (forall k :: 0 <= k < |arglists| ==> NoRepeats(arglists[k])) ==>
              forall i, j :: 0 <= i < j < |Appended(arglists)| ==> Appended(arglists)[i] != Appended(arglists)[j]
  {
    if forall k :: 0 <= k < |arglists| ==> NoRepeats(arglists[k]) {
      forall i, j | 0 <= i < j < |Appended(arglists)| ensures Appended(arglists)[i] != Appended(arglists)[j] {
        AppendedOnce(arglists, i, j);
      }
    }
    if Total(Sizes(arglists)) < TWO64 {
      forall t ensures t in Appended(arglists) <==> InProduct(arglists, t) {
        if t in Appended(arglists) {
          AppendedSound(arglists, t);
        } else if InProduct(arglists, t) {
          AppendedComplete(arglists, t);
        }
      }
    } else if forall k :: 0 <= k < |arglists| ==> NoRepeats(arglists[k]) {
      var t := AppendedMisses(arglists);
    }
  }

  lemma TuplesGrow(before: seq<seq<int>>, arglists: seq<seq<int>>, i: nat, tuple: seq<int>)
    requires Positive(Sizes(arglists)) && IsIndex(Sizes(arglists), Digits(Sizes(arglists), i))
    requires tuple == Pick(arglists, Digits(Sizes(arglists), i))
    ensures before + Tuples(arglists, i) + [tuple] == before + Tuples(arglists, i + 1)
  {
  }

  // ------------------------------------------------ the benchmark object

  lemma Associates(a: nat, b: nat, c: nat)
    ensures a * (b * c) == (a * b) * c
  {
  }

  lemma {:induction false} TotalSnoc(sizes: seq<nat>, n: nat)
    requires n < |sizes|
    ensures Total(sizes[..n + 1]) == Total(sizes[..n]) * sizes[n]
    decreases n
  {
    if n == 0 {
      assert sizes[..1][1..] == [];
    } else {
      TotalSnoc(sizes[1..], n - 1);
      assert sizes[..n + 1][1..] == sizes[1..][..n];
      assert sizes[..n][1..] == sizes[1..][..n - 1];
      Associates(sizes[0], Total(sizes[1..][..n - 1]), sizes[n]);
    }
  }

  lemma MulMod(a: nat, b: nat, m: nat)
    requires m > 0
    ensures (a % m * b) % m == (a * b) % m
  {
    var q, r := a / m, a % m;
    var q', r' := (r * b) / m, (r * b) % m;
    assert a == m * q + r;
    assert a * b == m * (q * b) + r * b;
    assert m * (q * b) + m * q' == m * (q * b + q');
    ModUnique(a * b, m, q * b + q', r');
  }

  class Benchmark {
    var args: seq<seq<int>>
    var argNames: seq<string>

    function ArgsCnt(): int
      reads this
    {
      if args == [] then (if argNames == [] then -1 else |argNames|) else |args[0]|
    }

    /** std::accumulate over the list sizes, each product taken on 64 bits. */
    static method Accumulate(arglists: seq<seq<int>>) returns (total: nat)
      ensures total == Emitted(arglists)
    {
      ghost var sizes := Sizes(arglists);
      total := 1;
      for k := 0 to |arglists|
        invariant total == Total(sizes[..k]) % TWO64
      {
        TotalSnoc(sizes, k);
        MulMod(Total(sizes[..k]), sizes[k], TWO64);
        total := (total * |arglists[k]|) % TWO64;
      }
      assert sizes[..|sizes|] == sizes;
      WrappedIs(Total(sizes));
    }

    /** Advances the odometer by one. */
    static method Advance(arglists: seq<seq<int>>, before: seq<nat>) returns (indices: seq<nat>)
      requires arglists != [] && Positive(Sizes(arglists)) && IsIndex(Sizes(arglists), before)
      ensures indices == Next(Sizes(arglists), before)
    {
      ghost var sizes := Sizes(arglists);
      indices := before;
      var arg := 0;
      var carry := true;
      assert sizes[0..] == sizes && indices[0..] == indices;
      while carry
        invariant 0 <= arg <= |arglists| && |indices| == |arglists|
        invariant carry ==> arg < |arglists|
        invariant Next(sizes, before)
               == indices[..arg] + if carry then Next(sizes[arg..], indices[arg..]) else indices[arg..]
        decreases |arglists| - arg, carry
      {
        Turn(sizes, indices, arg);
        indices := indices[arg := (indices[arg] + 1) % |arglists[arg]|];
        carry := indices[arg] == 0 && arg + 1 < |arglists|;
        arg := arg + 1;
      }
      assert indices[..arg] + indices[arg..] == indices;
    }

    method ArgsProduct(arglists: seq<seq<int>>)
      requires arglists != [] && (ArgsCnt() == -1 || ArgsCnt() == |arglists|)
      modifies this
      ensures args == old(args) + Appended(arglists)
      ensures argNames == old(argNames)
    {
      ghost var sizes := Sizes(arglists);
      TotalZero(sizes);
      var indices: seq<nat> := seq(|arglists|, _ => 0);
      var total := Accumulate(arglists);
      if total > 0 {
        ZeroDigits(sizes, indices);
      }
      for i := 0 to total
        invariant total > 0 ==> indices == Digits(sizes, i) && args == old(args) + Tuples(arglists, i)
        invariant total == 0 ==> args == old(args)
        invariant argNames == old(argNames)
      {
        DigitsAreIndex(sizes, i);
        var tuple := Collect(arglists, indices);
        TuplesGrow(old(args), arglists, i, tuple);
        args := args + [tuple];
        NextCounts(sizes, i);
        indices := Advance(arglists, indices);
      }
    }

    static method Collect(arglists: seq<seq<int>>, indices: seq<nat>) returns (tuple: seq<int>)
      requires IsIndex(Sizes(arglists), indices)
      ensures tuple == Pick(arglists, indices)
    {
      tuple := [];
      for arg := 0 to |arglists|
        invariant |tuple| == arg && forall k :: 0 <= k < arg ==> tuple[k] == arglists[k][indices[k]]
      {
        tuple := tuple + [arglists[arg][indices[arg]]];
      }
    }
  }

  lemma {:induction false} ZeroDigits(sizes: seq<nat>, zeros: seq<nat>)
    requires Positive(sizes) && |zeros| == |sizes| && forall k :: 0 <= k < |zeros| ==> zeros[k] == 0
    ensures Digits(sizes, 0) == zeros
  {
    if sizes != [] {
      ZeroDigits(sizes[1..], zeros[1..]);
      ModUnique(0, sizes[0], 0, 0);
      assert zeros == [0] + zeros[1..];
    }
  }

  /** One turn of the wheel at position `arg`. */
  lemma Turn(sizes: seq<nat>, ds: seq<nat>, arg: nat)
    requires Positive(sizes) && |ds| == |sizes| && arg < |sizes|
    ensures var d := (ds[arg] + 1) % sizes[arg];
            var ds' := ds[arg := d];
            ds[..arg] + Next(sizes[arg..], ds[arg..])
            == ds'[..arg + 1]
               + if d == 0 && arg + 1 < |sizes| then Next(sizes[arg + 1..], ds'[arg + 1..]) else ds'[arg + 1..]
  {
    var d := (ds[arg] + 1) % sizes[arg];
    var ds' := ds[arg := d];
    assert sizes[arg..][1..] == sizes[arg + 1..];
    assert ds[arg..][1..] == ds'[arg + 1..];
    assert ds'[..arg + 1] == ds[..arg] + [d];
  }
}
