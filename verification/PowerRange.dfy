/** Argument ranges of a benchmark: powers of a multiplier between two bounds, computed
    without leaving the range of the element type. */
module PowerRange {

  function Pow(b: int, e: nat): int {
    if e == 0 then 1 else b * Pow(b, e - 1)
  }

  ghost predicate IsPowerFrom(mult: int, e: nat, x: int) {
    exists k: nat :: k >= e && x == Pow(mult, k)
  }

  ghost predicate IsPower(mult: int, x: int) {
    IsPowerFrom(mult, 0, x)
  }

  ghost predicate Increasing(s: seq<int>) {
    forall i, j :: 0 <= i < j < |s| ==> s[i] < s[j]
  }

  // ------------------------------------------------ specification

  /** The values p, p * mult, p * mult^2, ... that lie in [lo, hi], in increasing order. */
  ghost function PowersFrom(p: int, mult: int, lo: int, hi: int): seq<int>
    requires p > 0 && mult >= 2
    decreases hi - p
  {
    if p > hi then []
    else (if p >= lo then [p] else []) + PowersFrom(Times(p, mult), mult, lo, hi)
  }

  /** p * mult, as mult copies of p. */
  ghost function Times(p: int, mult: int): (r: int)
    requires p > 0 && mult >= 2
    ensures r > p
    decreases mult
  {
    if mult == 2 then p + p else Times(p, mult - 1) + p
  }

  lemma {:induction false} TimesIs(p: int, mult: int)
    requires p > 0 && mult >= 2
    ensures Times(p, mult) == p * mult
    decreases mult
  {
    if mult > 2 {
      TimesIs(p, mult - 1);
      assert p * (mult - 1) + p == p * mult;
    }
  }

  ghost function Powers(mult: int, lo: int, hi: int): seq<int>
    requires mult >= 2
  {
    PowersFrom(1, mult, lo, hi)
  }

  /** The sequence with every element negated, in reverse order. */
  ghost function Mirrored(s: seq<int>): (r: seq<int>)
    ensures |r| == |s| && forall i :: 0 <= i < |s| ==> r[i] == -s[|s| - 1 - i]
  {
    seq(|s|, i requires 0 <= i < |s| => -s[|s| - 1 - i])
  }

  ghost function Negatives(lo: int, hi: int, mult: int): seq<int>
    requires mult >= 2
  {
    if lo + 1 < 0 then Mirrored(Powers(mult, if hi - 1 < -1 then 1 - hi else 1, -lo - 1)) else []
  }

  ghost function Positives(lo: int, hi: int, mult: int): seq<int>
    requires mult >= 2
  {
    if hi - 1 > 0 then Powers(mult, if lo + 1 > 1 then lo + 1 else 1, hi - 1) else []
  }

  ghost function Range(lo: int, hi: int, mult: int): seq<int>
    requires lo <= hi && mult >= 2
  {
    if lo == hi then [lo]
    else if lo + 1 == hi then [lo, hi]
    else
      var zero := if lo < 0 && hi >= 0 then [0] else [];
      var last := if hi == 0 then [] else [hi];
      [lo] + Negatives(lo, hi, mult) + zero + Positives(lo, hi, mult) + last
  }

  lemma {:induction false} PowersFromMembers(p: int, e: nat, mult: int, lo: int, hi: int, x: int)
    requires mult >= 2 && p == Pow(mult, e) && p > 0
    ensures x in PowersFrom(p, mult, lo, hi) <==> lo <= x <= hi && IsPowerFrom(mult, e, x)
    decreases hi - p
  {
    if p > hi {
      forall k: nat | k >= e && x == Pow(mult, k) ensures x >= p {
        PowGrows(mult, e, k);
      }
    } else {
      TimesIs(p, mult);
      PowersFromMembers(Times(p, mult), e + 1, mult, lo, hi, x);
      if IsPowerFrom(mult, e, x) {
        var k: nat :| k >= e && x == Pow(mult, k);
        assert k == e || k >= e + 1;
      }
    }
  }

  lemma {:induction false} PowPositive(mult: int, e: nat)
    requires mult >= 2
    ensures Pow(mult, e) > 0
  {
    if e > 0 {
      PowPositive(mult, e - 1);
      TimesIs(Pow(mult, e - 1), mult);
    }
  }

  lemma {:induction false} PowGrows(mult: int, a: nat, b: nat)
    requires mult >= 2 && a <= b
    ensures 0 < Pow(mult, a) <= Pow(mult, b)
    decreases b
  {
    PowPositive(mult, a);
    if a < b {
      PowGrows(mult, a, b - 1);
      TimesIs(Pow(mult, b - 1), mult);
    }
  }

  lemma {:induction false} PowersFromBounds(p: int, mult: int, lo: int, hi: int, x: int)
    requires p > 0 && mult >= 2 && x in PowersFrom(p, mult, lo, hi)
    ensures p <= x <= hi && lo <= x
    decreases hi - p
  {
    if p <= hi && x in PowersFrom(Times(p, mult), mult, lo, hi) {
      PowersFromBounds(Times(p, mult), mult, lo, hi, x);
    }
  }

  lemma Prepended(p: int, rest: seq<int>)
    requires Increasing(rest) && (rest == [] || p < rest[0])
    ensures Increasing([p] + rest)
  {
  }

  lemma {:induction false} PowersFromIncreasing(p: int, mult: int, lo: int, hi: int)
    requires p > 0 && mult >= 2
    ensures Increasing(PowersFrom(p, mult, lo, hi))
    decreases hi - p
  {
    if p <= hi {
      PowersFromIncreasing(Times(p, mult), mult, lo, hi);
      var rest := PowersFrom(Times(p, mult), mult, lo, hi);
      if rest != [] {
        PowersFromBounds(Times(p, mult), mult, lo, hi, rest[0]);
      }
      if p >= lo {
        Prepended(p, rest);
      } else {
        assert PowersFrom(p, mult, lo, hi) == rest;
      }
    }
  }

  lemma PowersMembers(mult: int, lo: int, hi: int, x: int)
    requires mult >= 2
    ensures x in Powers(mult, lo, hi) <==> lo <= x <= hi && IsPower(mult, x)
  {
    PowersFromMembers(1, 0, mult, lo, hi, x);
  }

  lemma PowerPositive(mult: int, x: int)
    requires mult >= 2 && IsPower(mult, x)
    ensures x > 0
  {
    var k: nat :| k >= 0 && x == Pow(mult, k);
    PowGrows(mult, k, k);
  }

  /** What the range must contain. */
  ghost predicate Wanted(lo: int, hi: int, mult: int, x: int) {
    || x == lo || x == hi
    || (x == 0 && lo < 0 <= hi)
    || (lo < x < hi && (IsPower(mult, x) || IsPower(mult, -x)))
  }

  lemma MirroredMembers(s: seq<int>, x: int)
    ensures x in Mirrored(s) <==> -x in s
  {
    if -x in s {
      var i :| 0 <= i < |s| && s[i] == -x;
      assert Mirrored(s)[|s| - 1 - i] == x;
    }
  }

  lemma MirroredPowers(mult: int, a: int, b: int, x: int)
    requires mult >= 2
    ensures x in Mirrored(Powers(mult, a, b)) <==> a <= -x <= b && IsPower(mult, -x)
  {
    MirroredMembers(Powers(mult, a, b), x);
    PowersMembers(mult, a, b, -x);
  }

  lemma NegativesMembers(lo: int, hi: int, mult: int, x: int)
    requires mult >= 2 && lo + 1 < hi
    ensures x in Negatives(lo, hi, mult) <==> lo < x < hi && x < 0 && IsPower(mult, -x)
  {
    if lo + 1 < 0 {
      var a := if hi - 1 < -1 then 1 - hi else 1;
      MirroredPowers(mult, a, -lo - 1, x);
    }
  }

  lemma PositivesMembers(lo: int, hi: int, mult: int, x: int)
    requires mult >= 2 && lo + 1 < hi
    ensures x in Positives(lo, hi, mult) <==> lo < x < hi && x > 0 && IsPower(mult, x)
  {
    if hi - 1 > 0 {
      PowersMembers(mult, if lo + 1 > 1 then lo + 1 else 1, hi - 1, x);
    }
  }

  /** The range holds exactly the wanted values. */
  lemma RangeMembers(lo: int, hi: int, mult: int, x: int)
    requires lo <= hi && mult >= 2
    ensures x in Range(lo, hi, mult) <==> Wanted(lo, hi, mult, x)
  {
    if lo + 1 < hi {
      NegativesMembers(lo, hi, mult, x);
      PositivesMembers(lo, hi, mult, x);
      if IsPower(mult, x) {
        PowerPositive(mult, x);
      }
      if IsPower(mult, -x) {
        PowerPositive(mult, -x);
      }
      var zero := if lo < 0 && hi >= 0 then [0] else [];
      var last := if hi == 0 then [] else [hi];
      assert x in Range(lo, hi, mult) <==>
        x == lo || x in Negatives(lo, hi, mult) || x in zero || x in Positives(lo, hi, mult) || x in last;
    }
  }

  /** Increasing, with all elements in [l, h]. */
  ghost predicate Ascends(s: seq<int>, l: int, h: int) {
    Increasing(s) && forall i :: 0 <= i < |s| ==> l <= s[i] <= h
  }

  lemma Joined(a: seq<int>, b: seq<int>, l: int, m: int, n: int, h: int)
    requires Ascends(a, l, m) && Ascends(b, n, h) && m < n
    ensures Ascends(a + b, if l < n then l else n, if m < h then h else m)
  {
  }

  lemma PowersAscend(mult: int, lo: int, hi: int)
    requires mult >= 2
    ensures Ascends(Powers(mult, lo, hi), lo, hi)
  {
    PowersFromIncreasing(1, mult, lo, hi);
    var s := Powers(mult, lo, hi);
    forall i | 0 <= i < |s| ensures lo <= s[i] <= hi {
      PowersFromBounds(1, mult, lo, hi, s[i]);
    }
  }

  lemma MirroredAscends(s: seq<int>, l: int, h: int)
    requires Ascends(s, l, h)
    ensures Ascends(Mirrored(s), -h, -l)
  {
  }

  lemma MirroredPowersAscend(mult: int, a: int, b: int)
    requires mult >= 2
    ensures Ascends(Mirrored(Powers(mult, a, b)), -b, -a)
  {
    PowersAscend(mult, a, b);
    MirroredAscends(Powers(mult, a, b), a, b);
  }

  lemma NegativesAre(lo: int, hi: int, mult: int, a: int, b: int)
    requires mult >= 2 && lo + 1 < hi && lo + 1 < 0 && b == -lo - 1 && a == if hi - 1 < -1 then 1 - hi else 1
    ensures Negatives(lo, hi, mult) == Mirrored(Powers(mult, a, b))
  {
  }

  lemma AscendsEqual(s: seq<int>, t: seq<int>, l: int, h: int)
    requires s == t && Ascends(s, l, h)
    ensures Ascends(t, l, h)
  {
  }

  lemma NegativesAscend(lo: int, hi: int, mult: int)
    requires mult >= 2 && lo + 1 < hi
    ensures Ascends(Negatives(lo, hi, mult), lo + 1, if hi - 1 < -1 then hi - 1 else -1)
  {
    if lo + 1 < 0 {
      var a, b := if hi - 1 < -1 then 1 - hi else 1, -lo - 1;
      MirroredPowersAscend(mult, a, b);
      NegativesAre(lo, hi, mult, a, b);
      AscendsEqual(Mirrored(Powers(mult, a, b)), Negatives(lo, hi, mult), -b, -a);
    }
  }

  lemma PositivesAscend(lo: int, hi: int, mult: int)
    requires mult >= 2 && lo + 1 < hi
    ensures Ascends(Positives(lo, hi, mult), if lo + 1 > 1 then lo + 1 else 1, hi - 1)
  {
    if hi - 1 > 0 {
      PowersAscend(mult, if lo + 1 > 1 then lo + 1 else 1, hi - 1);
    }
  }

  /** What comes before the final hi ascends, staying below hi unless hi is 0. */
  lemma BodyAscends(lo: int, hi: int, mult: int, c: seq<int>)
    requires mult >= 2 && lo + 1 < hi
    requires c == [lo] + Negatives(lo, hi, mult) + (if lo < 0 && hi >= 0 then [0] else [])
    ensures Ascends(c + Positives(lo, hi, mult), lo, if hi == 0 then 0 else hi - 1)
  {
    NegativesAscend(lo, hi, mult);
    PositivesAscend(lo, hi, mult);
    var pos := Positives(lo, hi, mult);
    LowerHalf(lo, hi, Negatives(lo, hi, mult), if lo < 0 && hi >= 0 then [0] else []);
    if hi > 0 {
      var n := if lo + 1 > 1 then lo + 1 else 1;
      Joined(c, pos, lo, n - 1, n, hi - 1);
    } else {
      assert c + pos == c;
    }
  }

  lemma RangeIs(lo: int, hi: int, mult: int, body: seq<int>)
    requires mult >= 2 && lo + 1 < hi
    requires body == [lo] + Negatives(lo, hi, mult) + (if lo < 0 && hi >= 0 then [0] else []) + Positives(lo, hi, mult)
    ensures Range(lo, hi, mult) == body + if hi == 0 then [] else [hi]
  {
  }

  /** From a body that ascends from lo, and to hi itself if hi is 0. */
  lemma BodyCompleted(lo: int, hi: int, body: seq<int>, range: seq<int>)
    requires Ascends(body, lo, if hi == 0 then 0 else hi - 1) && body != [] && body[0] == lo
    requires (body[|body| - 1] == hi <==> hi == 0) && range == body + if hi == 0 then [] else [hi]
    ensures Increasing(range) && range != [] && range[0] == lo && range[|range| - 1] == hi
  {
    if hi == 0 {
      assert range == body;
    } else {
      Joined(body, [hi], lo, hi - 1, hi, hi);
    }
  }

  /** The range is strictly increasing from lo to hi. */
  lemma RangeIncreasing(lo: int, hi: int, mult: int)
    requires lo <= hi && mult >= 2
    ensures Increasing(Range(lo, hi, mult)) && Range(lo, hi, mult) != []
    ensures Range(lo, hi, mult)[0] == lo && Range(lo, hi, mult)[|Range(lo, hi, mult)| - 1] == hi
  {
    if lo + 1 < hi {
      var c := [lo] + Negatives(lo, hi, mult) + (if lo < 0 && hi >= 0 then [0] else []);
      var body := c + Positives(lo, hi, mult);
      BodyAscends(lo, hi, mult, c);
      BodyEndsBelow(lo, hi, mult, body);
      RangeIs(lo, hi, mult, body);
      BodyCompleted(lo, hi, body, Range(lo, hi, mult));
    }
  }

  /** lo, the negative powers and 0 ascend to at most 0 (or to lo), and below hi unless hi is 0. */
  lemma LowerHalf(lo: int, hi: int, neg: seq<int>, zero: seq<int>)
    requires lo + 1 < hi && Ascends(neg, lo + 1, if hi - 1 < -1 then hi - 1 else -1)
    requires (lo + 1 >= 0 ==> neg == []) && zero == if lo < 0 && hi >= 0 then [0] else []
    ensures Ascends([lo] + neg + zero, lo, if lo > 0 then lo else if hi < 0 then hi - 1 else 0)
  {
    if neg == [] {
      assert [lo] + neg == [lo];
    }
    if zero == [] {
      assert [lo] + neg + zero == [lo] + neg;
    }
  }

  /** A strictly increasing sequence is determined by its elements, so the two lemmas above
      leave no choice. */
  lemma {:induction false} IncreasingUnique(a: seq<int>, b: seq<int>)
    requires Increasing(a) && Increasing(b) && forall x :: x in a <==> x in b
    ensures a == b
  {
    assert b == [] || b[0] in b;
    if a != [] {
      assert a[0] in a && a[0] in b;
      assert b[0] in a;
      assert a[0] == b[0];
      forall x ensures x in a[1..] <==> x in b[1..] {
        TailMembers(a, x);
        TailMembers(b, x);
      }
      IncreasingUnique(a[1..], b[1..]);
    }
  }

  lemma TailMembers(s: seq<int>, x: int)
    requires Increasing(s) && s != []
    ensures x in s[1..] <==> x in s && x != s[0]
  {
    if x in s && x != s[0] {
      var i :| 0 <= i < |s| && s[i] == x;
      assert s[1..][i - 1] == x;
    }
  }

  // ------------------------------------------------ the vector

  /** A vector of a signed integer type with largest value `max`; arithmetic on elements must
      stay in that type's range. */
  class ArgVector {
    const max: int
    var items: seq<int>

    constructor (max: int)
      requires max > 0
      ensures this.max == max && items == []
    {
      this.max := max;
      items := [];
    }

    predicate Fits(x: int) {
      -max - 1 <= x <= max
    }

    /** The value of an expression of the element type, which must not overflow. */
    function Value(x: int): int
      requires Fits(x)
    {
      x
    }

    method AddPowers(lo: int, hi: int, mult: int) returns (start: nat)
      requires 0 <= lo <= hi <= max && mult >= 2
      modifies this
      ensures start == |old(items)| && items == old(items) + Powers(mult, lo, hi)
    {
      start := |items|;
      var i := 1;
      while i <= hi
        invariant i > 0
        invariant items + PowersFrom(i, mult, lo, hi) == old(items) + Powers(mult, lo, hi)
        decreases hi - i
      {
        ghost var before := items;
        if i >= lo {
          items := items + [i];
        }
        assert items + PowersFrom(Times(i, mult), mult, lo, hi) == before + PowersFrom(i, mult, lo, hi);
        TimesIs(i, mult);
        if i > max / mult {
          BeyondMax(i, mult, max);
          break;
        }
        WithinMax(i, mult, max);
        i := Value(i * mult);
      }
    }

    method AddNegatedPowers(lo: int, hi: int, mult: int)
      requires -max - 1 < lo <= hi <= 0 && mult >= 2
      modifies this
      ensures items == old(items) + Mirrored(Powers(mult, -hi, -lo))
    {
      ghost var powers := Powers(mult, -hi, -lo);
      PowersAscend(mult, -hi, -lo);
      var it := AddPowers(Value(-hi), Value(-lo), mult);
      for t := it to |items|
        invariant |items| == it + |powers| && items[..it] == old(items)
        invariant forall j :: it <= j < t ==> items[j] == -powers[j - it]
        invariant forall j :: t <= j < |items| ==> items[j] == powers[j - it]
      {
        items := items[t := Value(items[t] * -1)];
      }
      ghost var negated := items;
      items := items[..it] + Reversed(items[it..]);
      assert Reversed(negated[it..]) == Mirrored(powers);
    }

    static function Reversed(s: seq<int>): (r: seq<int>)
      ensures |r| == |s| && forall i :: 0 <= i < |s| ==> r[i] == s[|s| - 1 - i]
    {
      seq(|s|, i requires 0 <= i < |s| => s[|s| - 1 - i])
    }

    method AddRange(lo: int, hi: int, mult: int)
      requires Fits(lo) && Fits(hi) && lo <= hi && mult >= 2
      modifies this
      ensures items == old(items) + Range(lo, hi, mult)
    {
      items := items + [lo];
      if lo == hi {
        return;
      }
      if Value(lo + 1) == hi {
        items := items + [hi];
        return;
      }
      var loInner, hiInner := Value(lo + 1), Value(hi - 1);
      ghost var part := [lo];
      if loInner < 0 {
        AddNegatedPowers(loInner, if hiInner < -1 then hiInner else -1, mult);
      }
      Grown(old(items), part, Negatives(lo, hi, mult), items);
      part := part + Negatives(lo, hi, mult);
      ghost var zero := if lo < 0 && hi >= 0 then [0] else [];
      if lo < 0 && hi >= 0 {
        items := items + [0];
      }
      Grown(old(items), part, zero, items);
      part := part + zero;
      if hiInner > 0 {
        var _ := AddPowers(if loInner > 1 then loInner else 1, hiInner, mult);
      }
      Grown(old(items), part, Positives(lo, hi, mult), items);
      part := part + Positives(lo, hi, mult);
      BodyEndsBelow(lo, hi, mult, part);
      ghost var last := if hi == 0 then [] else [hi];
      if hi != items[|items| - 1] {
        items := items + [hi];
      }
      Grown(old(items), part, last, items);
    }
  }

  /** Appending to what has been appended. */
  lemma Grown(base: seq<int>, part: seq<int>, more: seq<int>, items: seq<int>)
    requires items == base + part + more || (more == [] && items == base + part)
    ensures items == base + (part + more)
  {
  }

  lemma BeyondMax(i: int, mult: int, max: int)
    requires i > 0 && mult >= 2 && i > max / mult
    ensures i * mult > max
  {
    assert max < mult * (max / mult) + mult;
    assert mult * (max / mult + 1) <= mult * i;
  }

  lemma WithinMax(i: int, mult: int, max: int)
    requires i > 0 && mult >= 2 && i <= max / mult
    ensures i * mult <= max
  {
    assert mult * i <= mult * (max / mult);
  }

  /** Before the final step, the last value is hi exactly when hi is 0. */
  lemma BodyEndsBelow(lo: int, hi: int, mult: int, body: seq<int>)
    requires lo + 1 < hi && mult >= 2
    requires body == [lo] + Negatives(lo, hi, mult) + (if lo < 0 && hi >= 0 then [0] else []) + Positives(lo, hi, mult)
    ensures body != [] && (body[|body| - 1] == hi <==> hi == 0)
  {
    NegativesAscend(lo, hi, mult);
    PositivesAscend(lo, hi, mult);
  }
}
