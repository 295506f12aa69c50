/**
 round_to_nearest of include/base/numeric.h, on every double.
 */
module Numeric {
  import opened Doubles

  /** floor(n + .5), the sum in double arithmetic. */
  function RoundToNearest(n: real): int {
    Round(n + 0.5).Floor
  }

  /** The double just below one half. */
  function BelowHalf(): real {
    Scale((P53 - 1) as real, -54)
  }

  // ---------- When does round_to_nearest round to nearest? ----------

  lemma BelowHalfValue()
    ensures Representable(BelowHalf()) && BelowHalf() == 0.5 - Scale(1.0, -54)
    ensures 0.25 < BelowHalf() < 0.5
  {
    IsRepresentable(P53 - 1, -54);
    OneHalfScaled();
    hide Scale;
    ScaleAdd((P53 - 1) as real, 1.0, -54);
  }

  lemma NoIntegerBetween(b: int, f: int, n: real)
    requires f as real < n <= b as real
    ensures b as real >= f as real + 1.0
  {
    assert b > f;
  }

  lemma FractionHasNegativeExponent(n: real, f: int, m: int, e: int)
    requires IsDouble(n, m, e) && f as real < n < f as real + 0.5
    ensures e < 0
  {
    if e >= 0 {
      var k := ScaleInt(m, e);
      NoIntegerBetween(k, f, n);
    }
  }

  lemma ScalePositive(x: real, e: int)
    requires x > 0.0
    ensures Scale(x, e) > 0.0
  {
    ScaleMonotone(x, 0.0, e);
    ScaleNegative(0.0, e);
  }

  /** One half is the multiple 2^(-1-e) of 2^e. */
  lemma HalfOnGrid(e: int) returns (q: int)
    requires e < 0
    ensures Scale(q as real, e) == 0.5 && q > 0
  {
    q := ScaleInt(1, -1 - e);
    ScalePositive(1.0, -1 - e);
    ScaleTwice(1.0, -1 - e, e);
    assert Scale(1.0, -1) == 0.5;
  }

  /** The sum below one half of a unit from an integer f >= 1 stays in n's binade. */
  lemma SumStaysInBinade(n: real, f: int, m: int, m': int, e: int)
    requires IsDouble(n, m, e) && f as real < n < f as real + 0.5 && f >= 1
    requires n + 0.5 == Scale(m' as real, e)
    ensures m' <= P53
  {
    if m' > P53 {
      PowersOfTwo();
      ScaleTwice(1.0, 53, e);
      ScaleMonotone(P53 as real, m' as real, e);
      ScaleMonotone(m as real, P53 as real, e);
      if 53 + e >= 0 {
        var b := ScaleInt(1, 53 + e);
        NoIntegerBetween(b, f, n);
      } else {
        ScaleGrows(1.0, 53 + e, 0);
      }
    }
  }

  /** Adding one half to a double that lies less than one half above an integer, the integer 0
      excepted, is exact. */
  lemma HalfStepIsExact(n: real, f: int)
    requires Representable(n) && f as real < n < f as real + 0.5 && f != 0
    ensures Representable(n + 0.5)
  {
    var m, e :| IsDouble(n, m, e);
    FractionHasNegativeExponent(n, f, m, e);
    var q := HalfOnGrid(e);
    ScaleAdd(m as real, q as real, e);
    var m' := m + q;
    assert m' as real == m as real + q as real;
    if f >= 1 {
      SumStaysInBinade(n, f, m, m', e);
    } else {
      assert f as real <= -1.0;
      ScaleMonotone(0.0, m' as real, e);
      ScaleNegative(0.0, e);
    }
    IsRepresentable(m', e);
  }

  /** Below 2^52 the result is floor(n + 1/2) except for the double just below one half. */
  lemma RoundToNearestBelow52(n: real)
    requires Representable(n) && -P52 as real < n < P52 as real
    ensures RoundToNearest(n) == (n + 0.5).Floor <==> n != BelowHalf()
  {
    var x := n + 0.5;
    var f := x.Floor;
    RepresentableInt(f);
    RoundStaysBeyond(x, f as real);
    BelowHalfValue();
    if n < f as real {
      RoundIsNearest(x, f as real);
    } else if n == f as real {
      RepresentableHalf(2 * f + 1);
      RoundFixesDoubles(x);
    } else if f != 0 {
      HalfStepIsExact(n, f);
      RoundFixesDoubles(x);
    } else {
      RoundNearHalf(n);
    }
  }

  lemma OneHalfScaled()
    ensures Scale(P53 as real, -54) == 0.5 && Scale(P53 as real, -53) == 1.0
    ensures Scale(1.0, -53) == 2.0 * Scale(1.0, -54) == Scale(2.0, -54) > 0.0
    ensures Scale(1.0, -53) <= 0.25
  {
    PowersOfTwo();
    ScaleTwice(1.0, 53, -54);
    ScaleTwice(1.0, 53, -53);
    assert Scale(1.0, -1) == 0.5;
    assert Scale(1.0, -54) == Scale(1.0, -53) / 2.0;
    ScaleTwice(1.0, 1, -54);
    ScalePositive(1.0, -53);
    ScaleGrows(1.0, -53, -2);
    assert Scale(1.0, -2) == 0.25;
  }

  lemma OnlyDoubleBelowHalf(n: real)
    requires Representable(n) && 0.5 - Scale(1.0, -53) < n < 0.5
    ensures n == BelowHalf()
  {
    OneHalfScaled();
    assert Scale(1.0, -2) == 0.25;
    var j := Grid(n, -2);
    hide Scale;
    ScaleAdd((P53 - 2) as real, 2.0, -54);
    ScaleMonotone(j as real, (P53 - 2) as real, -54);
    ScaleMonotone(P53 as real, j as real, -54);
    assert j == P53 - 1;
  }

  lemma OneBelowScaled()
    ensures Scale(BelowHalf() + 0.5, 53) == P53 as real - 0.5
  {
    var t := (P53 - 1) as real + P53 as real;
    assert Scale(t, -1) == t / 2.0;
    OneHalfScaled();
    hide Scale;
    ScaleAdd((P53 - 1) as real, P53 as real, -54);
    ScaleTwice(t, -54, 53);
  }

  lemma BelowHalfRoundsToOne()
    ensures RoundToNearest(BelowHalf()) == 1
  {
    OneHalfScaled();
    OneBelowScaled();
    BelowHalfValue();
    TieBelow(P53);
    hide Scale, BelowHalf;
    RoundInBinade(BelowHalf() + 0.5, 53);
  }

  lemma FarFromHalf(n: real)
    requires 0.0 < n <= 0.5 - Scale(1.0, -53)
    ensures RoundToNearest(n) == 0 && n != BelowHalf()
  {
    OneHalfScaled();
    BelowHalfValue();
    hide Scale;
    ScaleAdd((P53 - 1) as real, 1.0, -53);
    IsRepresentable(P53 - 1, -53);
    RepresentableInt(0);
    RoundStaysBeyond(n + 0.5, 0.0);
    RoundStaysBeyond(n + 0.5, 1.0 - Scale(1.0, -53));
  }

  lemma RoundNearHalf(n: real)
    requires Representable(n) && 0.0 < n < 0.5
    ensures RoundToNearest(n) == if n == BelowHalf() then 1 else 0
  {
    if n > 0.5 - Scale(1.0, -53) {
      OnlyDoubleBelowHalf(n);
      BelowHalfRoundsToOne();
    } else {
      FarFromHalf(n);
    }
  }

  // ---------- From 2^52 on, doubles are integers ----------

  lemma LargeIsInteger(n: real) returns (k: int)
    requires Representable(n) && Abs(n) >= P52 as real
    ensures n == k as real
    ensures Abs(n) >= P53 as real ==> k % 2 == 0
  {
    PowersOfTwo();
    k := Grid(n, 52);
    if Abs(n) >= P53 as real {
      var j := Grid(n, 53);
      assert n == 2.0 * j as real;
      assert k == 2 * j;
    }
  }

  lemma RoundBase(x: real)
    requires P52 as real <= x < P53 as real
    ensures Round(x) == NearestEven(x) as real
  {
  }

  lemma RoundToNearestAbove52(n: real, k: int)
    requires Representable(n) && n == k as real && k >= P52
    ensures RoundToNearest(n) == if k % 2 == 0 then k else k + 1
  {
    var x := n + 0.5;
    if k < P53 {
      RoundBase(x);
    } else {
      RoundIsNearest(x, n);
      hide Round, Representable;
      var k' := LargeIsInteger(n);
      var r := LargeIsInteger(Round(x));
    }
  }

  lemma RoundToNearestBelowMinus52(n: real, k: int)
    requires Representable(n) && n == k as real && k <= -P52
    ensures RoundToNearest(n) == if k % 2 == 0 then k else k + 1
  {
    if k == -P52 {
      RepresentableHalf(2 * k + 1);
      RoundFixesDoubles(n + 0.5);
    } else if k >= -P53 {
      TieBelow(-k);
      RoundBase((-k) as real - 0.5);
    } else {
      BelowMinus53(n, k);
    }
  }

  lemma TieBelow(a: int)
    ensures NearestEven(a as real - 0.5) == if a % 2 == 0 then a else a - 1
  {
    assert (a as real - 0.5).Floor == a - 1;
  }

  lemma BelowMinus53(n: real, k: int)
    requires Representable(n) && n == k as real && k < -P53
    ensures RoundToNearest(n) == k && k % 2 == 0
  {
    var k' := LargeIsInteger(n);
    assert k <= -P53 - 2;
    RoundIsNearest(n + 0.5, n);
    var r := LargeIsInteger(Round(n + 0.5));
    assert k as real <= r as real <= (k + 1) as real;
  }

  /** round_to_nearest on every double: it is floor(n + 1/2), as its documentation promises,
      except at the double just below one half and at the odd integers from 2^52 on. */
  lemma RoundToNearestIsExactWhen(n: real)
    requires Representable(n)
    ensures RoundToNearest(n) == (n + 0.5).Floor
            <==> n != BelowHalf() && (Abs(n) >= P52 as real ==> n.Floor % 2 == 0)
  {
    BelowHalfValue();
    if Abs(n) < P52 as real {
      RoundToNearestBelow52(n);
    } else {
      var k := LargeIsInteger(n);
      if k > 0 {
        RoundToNearestAbove52(n, k);
      } else {
        RoundToNearestBelowMinus52(n, k);
      }
    }
  }

  /** The value on every double: where it is not floor(n + 1/2), it is one more. */
  lemma RoundToNearestIs(n: real)
    requires Representable(n)
    ensures RoundToNearest(n)
            == (n + 0.5).Floor
               + if n == BelowHalf() || (Abs(n) >= P52 as real && n.Floor % 2 == 1) then 1 else 0
  {
    BelowHalfValue();
    if Abs(n) < P52 as real {
      BelowHalfRoundsToOne();
      hide RoundToNearest, BelowHalf, Representable;
      RoundToNearestBelow52(n);
    } else {
      hide RoundToNearest, BelowHalf, Representable;
      var k := LargeIsInteger(n);
      if k > 0 {
        RoundToNearestAbove52(n, k);
      } else {
        RoundToNearestBelowMinus52(n, k);
      }
    }
  }

  /** The result is at most one half off, but for the exceptions. */
  lemma ErrorBelow52(n: real)
    requires Representable(n) && Abs(n) < P52 as real
    ensures Abs(RoundToNearest(n) as real - n) <= if n == BelowHalf() then 0.5 + Scale(1.0, -54) else 0.5
  {
    BelowHalfValue();
    RoundToNearestIs(n);
    hide *;
    var f := (n + 0.5).Floor;
    if n == BelowHalf() {
      assert f == 0;
    }
  }

  lemma ErrorFrom52(n: real)
    requires Representable(n) && Abs(n) >= P52 as real
    ensures 0.0 <= RoundToNearest(n) as real - n <= 1.0
    ensures Abs(n) == P52 as real ==> RoundToNearest(n) as real == n
  {
    var k := LargeIsInteger(n);
    hide RoundToNearest, Representable;
    if k > 0 {
      RoundToNearestAbove52(n, k);
    } else {
      RoundToNearestBelowMinus52(n, k);
    }
  }
}
