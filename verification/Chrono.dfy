/**
 The conversions of include/base/chrono.h between nanoseconds and other units, in
 double arithmetic. A nsec_t or time_t value is an int; every floating-point
 operation is the exact operation followed by Round.
 */
module Chrono {
  import opened Doubles
  import opened Numeric

  const INT64_MIN := -0x8000_0000_0000_0000
  const INT64_MAX := 0x7fff_ffff_ffff_ffff

  // ---------- Seconds, milliseconds, microseconds ----------

  datatype Unit = Seconds | Milliseconds | Microseconds

  function Nanos(u: Unit): int {
    match u
    case Seconds => 1_000_000_000
    case Milliseconds => 1_000_000
    case Microseconds => 1_000
  }

  function Exact(x: real, y: real): real {
    x * y
  }

  /** Multiplication and division of doubles. */
  function Times(x: real, y: real): real {
    Round(Exact(x, y))
  }

  function Over(x: real, y: real): real
    requires y != 0.0
  {
    Round(x / y)
  }

  /** nsec_to_sec, nsec_to_msec, nsec_to_usec. */
  function FromNsec(u: Unit, n: int): real {
    Over(Round(n as real), Nanos(u) as real)
  }

  /** sec_to_nsec, msec_to_nsec, usec_to_nsec. */
  function ToNsec(u: Unit, x: real): int {
    RoundToNearest(Times(x, Nanos(u) as real))
  }

  lemma ToNsecIs(u: Unit, x: real)
    ensures ToNsec(u, x) == RoundToNearest(Round(x * Nanos(u) as real))
  {
    assert Times(x, Nanos(u) as real) == Round(Exact(x, Nanos(u) as real));
    match u
    case Seconds =>
    case Milliseconds =>
    case Microseconds =>
  }

  lemma RoundedWithin(p: real, g: nat)
    requires Abs(p) <= Scale(1.0, g) && g <= 52
    ensures Abs(Round(p)) <= P52 as real
  {
    PowersOfTwo();
    RepresentableInt(P52);
    RepresentableInt(-P52);
    hide Round, Scale;
    ScaleGrows(1.0, g, 52);
    RoundStaysBeyond(p, P52 as real);
    RoundStaysBeyond(p, -P52 as real);
  }

  lemma RoundedErrorBelow52(p: real, r: real, g: nat)
    requires Representable(r) && Abs(r) < P52 as real && Abs(r - p) <= Scale(1.0, g - 54)
    ensures Abs(RoundToNearest(r) as real - p) <= 0.5 + Scale(1.0, g - 53)
  {
    hide Scale, RoundToNearest, BelowHalf, Representable;
    ScaleHalves(g);
    ErrorBelow52(r);
    ScaleGrows(1.0, -54, g - 54);
  }

  lemma RoundedErrorFrom52(p: real, r: real, g: nat)
    requires Representable(r) && Abs(r) >= P52 as real && Abs(r - p) <= Scale(1.0, g - 54)
    requires g <= 52 ==> Abs(r) <= P52 as real
    ensures Abs(RoundToNearest(r) as real - p) <= 0.5 + Scale(1.0, g - 53)
  {
    assert Scale(1.0, -1) == 0.5;
    hide Scale, RoundToNearest, Representable;
    ScaleHalves(g);
    ErrorFrom52(r);
    if g > 52 {
      ScaleGrows(1.0, -1, g - 54);
    }
  }

  lemma RoundedError(p: real, g: nat)
    requires Abs(p) <= Scale(1.0, g)
    ensures Abs(RoundToNearest(Round(p)) as real - p) <= 0.5 + Scale(1.0, g - 53)
  {
    RepresentableInt(0);
    hide Round, Scale, RoundToNearest, Representable;
    var r := Round(p);
    RoundIsNearest(p, 0.0);
    RoundError(p, g);
    if g <= 52 {
      RoundedWithin(p, g);
    }
    hide Abs;
    if Abs(r) < P52 as real {
      RoundedErrorBelow52(p, r, g);
    } else {
      RoundedErrorFrom52(p, r, g);
    }
  }

  lemma ScaleHalves(g: nat)
    ensures Scale(1.0, g - 53) == 2.0 * Scale(1.0, g - 54) > 0.0
  {
    ScalePositive(1.0, g - 54);
    ScaleTwice(1.0, 1, g - 54);
    ScaleAdd(1.0, 1.0, g - 54);
    assert Scale(1.0, 1) == 2.0;
  }

  /** Any value at all: the result is the nearest nanosecond count, but for the rounding of the
      product and of the sum in round_to_nearest. */
  lemma ToNsecError(u: Unit, x: real, g: nat)
    requires Abs(x * Nanos(u) as real) <= Scale(1.0, g)
    ensures Abs(ToNsec(u, x) as real - x * Nanos(u) as real) <= 0.5 + Scale(1.0, g - 53)
  {
    ToNsecIs(u, x);
    hide *;
    RoundedError(x * Nanos(u) as real, g);
  }

  lemma HalvesRepresentable()
    ensures Representable(0.5) && Representable(-0.5)
  {
    RepresentableHalf(1);
    RepresentableHalf(-1);
  }

  /** Up to one half of a nanosecond the same bound, 0.5 + 2^-54, fails exactly if the product
      lies below the double just below one half and is rounded to it. */
  lemma ToNsecErrorBelowOneHalf(u: Unit, x: real)
    requires Abs(x * Nanos(u) as real) <= 0.5
    ensures var p := x * Nanos(u) as real;
      Abs(ToNsec(u, x) as real - p) <= 0.5 + Scale(1.0, -54)
      <==> !(Round(p) == BelowHalf() && p < BelowHalf())
  {
    ToNsecIs(u, x);
    var p := x * Nanos(u) as real;
    hide ToNsec, Nanos, Round;
    var r := Round(p);
    HalvesRepresentable();
    BelowHalfValue();
    hide BelowHalf, Scale, RoundToNearest;
    RoundIsNearest(p, 0.5);
    RoundStaysBeyond(p, 0.5);
    RoundStaysBeyond(p, -0.5);
    RoundStaysBeyond(p, BelowHalf());
    hide Representable;
    RoundToNearestIs(r);
    assert (r + 0.5).Floor == if r == 0.5 then 1 else 0;
  }

  lemma {:induction false} ScaleTimes(x: real, c: real, e: int)
    ensures Scale(x, e) * c == Scale(x * c, e)
    decreases if e < 0 then -e else e
  {
    if e > 0 {
      ScaleTimes(x, c, e - 1);
      assert 2.0 * Scale(x, e - 1) * c == 2.0 * (Scale(x, e - 1) * c);
    } else if e < 0 {
      ScaleTimes(x, c, e + 1);
      assert Scale(x, e + 1) / 2.0 * c == Scale(x, e + 1) * c / 2.0;
    }
  }

  lemma ExampleScaled(y: real)
    requires y == Scale(4835703278458516000000000.0, -29)
    ensures P53 as real - 1.5 < y < P53 as real - 1.0
  {
    ScaleTwice(4835703278458516000000000.0, -29, 29);
    ScaleByTen(y, 0);
    ScaleByTen(y, 10);
    ScaleByTen(y, 20);
    assert Scale(y, 30) == 2.0 * Scale(y, 29);
  }

  lemma RoundsToBelowHalf(p: real, y: real)
    requires y == Scale(p, 54) && P53 as real - 1.5 < y < P53 as real - 1.0
    ensures Round(p) == BelowHalf() && 0.0 < p < BelowHalf()
  {
    var k := P53 - 1;
    assert NearestEven(y) == k;
    assert BelowHalf() == Scale(k as real, -54);
    ScaleTwice(k as real, -54, 54);
    ScaleZero(k as real);
    ScaleNegative(0.0, 54);
    hide Scale, BelowHalf, NearestEven, Round;
    ScaleMonotone(BelowHalf(), p, 54);
    ScaleMonotone(p, 0.0, 54);
    RoundInBinade(p, 54);
  }

  lemma ExampleProduct(x: real)
    requires x == Scale(4835703278458516.0, -83)
    ensures var p := x * 1_000_000_000.0; Round(p) == BelowHalf() && 0.0 < p < BelowHalf()
  {
    hide *;
    var p, m := x * 1_000_000_000.0, 4835703278458516000000000.0;
    ScaleTimes(4835703278458516.0, 1_000_000_000.0, -83);
    assert p == Scale(m, -83);
    ScaleTwice(m, -83, 54);
    ExampleScaled(Scale(p, 54));
    RoundsToBelowHalf(p, Scale(p, 54));
  }

  lemma SecondsToNsecIs(x: real)
    ensures ToNsec(Seconds, x) == RoundToNearest(Round(x * 1_000_000_000.0))
  {
    ToNsecIs(Seconds, x);
  }

  /** It does fail: for a double just below half a nanosecond, in seconds. */
  lemma ToNsecErrorExample()
    ensures var x := Scale(4835703278458516.0, -83);
      && Representable(x) && Abs(x * 1_000_000_000.0) <= 0.5
      && ToNsec(Seconds, x) == 1
      && Abs(ToNsec(Seconds, x) as real - x * 1_000_000_000.0) > 0.5 + Scale(1.0, -54)
  {
    var x := Scale(4835703278458516.0, -83);
    IsRepresentable(4835703278458516, -83);
    hide Scale, BelowHalf, ToNsec, Round, RoundToNearest, Representable;
    BelowHalfValue();
    ExampleProduct(x);
    BelowHalfRoundsToOne();
    SecondsToNsecIs(x);
  }

  lemma HalvesGoUp(j: int)
    requires -P53 < j < P53
    ensures RoundToNearest(Round(j as real / 2.0)) == if j % 2 == 0 then j / 2 else j / 2 + 1
  {
    var p := j as real / 2.0;
    RepresentableHalf(j);
    BelowHalfValue();
    assert p != BelowHalf() by {
      assert j <= 0 || p >= 0.5;
    }
    hide Round, RoundToNearest, BelowHalf, Representable;
    RoundFixesDoubles(p);
    RoundToNearestIs(p);
    var k := j / 2;
    assert p == k as real + if j % 2 == 0 then 0.0 else 0.5;
  }

  /** A product that is a multiple of one half is not rounded, and a tie goes up. */
  lemma ToNsecOfHalves(u: Unit, x: real, j: int)
    requires x * Nanos(u) as real == j as real / 2.0 && -P53 < j < P53
    ensures ToNsec(u, x) == if j % 2 == 0 then j / 2 else j / 2 + 1
  {
    hide *;
    ToNsecIs(u, x);
    HalvesGoUp(j);
    var p := x * Nanos(u) as real;
    assert Round(p) == Round(j as real / 2.0);
  }

  /** The quotient: the nearest double to what the count, as a double, divides to. A tie goes to
      the even one. */
  lemma FromNsecIsNearest(u: Unit, n: int, y: real)
    requires Representable(y)
    ensures var q := Round(n as real) / Nanos(u) as real;
      && Representable(FromNsec(u, n))
      && Abs(FromNsec(u, n) - q) <= Abs(y - q)
      && (Abs(FromNsec(u, n) - q) == Abs(y - q) && y != FromNsec(u, n) ==> EvenSignificand(FromNsec(u, n)))
  {
    var q := Round(n as real) / Nanos(u) as real;
    assert FromNsec(u, n) == Round(q);
    hide *;
    RoundIsNearest(q, y);
    if Abs(Round(q) - q) == Abs(y - q) && y != Round(q) {
      TiesGoToEven(q, y);
    }
  }

  // ---------- timespec ----------

  datatype Timespec = Timespec(sec: int, nsec: int)

  const BILLION := 1_000_000_000

  /** Division of the source: truncated toward zero. */
  function TruncDiv(a: int, b: int): int
    requires b > 0
  {
    if a >= 0 then a / b else -(-a / b)
  }

  function NsecToTimespec(ns: int): Timespec {
    Timespec(TruncDiv(ns, BILLION), ns - BILLION * TruncDiv(ns, BILLION))
  }

  function TimespecToNsec(ts: Timespec): int {
    ToNsec(Seconds, Round(ts.sec as real)) + ts.nsec
  }

  /** Seconds and the rest, of the same sign. */
  lemma NsecToTimespecIs(ns: int)
    ensures var ts := NsecToTimespec(ns); ts.sec * BILLION + ts.nsec == ns && Normalised(ts)
  {
  }

  predicate Int64(n: int) {
    INT64_MIN <= n <= INT64_MAX
  }

  /** The largest second count up to which every product with 10^9 is a double. */
  const EXACT_SECONDS := 4611686018

  lemma ProductScaled(s: int)
    ensures (s * BILLION) as real == Scale((s * 1953125) as real, 9)
  {
    var x := (s * 1953125) as real;
    ScaleByFour(x, 0);
    ScaleByFour(x, 2);
    ScaleByFour(x, 4);
    ScaleByFour(x, 6);
    assert Scale(x, 9) == 2.0 * Scale(x, 8);
  }

  lemma ProductRepresentable(s: int)
    requires -9223372036 <= s <= 9223372036
    requires -EXACT_SECONDS <= s <= EXACT_SECONDS || s % 2 == 0
    ensures Representable((s * BILLION) as real)
  {
    ProductScaled(s);
    if -EXACT_SECONDS <= s <= EXACT_SECONDS {
      IsRepresentable(s * 1953125, 9);
    } else {
      var h := s / 2;
      assert s == 2 * h;
      ScaleTwice((h * 1953125) as real, 1, 9);
      assert Scale((h * 1953125) as real, 1) == (s * 1953125) as real;
      IsRepresentable(h * 1953125, 10);
    }
  }

  lemma RepresentableProductIsEven(s: int)
    requires EXACT_SECONDS < s || s < -EXACT_SECONDS
    requires Representable((s * BILLION) as real)
    ensures s % 2 == 0
  {
    PowersOfTwo();
    ScaleByTen(1.0, 52);
    var j := Grid((s * BILLION) as real, 62);
    ScaleByTen(j as real, 0);
    assert (s * BILLION) as real == (1024 * j) as real;
    assert s * 1953125 == 2 * j;
  }

  lemma EvenIntegerKept(n: real, k: int)
    requires Representable(n) && n == k as real && k % 2 == 0
    ensures RoundToNearest(n) == k
  {
    BelowHalfValue();
    RoundToNearestIsExactWhen(n);
  }

  lemma ToNsecOfWhole(s: int)
    requires -P53 <= s <= P53
    ensures ToNsec(Seconds, Round(s as real)) == RoundToNearest(Round((s * BILLION) as real))
  {
    RepresentableInt(s);
    RoundFixesDoubles(s as real);
    assert s as real * BILLION as real == (s * BILLION) as real;
  }

  lemma RoundedProduct(s: int) returns (r: int)
    requires -9223372036 <= s <= 9223372036
    requires EXACT_SECONDS < s || s < -EXACT_SECONDS
    ensures Round((s * BILLION) as real) == r as real && r % 2 == 0 && Representable(r as real)
    ensures -512 <= r - s * BILLION <= 512
  {
    var p := (s * BILLION) as real;
    RepresentableInt(0);
    RoundIsNearest(p, 0.0);
    ProductError(p);
    r := LargeIsInteger(Round(p));
  }

  lemma ExactSeconds(s: int)
    requires -9223372036 <= s <= 9223372036
    requires -EXACT_SECONDS <= s <= EXACT_SECONDS || s % 2 == 0
    ensures ToNsec(Seconds, Round(s as real)) == s * BILLION
  {
    ToNsecOfWhole(s);
    ProductRepresentable(s);
    hide *;
    var k := s * BILLION;
    assert k % 2 == 0;
    RoundFixesDoubles(k as real);
    EvenIntegerKept(k as real, k);
  }

  lemma RoundedSeconds(s: int)
    requires -9223372036 <= s <= 9223372036
    requires !(-EXACT_SECONDS <= s <= EXACT_SECONDS || s % 2 == 0)
    ensures ToNsec(Seconds, Round(s as real)) != s * BILLION
    ensures -512 <= ToNsec(Seconds, Round(s as real)) - s * BILLION <= 512
  {
    ToNsecOfWhole(s);
    hide Round, RoundToNearest, ToNsec, Representable;
    var r := RoundedProduct(s);
    EvenIntegerKept(r as real, r);
    if r == s * BILLION {
      RepresentableProductIsEven(s);
    }
  }

  /** Seconds to nanoseconds on whole seconds: exact or off by at most 512. */
  lemma WholeSeconds(s: int)
    requires -9223372036 <= s <= 9223372036
    ensures ToNsec(Seconds, Round(s as real)) == s * BILLION
            <==> -EXACT_SECONDS <= s <= EXACT_SECONDS || s % 2 == 0
    ensures -512 <= ToNsec(Seconds, Round(s as real)) - s * BILLION <= 512
  {
    hide ToNsec, Round;
    if -EXACT_SECONDS <= s <= EXACT_SECONDS || s % 2 == 0 {
      ExactSeconds(s);
    } else {
      RoundedSeconds(s);
    }
  }

  /** timespec_to_nsec is exact on these seconds and no others, normalised or not. */
  lemma TimespecToNsecIsExactWhen(ts: Timespec)
    requires -9223372036 <= ts.sec <= 9223372036
    ensures TimespecToNsec(ts) == ts.sec * BILLION + ts.nsec
            <==> -EXACT_SECONDS <= ts.sec <= EXACT_SECONDS || ts.sec % 2 == 0
  {
    hide ToNsec, Round;
    WholeSeconds(ts.sec);
  }

  lemma ProductError(p: real)
    requires Abs(p) <= 9223372036000000000.0
    ensures Abs(Round(p) - p) <= 512.0
  {
    PowersOfTwo();
    ScaleByTen(1.0, 53);
    assert Scale(1.0, 9) == 512.0 by {
      ScaleByTen(1.0, 0);
      assert Scale(1.0, 10) == 2.0 * Scale(1.0, 9);
    }
    RoundError(p, 63);
  }

  /** timespec_to_nsec undoes nsec_to_timespec exactly when the seconds are at most 4611686018
      in magnitude or even; every int64 nanosecond count, negative ones included. Otherwise
      the result is at most 512 ns off, and it always fits. */
  lemma TimespecRoundTrip(ns: int)
    requires Int64(ns)
    ensures TimespecToNsec(NsecToTimespec(ns)) == ns
            <==> var s := TruncDiv(ns, BILLION); -EXACT_SECONDS <= s <= EXACT_SECONDS || s % 2 == 0
    ensures -512 <= TimespecToNsec(NsecToTimespec(ns)) - ns <= 512
    ensures Int64(TimespecToNsec(NsecToTimespec(ns)))
  {
    WholeSeconds(TruncDiv(ns, BILLION));
  }

  /** The first counts, up and down, at which the round trip fails. */
  lemma TimespecRoundTripRange(ns: int)
    ensures -4611686019_000000000 < ns < 4611686019_000000000
            ==> TimespecToNsec(NsecToTimespec(ns)) == ns
    ensures TimespecToNsec(NsecToTimespec(4611686019_000000000)) != 4611686019_000000000
    ensures TimespecToNsec(NsecToTimespec(-4611686019_000000000)) != -4611686019_000000000
  {
    if -4611686019_000000000 < ns < 4611686019_000000000 {
      TimespecRoundTrip(ns);
    }
    TimespecRoundTrip(4611686019_000000000);
    TimespecRoundTrip(-4611686019_000000000);
  }

  /** Less than a second of nanoseconds, of the sign of the seconds. */
  predicate Normalised(ts: Timespec) {
    -BILLION < ts.nsec < BILLION && (ts.sec > 0 ==> ts.nsec >= 0) && (ts.sec < 0 ==> ts.nsec <= 0)
  }

  /** The reverse trip, on the normalised timespecs that fit a nanosecond count: the same
      condition on the seconds. */
  lemma NsecRoundTrip(ts: Timespec)
    requires Normalised(ts) && Int64(ts.sec * BILLION + ts.nsec)
    ensures NsecToTimespec(TimespecToNsec(ts)) == ts
            <==> -EXACT_SECONDS <= ts.sec <= EXACT_SECONDS || ts.sec % 2 == 0
    ensures Int64(TimespecToNsec(ts))
  {
    WholeSeconds(ts.sec);
    var exact := ts.sec * BILLION + ts.nsec;
    assert TruncDiv(exact, BILLION) == ts.sec;
  }

  /** 2^63, and two doubles just below its negative. */
  lemma DoublesAtTheBounds()
    ensures Representable(9223372036854775808.0)
    ensures Representable(-9223372036854777856.0) && Representable(-9223372036854779904.0)
  {
    PowersOfTwo();
    ScaleByTen(1.0, 53);
    IsRepresentable(1, 63);
    forall k | k == -P52 - 1 || k == -P52 - 2 ensures Representable((2048 * k) as real) {
      ScaleByTen(k as real, 0);
      assert Scale(k as real, 11) == 2.0 * Scale(k as real, 10);
      IsRepresentable(k, 11);
    }
    assert Representable((2048 * (-P52 - 1)) as real) && Representable((2048 * (-P52 - 2)) as real);
  }

  lemma BeyondInt64(s: int)
    ensures s >= 9223372037 ==> ToNsec(Seconds, Round(s as real)) > INT64_MAX
    ensures s <= -9223372037 ==> ToNsec(Seconds, Round(s as real)) < INT64_MIN
  {
    var x := Round(s as real);
    var p := Round(x * BILLION as real);
    DoublesAtTheBounds();
    RepresentableInt(9223372037);
    RepresentableInt(-9223372037);
    hide Round;
    RoundStaysBeyond(s as real, 9223372037.0);
    RoundStaysBeyond(s as real, -9223372037.0);
    RoundStaysBeyond(x * BILLION as real, 9223372036854775808.0);
    RoundStaysBeyond(x * BILLION as real, -9223372036854779904.0);
    RoundStaysBeyond(p + 0.5, 9223372036854775808.0);
    RoundStaysBeyond(p + 0.5, -9223372036854777856.0);
  }

  /** For every normalised timespec: neither the cast nor the sum in timespec_to_nsec overflows
      exactly if the exact count fits. */
  lemma TimespecFitsExactlyWhen(ts: Timespec)
    requires Normalised(ts)
    ensures Int64(ToNsec(Seconds, Round(ts.sec as real))) && Int64(TimespecToNsec(ts))
            <==> Int64(ts.sec * BILLION + ts.nsec)
  {
    hide ToNsec, Round;
    if -9223372036 <= ts.sec <= 9223372036 {
      WholeSeconds(ts.sec);
    } else {
      BeyondInt64(ts.sec);
    }
  }
}
