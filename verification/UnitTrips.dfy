/**
 Exactly which nanosecond counts survive the trip to seconds, milliseconds or
 microseconds as a double, and back.
 */
module UnitTrips {
  import opened Doubles
  import opened Numeric
  import opened Chrono

  /** The first positive count that does not survive the round trip. */
  function Above(u: Unit): int {
    match u
    case Seconds => 4194304_000000007
    case Milliseconds => 4294967296_000011
    case Microseconds => 4398046511104_021
  }

  /** The first negative count that does not, without its sign. */
  function Below(u: Unit): int {
    match u
    case Seconds => 4194304_000000004
    case Milliseconds => 4294967296_000006
    case Microseconds => 4398046511104_011
  }

  /** The quotient is a double of 53 bits from 2^Binade on, where its last place is 1/Ulps. */
  function Binade(u: Unit): int {
    match u
    case Seconds => 22
    case Milliseconds => 32
    case Microseconds => 42
  }

  function Ulps(u: Unit): int {
    match u
    case Seconds => 1073741824
    case Milliseconds => 1048576
    case Microseconds => 1024
  }

  lemma ScaleToUlps(u: Unit, x: real)
    ensures Scale(x, 52 - Binade(u)) == Ulps(u) as real * x
  {
    ScaleByTen(x, 0);
    ScaleByTen(x, 10);
    ScaleByTen(x, 20);
  }

  lemma RoundNegative(x: real)
    ensures Round(-x) == -Round(x)
  {
  }

  /** A product less than a quarter above n, or at most a half below, comes back to n. */
  lemma BackToCount(n: int, p: real)
    requires -P52 < n < P52 && n != 0
    requires n as real - 0.5 <= p < n as real + 0.25
    ensures RoundToNearest(Round(p)) == n
  {
    RepresentableInt(n);
    RepresentableHalf(2 * n - 1);
    RoundIsNearest(p, n as real);
    RoundStaysBeyond(p, n as real - 0.5);
    RoundStaysBeyond(p, n as real);
    var r := Round(p);
    assert n as real - 0.5 <= r < n as real + 0.5;
    BelowHalfValue();
    assert r != BelowHalf() by {
      assert n >= 1 || n <= -1;
    }
    RoundToNearestIsExactWhen(r);
  }

  /** From 2^51 on, doubles are multiples of one half. */
  lemma HalvesFrom51(r: real) returns (j: int)
    requires Representable(r) && Abs(r) >= (P52 / 2) as real
    ensures r == j as real / 2.0
  {
    PowersOfTwo();
    assert Scale(1.0, 52) == 2.0 * Scale(1.0, 51);
    j := Grid(r, 51);
    assert Scale(j as real, -1) == j as real / 2.0;
  }

  /** A product more than a quarter above n, for n of 52 bits, ends at n + 1. */
  lemma BackToNext(n: int, p: real)
    requires P52 / 2 < n < P52 || -P52 < n < -P52 / 2 - 1
    requires n as real + 0.25 < p <= n as real + 0.5
    ensures RoundToNearest(Round(p)) == n + 1
  {
    RepresentableHalf(2 * n + 1);
    RoundIsNearest(p, n as real + 0.5);
    RoundStaysBeyond(p, n as real + 0.5);
    var r := Round(p);
    var j := HalvesFrom51(r);
    assert 2 * n < j <= 2 * n + 1;
    BelowHalfValue();
    RoundToNearestIsExactWhen(r);
  }

  lemma CountIsDouble(n: int)
    requires -P53 <= n <= P53
    ensures Round(n as real) == n as real
  {
    RepresentableInt(n);
    RoundFixesDoubles(n as real);
  }

  /** How far the quotient, multiplied back exactly, is from n. */
  function Drift(u: Unit, n: int): real {
    FromNsec(u, n) * Nanos(u) as real - n as real
  }

  lemma NegativeQuotient(a: real, d: real)
    requires d != 0.0
    ensures -a / d == -(a / d)
  {
  }

  lemma QuotientIsOdd(u: Unit, n: int)
    ensures FromNsec(u, -n) == -FromNsec(u, n)
  {
    RoundNegative(n as real);
    assert (-n) as real == -(n as real);
    var r := Round(n as real);
    NegativeQuotient(r, Nanos(u) as real);
    RoundNegative(r / Nanos(u) as real);
  }

  lemma DriftIsOdd(u: Unit, n: int)
    ensures Drift(u, -n) == -Drift(u, n)
  {
    QuotientIsOdd(u, n);
    var q := FromNsec(u, n);
    assert -q * Nanos(u) as real == -(q * Nanos(u) as real);
  }

  /** Up to 2^Binade of the unit, the quotient's error is worth less than a quarter nanosecond. */
  lemma QuotientError(u: Unit, n: int)
    requires -Nanos(u) * P52 <= n * Ulps(u) <= Nanos(u) * P52
    ensures -0.25 < Drift(u, n) < 0.25
  {
    CountIsDouble(n);
    var x := n as real / Nanos(u) as real;
    var g := Binade(u);
    PowersOfTwo();
    ScaleTwice(1.0, g, 52 - g);
    ScaleToUlps(u, Scale(1.0, g));
    RoundError(x, g);
    ScaleTwice(1.0, g - 54, 52 - g);
    ScaleToUlps(u, Scale(1.0, g - 54));
    assert Scale(1.0, -2) == 0.25;
  }

  lemma NearestEvenUnique(y: real, k: int)
    requires k as real - 0.5 < y < k as real + 0.5
    ensures NearestEven(y) == k
  {
  }

  /** 2^Binade units, in nanoseconds. */
  function Limit(u: Unit): int {
    match u
    case Seconds => 4194304_000000000
    case Milliseconds => 4294967296_000000
    case Microseconds => 4398046511104_000
  }

  /** The quotient, exact and counted in last places of the binade from Limit on. */
  function ExactPlaces(u: Unit, n: int): real {
    Ulps(u) as real * (n as real / Nanos(u) as real)
  }

  /** The same after rounding; from twice the limit on, the last place counts for two. */
  function Places(u: Unit, n: int): int {
    if n < 2 * Limit(u) then NearestEven(ExactPlaces(u, n))
    else 2 * NearestEven(ExactPlaces(u, n) / 2.0)
  }

  lemma QuotientBounds(u: Unit, n: int)
    requires Limit(u) <= n < P53
    ensures n < 2 * Limit(u) ==> P52 as real <= ExactPlaces(u, n) < P53 as real
    ensures n >= 2 * Limit(u) ==> P52 as real <= ExactPlaces(u, n) / 2.0 < P53 as real
    ensures Places(u, n) == if n < 2 * Limit(u) then NearestEven(ExactPlaces(u, n))
                            else 2 * NearestEven(ExactPlaces(u, n) / 2.0)
  {
    hide NearestEven;
  }

  lemma ScaledQuotients(u: Unit, n: int)
    requires 0 < n <= P53
    ensures var e, x := 51 - Binade(u), n as real / Nanos(u) as real;
      && e >= 0 && x > 0.0 && FromNsec(u, n) == Round(x)
      && Scale(x, e) == ExactPlaces(u, n) / 2.0 && Scale(x, e + 1) == ExactPlaces(u, n)
      && Scale(Round(x), e + 1) == Ulps(u) as real * FromNsec(u, n)
      && Scale(Round(x), e + 1) == 2.0 * Scale(Round(x), e)
  {
    CountIsDouble(n);
    var e, x := 51 - Binade(u), n as real / Nanos(u) as real;
    assert FromNsec(u, n) == Round(x);
    hide Scale, Round, FromNsec;
    ScaleToUlps(u, x);
    ScaleToUlps(u, Round(x));
    ScaleStep(x, e);
    ScaleStep(Round(x), e);
  }

  /** From Limit to 2^53 the quotient is exact but for the rounding to whole places. */
  lemma QuotientInPlaces(u: Unit, n: int)
    requires Limit(u) <= n < P53
    ensures Ulps(u) as real * FromNsec(u, n) == Places(u, n) as real
  {
    var e, x := 51 - Binade(u), n as real / Nanos(u) as real;
    assert n > 0;
    QuotientBounds(u, n);
    hide *;
    ScaledQuotients(u, n);
    if n < 2 * Limit(u) {
      RoundCounted(x, e + 1, ExactPlaces(u, n));
    } else {
      RoundCounted(x, e, ExactPlaces(u, n) / 2.0);
    }
  }

  /** Just past Limit. */
  lemma QuotientPast(u: Unit, n: int, k: int)
    requires Limit(u) <= n < 2 * Limit(u)
    requires -Nanos(u) < 2 * (n * Ulps(u) - (P52 + k) * Nanos(u)) < Nanos(u)
    ensures FromNsec(u, n) * Ulps(u) as real == (P52 + k) as real
  {
    QuotientInPlaces(u, n);
    NearestEvenUnique(ExactPlaces(u, n), P52 + k);
  }

  lemma DriftPast(u: Unit, n: int)
    requires Limit(u) < n < Above(u)
    ensures -0.5 <= Drift(u, n) <= 0.0
    ensures n < Below(u) ==> Drift(u, n) > -0.25
  {
    QuotientPast(u, n, n - Limit(u));
  }

  lemma DriftAtTheEnds(u: Unit)
    ensures 0.25 < Drift(u, Above(u)) <= 0.5
    ensures -0.5 <= Drift(u, Below(u)) < -0.25
  {
    QuotientPast(u, Above(u), Above(u) - Limit(u) + 1);
    QuotientPast(u, Below(u), Below(u) - Limit(u));
  }

  lemma DriftInRange(u: Unit, n: int)
    requires -Below(u) < n < Above(u)
    ensures -0.5 <= Drift(u, n) < 0.25
  {
    if n > Limit(u) {
      DriftPast(u, n);
    } else if n < -Limit(u) {
      DriftPast(u, -n);
      DriftIsOdd(u, n);
    } else {
      QuotientError(u, n);
    }
  }

  lemma ZeroRoundTrip(u: Unit)
    ensures ToNsec(u, FromNsec(u, 0)) == 0
  {
    BelowHalfValue();
    RepresentableInt(0);
    RoundToNearestIsExactWhen(0.0);
    assert FromNsec(u, 0) == 0.0;
  }

  lemma ProductIsCountPlusDrift(u: Unit, n: int)
    ensures ToNsec(u, FromNsec(u, n)) == RoundToNearest(Round(n as real + Drift(u, n)))
  {
    assert FromNsec(u, n) * Nanos(u) as real == n as real + Drift(u, n);
  }

  /** Nanoseconds to seconds, milliseconds or microseconds as a double and back: exact on the
      whole range between -Below and Above. */
  lemma UnitRoundTrip(u: Unit, n: int)
    requires -Below(u) < n < Above(u)
    ensures ToNsec(u, FromNsec(u, n)) == n
  {
    if n == 0 {
      ZeroRoundTrip(u);
    } else {
      DriftInRange(u, n);
      ProductIsCountPlusDrift(u, n);
      BackToCount(n, n as real + Drift(u, n));
    }
  }

  /** The range is tight at both ends: the first counts outside it come back one too large. */
  lemma UnitRoundTripEnds(u: Unit)
    ensures ToNsec(u, FromNsec(u, Above(u))) == Above(u) + 1
    ensures ToNsec(u, FromNsec(u, -Below(u))) == -Below(u) + 1
  {
    DriftAtTheEnds(u);
    DriftIsOdd(u, Below(u));
    ProductIsCountPlusDrift(u, Above(u));
    ProductIsCountPlusDrift(u, -Below(u));
    BackToNext(Above(u), Above(u) as real + Drift(u, Above(u)));
    BackToNext(-Below(u), -Below(u) as real + Drift(u, -Below(u)));
  }

  // ---------- Which counts past the limit survive ----------

  /** The drift, in units of one Ulps-th of a nanosecond. */
  function Excess(u: Unit, n: int): int {
    Places(u, n) * Nanos(u) - n * Ulps(u)
  }

  lemma PlacesAreNear(u: Unit, n: int)
    ensures var d := Places(u, n) as real - Ulps(u) as real * (n as real / Nanos(u) as real);
      if n < 2 * Limit(u) then -0.5 <= d <= 0.5 else -1.0 <= d <= 1.0
  {
  }

  lemma ExcessBound(u: Unit, n: int)
    ensures -Nanos(u) <= Excess(u, n) <= Nanos(u)
    ensures n < 2 * Limit(u) ==> -Nanos(u) <= 2 * Excess(u, n) <= Nanos(u)
  {
    PlacesAreNear(u, n);
    hide Places, Limit;
    match u
    case Seconds =>
    case Milliseconds =>
    case Microseconds =>
  }

  lemma DriftIsExcess(u: Unit, n: int)
    requires Limit(u) <= n < P53
    ensures Drift(u, n) * Ulps(u) as real == Excess(u, n) as real
  {
    QuotientInPlaces(u, n);
    hide Places, FromNsec, Limit;
    match u
    case Seconds =>
    case Milliseconds =>
    case Microseconds =>
  }

  lemma RealsOrdered(a: real, b: real, c: real)
    requires a <= b && c > 0.0
    ensures a * c <= b * c && a / c <= b / c
    ensures a < b ==> a * c < b * c
  {
  }

  lemma ThresholdInPlaces(u: Unit, n: int, c: real)
    requires Limit(u) <= n < P53
    ensures Drift(u, n) <= c <==> Excess(u, n) as real <= c * Ulps(u) as real
    ensures c <= Drift(u, n) <==> c * Ulps(u) as real <= Excess(u, n) as real
  {
    DriftIsExcess(u, n);
    assert Ulps(u) > 0;
    hide *;
    var d := Drift(u, n);
    if d <= c {
      RealsOrdered(d, c, Ulps(u) as real);
    }
    if c <= d {
      RealsOrdered(c, d, Ulps(u) as real);
    }
  }

  lemma DriftBelowHalf(u: Unit, n: int)
    requires Limit(u) <= n < 2 * Limit(u)
    ensures -0.5 < Drift(u, n) < 0.5
  {
    DriftIsExcess(u, n);
    ExcessBound(u, n);
    hide Drift, Excess;
    match u
    case Seconds =>
    case Milliseconds =>
    case Microseconds =>
  }

  lemma EvenHalf(n: int)
    requires P52 / 2 < n < P52 || -P52 < n < -P52 / 2 - 1
    ensures EvenSignificand(n as real)
  {
    assert Scale((2 * n) as real, -1) == (2 * n) as real / 2.0;
    assert HasSignificand(n as real, 2 * n, -1);
  }

  /** A quarter above n is a tie, and it goes to n. */
  lemma QuarterIsTie(n: int)
    requires P52 / 2 < n < P52 || -P52 < n < -P52 / 2 - 1
    ensures Round(n as real + 0.25) == n as real
  {
    var p := n as real + 0.25;
    var r := Round(p);
    RepresentableInt(n);
    RepresentableHalf(2 * n + 1);
    RoundIsNearest(p, n as real);
    EvenHalf(n);
    hide Round, EvenSignificand, Representable;
    RoundStaysBeyond(p, n as real);
    RoundStaysBeyond(p, n as real + 0.5);
    var j := HalvesFrom51(r);
    if r != n as real {
      assert j == 2 * n + 1;
      TiesGoToEven(p, n as real);
      assert false;
    }
  }

  lemma WholeBelow52(n: int)
    requires -P52 < n < P52
    ensures RoundToNearest(n as real) == n
  {
    RepresentableInt(n);
    BelowHalfValue();
    hide Round, RoundToNearest, BelowHalf, Representable;
    RoundToNearestIsExactWhen(n as real);
  }

  lemma BackBelow52(n: int, d: real)
    requires P52 / 2 < n < P52 || -P52 < n < -P52 / 2 - 1
    requires -0.5 < d < 0.5
    ensures RoundToNearest(Round(n as real + d)) == n <==> d <= 0.25
  {
    if d < 0.25 {
      BackToCount(n, n as real + d);
    } else if d == 0.25 {
      QuarterIsTie(n);
      WholeBelow52(n);
    } else {
      BackToNext(n, n as real + d);
    }
  }

  /** From 2^52 on the product itself is rounded to n. */
  lemma ProductIsCount(n: int, d: real)
    requires P52 <= n < P53 && -0.5 < d < 0.5 && (n == P52 ==> d > -0.25)
    ensures Round(n as real + d) == n as real
  {
    var p := n as real + d;
    if p >= P52 as real {
      NearestEvenUnique(p, n);
      if p < P53 as real {
        RoundBase(p);
      }
    } else {
      RepresentableInt(n);
      RoundIsNearest(p, n as real);
      RoundStaysBeyond(p, n as real);
      var j := HalvesFrom51(Round(p));
    }
  }

  lemma DriftAt52(u: Unit)
    ensures Drift(u, P52) > -0.25
  {
    match u
    case Seconds => QuotientPast(u, P52, 332103651088021);
    case Milliseconds => QuotientPast(u, P52, 218766855499149);
    case Microseconds => QuotientPast(u, P52, 108086391056892);
  }

  /** Multiplied back, n and -n come out as mirror images. */
  lemma MirroredProducts(u: Unit, n: int)
    ensures ToNsec(u, FromNsec(u, n)) == RoundToNearest(Round(n as real + Drift(u, n)))
    ensures ToNsec(u, FromNsec(u, -n)) == RoundToNearest(Round((-n) as real - Drift(u, n)))
    ensures Round((-n) as real - Drift(u, n)) == -Round(n as real + Drift(u, n))
  {
    DriftIsOdd(u, n);
    ProductIsCountPlusDrift(u, n);
    ProductIsCountPlusDrift(u, -n);
    hide Round, Drift, ToNsec, FromNsec, RoundToNearest;
    RoundNegative(n as real + Drift(u, n));
    assert (-n) as real - Drift(u, n) == -(n as real + Drift(u, n));
  }

  lemma WholeFrom52(n: int)
    requires P52 <= n < P53
    ensures RoundToNearest(n as real) == n <==> n % 2 == 0
    ensures RoundToNearest(-(n as real)) == -n <==> n % 2 == 0
  {
    RepresentableInt(n);
    RepresentableInt(-n);
    hide *;
    RoundToNearestAbove52(n as real, n);
    RoundToNearestBelowMinus52((-n) as real, -n);
  }

  lemma BackFrom52(u: Unit, n: int)
    requires P52 <= n < 2 * Limit(u)
    ensures ToNsec(u, FromNsec(u, n)) == n <==> n % 2 == 0
    ensures ToNsec(u, FromNsec(u, -n)) == -n <==> n % 2 == 0
  {
    DriftBelowHalf(u, n);
    DriftAt52(u);
    assert n < P53;
    hide *;
    MirroredProducts(u, n);
    ProductIsCount(n, Drift(u, n));
    WholeFrom52(n);
  }

  lemma QuarterInPlaces(u: Unit, n: int)
    requires Limit(u) <= n < 2 * Limit(u)
    ensures Drift(u, n) <= 0.25 <==> 4 * Excess(u, n) <= Ulps(u)
    ensures -Drift(u, n) <= 0.25 <==> -Ulps(u) <= 4 * Excess(u, n)
  {
    ThresholdInPlaces(u, n, 0.25);
    ThresholdInPlaces(u, n, -0.25);
    hide Drift, Excess, Limit, Nanos;
  }

  lemma BackInBinade(u: Unit, n: int)
    requires Limit(u) < n < P52
    ensures ToNsec(u, FromNsec(u, n)) == n <==> 4 * Excess(u, n) <= Ulps(u)
    ensures ToNsec(u, FromNsec(u, -n)) == -n <==> -Ulps(u) <= 4 * Excess(u, n)
  {
    assert P52 / 2 < Limit(u);
    DriftBelowHalf(u, n);
    MirroredProducts(u, n);
    QuarterInPlaces(u, n);
    hide Round, Drift, ToNsec, FromNsec, RoundToNearest, Excess, Limit, Ulps;
    BackBelow52(n, Drift(u, n));
    BackBelow52(-n, -Drift(u, n));
  }

  // ---------- From twice the limit to 2^53 ----------

  lemma DriftBelowOne(u: Unit, n: int)
    requires Limit(u) <= n < P53
    ensures -1.0 < Drift(u, n) < 1.0
  {
    DriftIsExcess(u, n);
    ExcessBound(u, n);
    hide Drift, Excess;
    match u
    case Seconds =>
    case Milliseconds =>
    case Microseconds =>
  }

  lemma HalfInPlaces(u: Unit, n: int)
    requires Limit(u) <= n < P53
    ensures Drift(u, n) <= 0.5 <==> 2 * Excess(u, n) <= Ulps(u)
    ensures -0.5 <= Drift(u, n) <==> -Ulps(u) <= 2 * Excess(u, n)
    ensures Drift(u, n) < 0.5 <==> 2 * Excess(u, n) < Ulps(u)
    ensures -0.5 < Drift(u, n) <==> -Ulps(u) < 2 * Excess(u, n)
  {
    ThresholdInPlaces(u, n, 0.5);
    ThresholdInPlaces(u, n, -0.5);
    hide Drift, Excess, Limit, Nanos;
  }

  /** The count that n + d is rounded to: n or a neighbour, n for an even n at a tie. */
  lemma RoundedCount(n: int, d: real) returns (k: int)
    requires P52 < n < P53 && -1.0 < d < 1.0
    ensures Round(n as real + d) == k as real && n - 1 <= k <= n + 1
    ensures k <= n <==> d < 0.5 || (d == 0.5 && n % 2 == 0)
    ensures n <= k <==> -0.5 < d || (d == -0.5 && n % 2 == 0)
  {
    var p := n as real + d;
    RoundBase(p);
    k := NearestEven(p);
    if d >= 0.0 {
      assert p.Floor == n;
    } else {
      assert p.Floor == n - 1;
    }
  }

  lemma RoundWhole(k: int)
    requires P52 <= k <= P53
    ensures RoundToNearest(k as real) == if k % 2 == 0 then k else k + 1
    ensures RoundToNearest(-(k as real)) == if k % 2 == 0 then -k else -k + 1
  {
    RepresentableInt(k);
    RepresentableInt(-k);
    hide *;
    RoundToNearestAbove52(k as real, k);
    RoundToNearestBelowMinus52((-k) as real, -k);
  }

  /** What RoundWhole makes of n or a neighbour. */
  lemma EvenNeighbour(n: int, k: int)
    requires n - 1 <= k <= n + 1
    ensures (if k % 2 == 0 then k else k + 1) == n <==> n % 2 == 0 && k <= n
    ensures (if k % 2 == 0 then -k else -k + 1) == -n <==> n % 2 == 0 && n <= k
  {
  }

  lemma BackFrom52To53(n: int, d: real)
    requires P52 < n < P53 && -1.0 < d < 1.0
    ensures RoundToNearest(Round(n as real + d)) == n <==> n % 2 == 0 && d <= 0.5
    ensures RoundToNearest(-Round(n as real + d)) == -n <==> n % 2 == 0 && -0.5 <= d
  {
    hide *;
    var k := RoundedCount(n, d);
    RoundWhole(k);
    EvenNeighbour(n, k);
  }

  lemma BackFromTwice(u: Unit, n: int)
    requires 2 * Limit(u) <= n < P53
    ensures ToNsec(u, FromNsec(u, n)) == n <==> n % 2 == 0 && 2 * Excess(u, n) <= Ulps(u)
    ensures ToNsec(u, FromNsec(u, -n)) == -n <==> n % 2 == 0 && -Ulps(u) <= 2 * Excess(u, n)
  {
    assert P52 < n && Limit(u) <= n;
    hide *;
    HalfInPlaces(u, n);
    DriftBelowOne(u, n);
    MirroredProducts(u, n);
    BackFrom52To53(n, Drift(u, n));
  }

  // ---------- From 2^53 on ----------

  /** The double that n comes back to, before round_to_nearest. */
  function Product(u: Unit, n: int): real {
    Times(FromNsec(u, n), Nanos(u) as real)
  }

  lemma RoundTwice(x: real)
    requires x >= 1.0
    ensures Round(2.0 * x) == 2.0 * Round(x) && Round(x) >= 1.0
  {
    RepresentableInt(1);
    RoundStaysBeyond(x, 1.0);
    RoundDoubled(x);
  }

  lemma TwiceTimes(a: real, b: real)
    ensures 2.0 * a * b == 2.0 * (a * b)
    ensures b != 0.0 ==> 2.0 * a / b == 2.0 * (a / b)
  {
  }

  lemma OverDoubled(x: real, c: real)
    requires x >= c > 0.0
    ensures Over(2.0 * x, c) == 2.0 * Over(x, c) && Over(x, c) >= 1.0
  {
    hide Round;
    assert c / c == 1.0;
    RealsOrdered(c, x, c);
    TwiceTimes(x, c);
    RoundTwice(x / c);
  }

  lemma QuotientDoubled(u: Unit, n: int)
    requires n >= P52
    ensures FromNsec(u, 2 * n) == 2.0 * FromNsec(u, n) && FromNsec(u, n) >= 1.0
  {
    hide Over, Round;
    RepresentableInt(P52);
    RoundStaysBeyond(n as real, P52 as real);
    RoundTwice(n as real);
    assert (2 * n) as real == 2.0 * n as real;
    OverDoubled(Round(n as real), Nanos(u) as real);
  }

  lemma TimesDoubled(q: real, c: real)
    requires q >= 1.0 && c >= 1.0
    ensures Times(2.0 * q, c) == 2.0 * Times(q, c)
  {
    RealsOrdered(1.0, q, c);
    TwiceTimes(q, c);
    var p := Exact(q, c);
    assert Exact(2.0 * q, c) == 2.0 * p && p >= 1.0;
    hide *;
    RoundTwice(p);
    TimesMeans(q, c);
    TimesMeans(2.0 * q, c);
  }

  lemma TimesMeans(x: real, y: real)
    ensures Times(x, y) == Round(Exact(x, y))
  {
  }

  lemma ProductDoubled(u: Unit, n: int)
    requires n >= P52
    ensures Product(u, 2 * n) == 2.0 * Product(u, n)
  {
    hide FromNsec, Times;
    QuotientDoubled(u, n);
    TimesDoubled(FromNsec(u, n), Nanos(u) as real);
  }

  lemma ProductIsRounded(u: Unit, n: int)
    ensures Product(u, n) == Round(n as real + Drift(u, n))
  {
    var p := FromNsec(u, n) * Nanos(u) as real;
    assert p == n as real + Drift(u, n);
    hide Round;
    assert Product(u, n) == Round(p);
  }

  lemma TimesIsMonotone(x: real, y: real, c: real)
    requires x <= y && c > 0.0
    ensures Times(x, c) <= Times(y, c)
  {
    RealsOrdered(x, y, c);
    assert Exact(x, c) <= Exact(y, c);
    hide Round, Exact;
    RoundIsMonotone(Exact(x, c), Exact(y, c));
  }

  lemma OverIsMonotone(x: real, y: real, c: real)
    requires x <= y && c > 0.0
    ensures Over(x, c) <= Over(y, c)
  {
    assert Over(x, c) == Round(x / c) && Over(y, c) == Round(y / c);
    hide *;
    RealsOrdered(x, y, c);
    RoundIsMonotone(x / c, y / c);
  }

  lemma QuotientIsMonotone(u: Unit, m: int, n: int)
    requires m <= n
    ensures FromNsec(u, m) <= FromNsec(u, n)
  {
    hide Round, Times, Over;
    RoundIsMonotone(m as real, n as real);
    OverIsMonotone(Round(m as real), Round(n as real), Nanos(u) as real);
  }

  lemma ProductIsMonotone(u: Unit, m: int, n: int)
    requires m <= n
    ensures Product(u, m) <= Product(u, n)
  {
    hide FromNsec, Times;
    QuotientIsMonotone(u, m, n);
    TimesIsMonotone(FromNsec(u, m), FromNsec(u, n), Nanos(u) as real);
  }

  lemma ProductAt52(u: Unit)
    ensures Product(u, P52) == P52 as real
  {
    assert Limit(u) <= P52 < 2 * Limit(u);
    hide *;
    DriftBelowHalf(u, P52);
    DriftAt52(u);
    ProductIsCount(P52, Drift(u, P52));
    ProductIsRounded(u, P52);
  }

  lemma ProductAtLeast(u: Unit, n: int)
    requires n >= P52
    ensures Product(u, n) >= P52 as real && Representable(Product(u, n))
  {
    RepresentableInt(0);
    RoundIsNearest(FromNsec(u, n) * Nanos(u) as real, 0.0);
    assert Representable(Product(u, n));
    hide *;
    ProductAt52(u);
    ProductIsMonotone(u, P52, n);
  }

  lemma ProductIsEven(u: Unit, n: int) returns (k: int)
    requires n >= P53
    ensures Product(u, n) == k as real && k >= P53 && k % 2 == 0 && Representable(k as real)
  {
    hide Product, Representable;
    ProductAtLeast(u, n);
    ProductAt52(u);
    ProductDoubled(u, P52);
    ProductIsMonotone(u, P53, n);
    k := LargeIsInteger(Product(u, n));
  }

  lemma EvenIsKept(n: real, k: int)
    requires Representable(n) && n == k as real && (k >= P53 || -k >= P53) && k % 2 == 0
    ensures RoundToNearest(n) == k
  {
    assert P52 < P53;
    hide *;
    if k > 0 {
      RoundToNearestAbove52(n, k);
    } else {
      RoundToNearestBelowMinus52(n, k);
    }
  }

  lemma BackFrom53(u: Unit, n: int)
    requires n >= P53
    ensures ToNsec(u, FromNsec(u, n)) == n <==> Product(u, n) == n as real
    ensures ToNsec(u, FromNsec(u, -n)) == -n <==> Product(u, n) == n as real
  {
    hide *;
    MirroredProducts(u, n);
    ProductIsRounded(u, n);
    var k := ProductIsEven(u, n);
    RepresentableScaled(k as real);
    EvenIsKept(k as real, k);
    EvenIsKept(-(k as real), -k);
  }

  /** n lies nearest to the product, or ties and is even. */
  predicate IsNearest(u: Unit, n: int) {
    var e := 2 * Excess(u, n);
    -Ulps(u) < e < Ulps(u) || ((e == Ulps(u) || e == -Ulps(u)) && n % 2 == 0)
  }

  /** The product is n itself. Doubles scale: halving n halves the product. */
  predicate ComesBack(u: Unit, n: int)
    requires n >= P52
  {
    if n >= P53 then n % 2 == 0 && ComesBack(u, n / 2) else IsNearest(u, n)
  }

  lemma NearestBelow53(u: Unit, n: int)
    requires P52 <= n < P53
    ensures Product(u, n) == n as real <==> IsNearest(u, n)
  {
    ProductIsRounded(u, n);
    if n < 2 * Limit(u) {
      ExcessBound(u, n);
      assert IsNearest(u, n);
      hide *;
      DriftBelowHalf(u, n);
      DriftAt52(u);
      ProductIsCount(n, Drift(u, n));
    } else {
      assert n > P52 && Limit(u) <= n;
      hide Product, Drift, Excess, Limit, Ulps, Round;
      HalfInPlaces(u, n);
      DriftBelowOne(u, n);
      var k := RoundedCount(n, Drift(u, n));
    }
  }

  lemma {:induction false} ComesBackMeans(u: Unit, n: int)
    requires n >= P52
    ensures Product(u, n) == n as real <==> ComesBack(u, n)
  {
    if n < P53 {
      NearestBelow53(u, n);
    } else {
      hide Product;
      if n % 2 == 0 {
        ComesBackMeans(u, n / 2);
        ProductDoubled(u, n / 2);
      } else {
        var k := ProductIsEven(u, n);
      }
    }
  }

  // ---------- Every count ----------

  /** The counts that survive: all up to the limit; then, below 2^52, those that come out at
      most a quarter nanosecond too high; below 2^53 the even ones that come out at most half a
      nanosecond too high; from there on those whose product is the count itself. */
  predicate Survives(u: Unit, n: int) {
    var a := if n < 0 then -n else n;
    var high := if n < 0 then -Excess(u, a) else Excess(u, a);
    if a <= Limit(u) then true
    else if a < P52 then 4 * high <= Ulps(u)
    else if a < P53 then n % 2 == 0 && 2 * high <= Ulps(u)
    else ComesBack(u, a)
  }

  lemma BackFromTwiceOr52(u: Unit, n: int)
    requires P52 <= n < P53
    ensures ToNsec(u, FromNsec(u, n)) == n <==> n % 2 == 0 && 2 * Excess(u, n) <= Ulps(u)
    ensures ToNsec(u, FromNsec(u, -n)) == -n <==> n % 2 == 0 && -Ulps(u) <= 2 * Excess(u, n)
  {
    if n < 2 * Limit(u) {
      ExcessBound(u, n);
      assert -Ulps(u) <= 2 * Excess(u, n) <= Ulps(u);
      hide *;
      BackFrom52(u, n);
    } else {
      hide *;
      BackFromTwice(u, n);
    }
  }

  /** Nanoseconds to another unit and back, for every count. */
  lemma UnitRoundTripExactlyWhen(u: Unit, n: int)
    ensures ToNsec(u, FromNsec(u, n)) == n <==> Survives(u, n)
  {
    hide ToNsec, FromNsec, Excess, Product, ComesBack;
    var a := if n < 0 then -n else n;
    if a <= Limit(u) {
      UnitRoundTrip(u, n);
    } else if a < P52 {
      BackInBinade(u, a);
    } else if a < P53 {
      BackFromTwiceOr52(u, a);
    } else {
      BackFrom53(u, a);
      ComesBackMeans(u, a);
    }
  }
}
