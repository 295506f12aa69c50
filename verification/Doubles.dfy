/**
 Rounding to double as roundTiesToEven of IEEE 754-2019, section 4.3.1: 53
 significant bits, nearest value, ties to the even significand. A double is
 represented by its real value. The exponent is not limited; the conversions of
 module Chrono stay far from both ends of the exponent range.
 */
module Doubles {

  const P52 := 0x10_0000_0000_0000
  const P53 := 0x20_0000_0000_0000

  function Abs(x: real): real {
    if x < 0.0 then -x else x
  }

  /** x times 2^e. */
  function Scale(x: real, e: int): real
    decreases if e < 0 then -e else e
  {
    if e == 0 then x else if e > 0 then 2.0 * Scale(x, e - 1) else Scale(x, e + 1) / 2.0
  }

  /** The nearest integer, ties to even. */
  function NearestEven(x: real): (r: int)
    ensures Abs(r as real - x) <= 0.5
  {
    var f := x.Floor;
    var d := x - f as real;
    if d < 0.5 || (d == 0.5 && f % 2 == 0) then f else f + 1
  }

  /** Bounds the doublings that take a small value to 53 bits. */
  function Distance(x: real): (d: nat)
    requires x > 0.0
  {
    (P53 as real / x).Floor
  }

  lemma QuotientIs(a: real, b: real, c: real)
    requires b != 0.0 && c * b == a
    ensures a / b == c
  {
  }

  lemma DoublingApproaches(x: real)
    requires 0.0 < x < P52 as real
    ensures Distance(2.0 * x) < Distance(x)
  {
    var z := P53 as real / x;
    assert z * x == P53 as real;
    assert z > 2.0;
    QuotientIs(P53 as real, 2.0 * x, z / 2.0);
  }

  function RoundSmall(x: real): real
    requires 0.0 < x < P53 as real
    decreases Distance(x)
  {
    if x < P52 as real then
      DoublingApproaches(x);
      RoundSmall(2.0 * x) / 2.0
    else NearestEven(x) as real
  }

  function RoundLarge(x: real): real
    requires x >= P52 as real
    decreases x.Floor
  {
    if x >= P53 as real then 2.0 * RoundLarge(x / 2.0) else NearestEven(x) as real
  }

  function RoundPositive(x: real): real
    requires x > 0.0
  {
    if x < P53 as real then RoundSmall(x) else RoundLarge(x)
  }

  /** roundTiesToEven: scale by a power of two until the value lies in [2^52, 2^53), take the
      nearest integer there, scale back. */
  function Round(x: real): real {
    if x == 0.0 then 0.0
    else if x < 0.0 then -RoundPositive(-x)
    else RoundPositive(x)
  }

  /** y is a double: an integer of at most 53 bits times a power of two. */
  ghost predicate Representable(y: real) {
    exists m: int, e: int :: IsDouble(y, m, e)
  }

  ghost predicate IsDouble(y: real, m: int, e: int) {
    -P53 <= m <= P53 && y == Scale(m as real, e)
  }

  // ---------- Scaling ----------

  lemma {:induction false} ScaleAdd(x: real, y: real, e: int)
    ensures Scale(x + y, e) == Scale(x, e) + Scale(y, e)
    decreases if e < 0 then -e else e
  {
    if e > 0 {
      ScaleAdd(x, y, e - 1);
    } else if e < 0 {
      ScaleAdd(x, y, e + 1);
    }
  }

  lemma {:induction false} ScaleNegative(x: real, e: int)
    ensures Scale(-x, e) == -Scale(x, e)
    decreases if e < 0 then -e else e
  {
    if e > 0 {
      ScaleNegative(x, e - 1);
    } else if e < 0 {
      ScaleNegative(x, e + 1);
    }
  }

  lemma {:induction false} ScaleMonotone(x: real, y: real, e: int)
    ensures x <= y <==> Scale(x, e) <= Scale(y, e)
    decreases if e < 0 then -e else e
  {
    if e > 0 {
      ScaleMonotone(x, y, e - 1);
    } else if e < 0 {
      ScaleMonotone(x, y, e + 1);
    }
  }

  lemma {:induction false} ScaleTwice(x: real, a: int, b: int)
    ensures Scale(Scale(x, a), b) == Scale(x, a + b)
    decreases if b < 0 then -b else b
  {
    if b > 0 {
      ScaleTwice(x, a, b - 1);
    } else if b < 0 {
      ScaleTwice(x, a, b + 1);
    }
  }

  lemma {:induction false} ScaleInt(m: int, e: nat) returns (k: int)
    ensures Scale(m as real, e) == k as real && (e > 0 ==> k % 2 == 0)
  {
    if e == 0 {
      k := m;
    } else {
      k := ScaleInt(m, e - 1);
      k := 2 * k;
    }
  }

  lemma {:induction false} ScaleGrows(x: real, a: int, b: int)
    requires x >= 0.0 && a <= b
    ensures Scale(x, a) <= Scale(x, b)
    decreases b - a
  {
    if a < b {
      ScaleGrows(x, a, b - 1);
      ScaleMonotone(0.0, x, b - 1);
      ScaleNegative(0.0, b - 1);
    }
  }

  lemma ScaleByFour(x: real, e: nat)
    ensures Scale(x, e + 2) == 4.0 * Scale(x, e)
  {
    assert Scale(x, e + 1) == 2.0 * Scale(x, e);
  }

  /** 2^10 at a time. */
  lemma ScaleByTen(x: real, e: nat)
    ensures Scale(x, e + 10) == 1024.0 * Scale(x, e)
  {
    ScaleByFour(x, e);
    ScaleByFour(x, e + 2);
    ScaleByFour(x, e + 4);
    ScaleByFour(x, e + 6);
    ScaleByFour(x, e + 8);
  }

  lemma PowersOfTwo()
    ensures Scale(1.0, 52) == P52 as real && Scale(1.0, 53) == P53 as real
  {
    ScaleByTen(1.0, 0);
    ScaleByTen(1.0, 10);
    ScaleByTen(1.0, 20);
    ScaleByTen(1.0, 30);
    ScaleByTen(1.0, 40);
    ScaleByFour(1.0, 50);
  }

  // ---------- Representable values ----------

  lemma IsRepresentable(m: int, e: int)
    requires -P53 <= m <= P53
    ensures Representable(Scale(m as real, e))
  {
    assert IsDouble(Scale(m as real, e), m, e);
  }

  lemma RepresentableInt(n: int)
    requires -P53 <= n <= P53
    ensures Representable(n as real)
  {
    IsRepresentable(n, 0);
  }

  lemma RepresentableHalf(n: int)
    requires -P53 <= n <= P53
    ensures Representable(n as real / 2.0)
  {
    IsRepresentable(n, -1);
  }

  lemma RepresentableScaled(y: real)
    requires Representable(y)
    ensures Representable(2.0 * y) && Representable(y / 2.0) && Representable(-y)
  {
    var m, e :| IsDouble(y, m, e);
    ScaleNegative(m as real, e);
    assert IsDouble(-y, -m, e);
    assert IsDouble(2.0 * y, m, e + 1);
    assert IsDouble(y / 2.0, m, e - 1);
  }

  lemma CoarseBound(y: real, m: int, e: int, g: int)
    requires IsDouble(y, m, e) && e < g - 52
    ensures Abs(y) <= Scale(1.0, g) == Scale(P52 as real, g - 52)
  {
    PowersOfTwo();
    ScaleTwice(1.0, 53, e);
    ScaleTwice(1.0, 52, g - 52);
    ScaleGrows(1.0, 53 + e, g);
    ScaleMonotone(m as real, P53 as real, e);
    ScaleMonotone(-P53 as real, m as real, e);
    ScaleNegative(P53 as real, e);
  }

  /** A double of magnitude 2^g or more is a multiple of 2^(g-52). */
  lemma Grid(y: real, g: int) returns (j: int)
    requires Representable(y) && Abs(y) >= Scale(1.0, g)
    ensures y == Scale(j as real, g - 52)
  {
    var m, e :| IsDouble(y, m, e);
    if e >= g - 52 {
      j := ScaleInt(m, e - (g - 52));
      ScaleTwice(m as real, e - (g - 52), g - 52);
    } else {
      CoarseBound(y, m, e, g);
      ScaleNegative(P52 as real, g - 52);
      j := if y < 0.0 then -P52 else P52;
    }
  }

  // ---------- Round returns the nearest double ----------

  lemma NearestEvenIsNearest(x: real, k: int)
    ensures Abs(NearestEven(x) as real - x) <= Abs(k as real - x)
  {
    var f := x.Floor;
    if k <= f {
      assert k as real <= f as real;
    } else {
      assert k as real >= (f + 1) as real == f as real + 1.0;
    }
  }

  lemma BaseIsNearest(x: real, y: real)
    requires P52 as real <= x && Representable(y)
    ensures Abs(NearestEven(x) as real - x) <= Abs(y - x)
  {
    PowersOfTwo();
    if y >= P52 as real {
      var j := Grid(y, 52);
      NearestEvenIsNearest(x, j);
    } else {
      NearestEvenIsNearest(x, P52);
    }
  }

  lemma {:induction false} SmallIsNearest(x: real, y: real)
    requires 0.0 < x < P53 as real && Representable(y)
    ensures Abs(RoundSmall(x) - x) <= Abs(y - x) && Representable(RoundSmall(x))
    decreases Distance(x)
  {
    if x < P52 as real {
      DoublingApproaches(x);
      RepresentableScaled(y);
      SmallIsNearest(2.0 * x, 2.0 * y);
      RepresentableScaled(RoundSmall(2.0 * x));
    } else {
      BaseIsNearest(x, y);
      RepresentableInt(NearestEven(x));
    }
  }

  lemma {:induction false} LargeIsNearest(x: real, y: real)
    requires x >= P52 as real && Representable(y)
    ensures Abs(RoundLarge(x) - x) <= Abs(y - x) && Representable(RoundLarge(x))
    decreases x.Floor
  {
    if x >= P53 as real {
      RepresentableScaled(y);
      LargeIsNearest(x / 2.0, y / 2.0);
      RepresentableScaled(RoundLarge(x / 2.0));
    } else {
      BaseIsNearest(x, y);
      RepresentableInt(NearestEven(x));
    }
  }

  lemma PositiveIsNearest(x: real, y: real)
    requires x > 0.0 && Representable(y)
    ensures Abs(RoundPositive(x) - x) <= Abs(y - x) && Representable(RoundPositive(x))
  {
    if x < P53 as real {
      SmallIsNearest(x, y);
    } else {
      LargeIsNearest(x, y);
    }
  }

  /** Round(x) is a double and no double is closer to x. */
  lemma RoundIsNearest(x: real, y: real)
    requires Representable(y)
    ensures Representable(Round(x)) && Abs(Round(x) - x) <= Abs(y - x)
  {
    RepresentableInt(0);
    RepresentableScaled(y);
    if x > 0.0 {
      PositiveIsNearest(x, y);
    } else if x < 0.0 {
      PositiveIsNearest(-x, -y);
      RepresentableScaled(RoundPositive(-x));
    }
  }

  // ---------- Ties go to the even significand ----------

  /** y is m times 2^e, and m has exactly 53 bits. */
  ghost predicate HasSignificand(y: real, m: int, e: int) {
    (P52 <= m < P53 || -P53 < m <= -P52) && y == Scale(m as real, e)
  }

  ghost predicate EvenSignificand(y: real) {
    exists m: int, e: int :: HasSignificand(y, m, e) && m % 2 == 0
  }

  lemma SignificandFixesExponent(y: real, m: int, e: int, m': int, e': int)
    requires HasSignificand(y, m, e) && HasSignificand(y, m', e') && e <= e'
    ensures m == m' && e == e'
  {
    var z := Scale(m' as real, e' - e);
    ScaleTwice(m' as real, e' - e, e);
    ScaleMonotone(m as real, z, e);
    ScaleMonotone(z, m as real, e);
    if e < e' {
      var a := if m' > 0 then m' else -m';
      ScaleGrows(a as real, 1, e' - e);
      ScaleNegative(a as real, e' - e);
    }
  }

  lemma SignificandIsUnique(y: real, m: int, e: int, m': int, e': int)
    requires HasSignificand(y, m, e) && HasSignificand(y, m', e')
    ensures m == m' && e == e'
  {
    if e <= e' {
      SignificandFixesExponent(y, m, e, m', e');
    } else {
      SignificandFixesExponent(y, m', e', m, e);
    }
  }

  lemma SignificandScaled(y: real)
    ensures EvenSignificand(y) ==> EvenSignificand(2.0 * y) && EvenSignificand(y / 2.0) && EvenSignificand(-y)
  {
    if EvenSignificand(y) {
      var m, e :| HasSignificand(y, m, e) && m % 2 == 0;
      ScaleNegative(m as real, e);
      assert HasSignificand(-y, -m, e);
      assert HasSignificand(2.0 * y, m, e + 1);
      assert HasSignificand(y / 2.0, m, e - 1);
    }
  }

  /** y is as near to x as the double r is, and r is the even one of the two. */
  ghost predicate TiesWith(x: real, r: real, y: real) {
    Representable(y) && y != r && Abs(y - x) == Abs(r - x)
  }

  ghost predicate EvenOfTwo(r: real, y: real) {
    EvenSignificand(r) && !EvenSignificand(y)
  }

  lemma OddHasOddSignificand(j: int)
    requires P52 <= j < P53 && j % 2 == 1
    ensures !EvenSignificand(j as real)
  {
    assert HasSignificand(j as real, j, 0);
    if EvenSignificand(j as real) {
      var m, e :| HasSignificand(j as real, m, e) && m % 2 == 0;
      SignificandIsUnique(j as real, j, 0, m, e);
    }
  }

  lemma EvenHasEvenSignificand(j: int)
    requires P52 <= j <= P53 && j % 2 == 0
    ensures EvenSignificand(j as real)
  {
    if j < P53 {
      assert HasSignificand(j as real, j, 0);
    } else {
      assert HasSignificand(j as real, P52, 1);
    }
  }

  lemma NearestEvenTies(x: real, j: int)
    requires j != NearestEven(x) && Abs(j as real - x) == Abs(NearestEven(x) as real - x)
    ensures NearestEven(x) % 2 == 0 && j % 2 == 1
    ensures -1 <= j - NearestEven(x) <= 1
  {
    var f := x.Floor;
    assert j as real - x >= 0.0 || j <= f;
  }

  lemma BaseTies(x: real, y: real)
    requires P52 as real <= x < P53 as real && TiesWith(x, NearestEven(x) as real, y)
    ensures EvenOfTwo(NearestEven(x) as real, y)
  {
    PowersOfTwo();
    hide Scale, NearestEven, EvenSignificand, Representable;
    var r := NearestEven(x);
    NearestEvenIsNearest(x, P52);
    NearestEvenIsNearest(x, P53);
    var j := Grid(y, 52);
    assert y == j as real by {
      hide Abs;
      ScaleZero(j as real);
    }
    NearestEvenTies(x, j);
    EvenHasEvenSignificand(r);
    OddHasOddSignificand(j);
  }

  lemma ScaleZero(x: real)
    ensures Scale(x, 0) == x
  {
  }

  lemma EvenOfTwoScaled(r: real, y: real)
    requires EvenOfTwo(2.0 * r, 2.0 * y) || EvenOfTwo(r / 2.0, y / 2.0) || EvenOfTwo(-r, -y)
    ensures EvenOfTwo(r, y)
  {
    assert 2.0 * r / 2.0 == r && 2.0 * (r / 2.0) == r && -(-r) == r;
    SignificandScaled(2.0 * r);
    SignificandScaled(r / 2.0);
    SignificandScaled(-r);
    SignificandScaled(y);
  }

  lemma {:induction false} SmallTies(x: real, y: real)
    requires 0.0 < x < P53 as real && TiesWith(x, RoundSmall(x), y)
    ensures EvenOfTwo(RoundSmall(x), y)
    decreases Distance(x)
  {
    if x < P52 as real {
      DoublingApproaches(x);
      RepresentableScaled(y);
      SmallTies(2.0 * x, 2.0 * y);
      EvenOfTwoScaled(RoundSmall(x), y);
    } else {
      BaseTies(x, y);
    }
  }

  lemma {:induction false} LargeTies(x: real, y: real)
    requires x >= P52 as real && TiesWith(x, RoundLarge(x), y)
    ensures EvenOfTwo(RoundLarge(x), y)
    decreases x.Floor
  {
    if x >= P53 as real {
      RepresentableScaled(y);
      LargeTies(x / 2.0, y / 2.0);
      EvenOfTwoScaled(RoundLarge(x), y);
    } else {
      BaseTies(x, y);
    }
  }

  /** When another double is as near to x as Round(x), Round(x) has the even significand and
      the other one has not. */
  lemma TiesGoToEven(x: real, y: real)
    requires Representable(y) && y != Round(x) && Abs(y - x) == Abs(Round(x) - x)
    ensures EvenSignificand(Round(x)) && !EvenSignificand(y)
  {
    RepresentableScaled(y);
    if x > 0.0 {
      if x < P53 as real {
        SmallTies(x, y);
      } else {
        LargeTies(x, y);
      }
    } else if x < 0.0 {
      if -x < P53 as real {
        SmallTies(-x, -y);
      } else {
        LargeTies(-x, -y);
      }
      EvenOfTwoScaled(Round(x), y);
    }
  }

  lemma RoundFixesDoubles(y: real)
    requires Representable(y)
    ensures Round(y) == y
  {
    RoundIsNearest(y, y);
  }

  /** Rounding does not pass a double. */
  lemma RoundStaysBeyond(x: real, y: real)
    requires Representable(y)
    ensures y <= x ==> y <= Round(x)
    ensures x <= y ==> Round(x) <= y
  {
    RoundIsNearest(x, y);
  }

  lemma RoundIsMonotone(x: real, y: real)
    requires x <= y
    ensures Round(x) <= Round(y)
  {
    RepresentableInt(0);
    RoundIsNearest(x, 0.0);
    RoundIsNearest(y, 0.0);
    hide Round, Representable;
    RoundIsNearest(x, Round(y));
    RoundIsNearest(y, Round(x));
  }

  /** Up to 2^g the error is at most 2^(g-54), half a unit in the last place. */
  lemma RoundError(x: real, g: int)
    requires Abs(x) <= Scale(1.0, g)
    ensures Abs(Round(x) - x) <= Scale(1.0, g - 54)
  {
    PowersOfTwo();
    var z := Scale(x, 53 - g);
    ScaleTwice(x, 53 - g, g - 53);
    ScaleTwice(1.0, g, 53 - g);
    ScaleMonotone(x, Scale(1.0, g), 53 - g);
    ScaleNegative(Scale(1.0, g), 53 - g);
    ScaleMonotone(-Scale(1.0, g), x, 53 - g);
    var k := NearestEven(z);
    NearestEvenIsNearest(z, P53);
    NearestEvenIsNearest(z, -P53);
    IsRepresentable(k, g - 53);
    RoundIsNearest(x, Scale(k as real, g - 53));
    ScaledError(k as real, z, g - 53);
  }

  lemma ScaledError(k: real, z: real, e: int)
    requires Abs(k - z) <= 0.5
    ensures Abs(Scale(k, e) - Scale(z, e)) <= Scale(1.0, e - 1)
  {
    ScaleAdd(k - z, z, e);
    ScaleMonotone(k - z, 0.5, e);
    ScaleMonotone(-0.5, k - z, e);
    ScaleNegative(0.5, e);
    ScaleTwice(1.0, -1, e);
    assert Scale(1.0, -1) == 0.5;
  }

  lemma RoundDoubled(x: real)
    requires x > 0.0
    ensures RoundPositive(2.0 * x) == 2.0 * RoundPositive(x)
  {
    if x < P52 as real {
      assert RoundSmall(x) == RoundSmall(2.0 * x) / 2.0;
    } else {
      assert 2.0 * x / 2.0 == x;
      assert RoundLarge(2.0 * x) == 2.0 * RoundLarge(x);
    }
  }

  lemma {:induction false} RoundScaled(x: real, e: nat)
    requires x > 0.0
    ensures Scale(x, e) > 0.0 && RoundPositive(Scale(x, e)) == Scale(RoundPositive(x), e)
  {
    if e > 0 {
      RoundScaled(x, e - 1);
      RoundDoubled(Scale(x, e - 1));
    }
  }

  /** Where x, scaled by 2^e, lies in [2^52, 2^53), rounding is NearestEven of the scaled value. */
  lemma RoundInBinade(x: real, e: nat)
    requires x > 0.0 && P52 as real <= Scale(x, e) < P53 as real
    ensures Round(x) == Scale(NearestEven(Scale(x, e)) as real, 0 - e)
  {
    RoundScaled(x, e);
    ScaleTwice(Round(x), e, 0 - e);
  }

  lemma RoundCounted(x: real, e: nat, y: real)
    requires x > 0.0 && Scale(x, e) == y && P52 as real <= y < P53 as real
    ensures Scale(Round(x), e) == NearestEven(y) as real
  {
    hide *;
    RoundInBinade(x, e);
    ScaleTwice(NearestEven(y) as real, 0 - e, e);
    ScaleZero(NearestEven(y) as real);
  }

  lemma ScaleStep(x: real, e: nat)
    ensures Scale(x, e + 1) == 2.0 * Scale(x, e)
  {
  }
}
