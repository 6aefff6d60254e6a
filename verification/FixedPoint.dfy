/**
 Fixed-point arithmetic at 18 decimals with the three roundings of ts-sdk/src/codec/fixed.ts:
 toward zero, down, and up.
 */
module FixedPoint {
  const WAD: int := 1_000_000_000_000_000_000

  function Abs(x: int): nat { if x < 0 then -x else x }

  function Max(a: int, b: int): int { if a > b then a else b }

  // BigInt division: truncated toward zero whatever the signs.
  function BigIntDiv(n: int, d: int): int
    requires d != 0
  {
    var q := Abs(n) / Abs(d);
    if (n < 0) != (d < 0) then -q else q
  }

  // `q` is `n / d` rounded toward zero.
  predicate IsTruncated(n: int, d: int, q: int)
    requires d > 0
  {
    if n >= 0 then q * d <= n < (q + 1) * d else (q - 1) * d < n <= q * d
  }

  predicate IsFloor(n: int, d: int, q: int)
    requires d > 0
  {
    q * d <= n < (q + 1) * d
  }

  predicate IsCeiling(n: int, d: int, q: int)
    requires d > 0
  {
    (q - 1) * d < n <= q * d
  }

  function Mul(a: int, b: int): (r: int)
    ensures IsTruncated(a * b, WAD, r)
  {
    var n := a * b;
    if n >= 0 then n / WAD else -((-n) / WAD)
  }

  // Dividing by a negative number is dividing the opposite by its magnitude.
  function Div(a: int, b: int): (r: int)
    ensures b != 0 ==> IsTruncated(if b < 0 then -(a * WAD) else a * WAD, Abs(b), r)
    ensures b == 0 ==> r == 0
  {
    if b == 0 then 0
    else
      var n := a * WAD;
      QuotientIsTruncated(n, b);
      if n >= 0 then BigIntDiv(n, b) else -BigIntDiv(-n, b)
  }

  lemma QuotientIsTruncated(n: int, b: int)
    requires b != 0
    ensures IsTruncated(if b < 0 then -n else n, Abs(b), if n >= 0 then BigIntDiv(n, b) else -BigIntDiv(-n, b))
  {
    var m: int, d := Abs(n), Abs(b);
    var q: int := m / d;
    DivisionBounds(m, d);
    MagnitudeIsTruncated(m, q, d);
    assert BigIntDiv(n, b) == if (n < 0) != (b < 0) then -q else q;
    assert n < 0 ==> BigIntDiv(-n, b) == if b < 0 then -q else q;
  }

  lemma MagnitudeIsTruncated(m: int, q: int, d: int)
    requires d > 0 && m >= 0 && q * d <= m < (q + 1) * d
    ensures IsTruncated(m, d, q) && IsTruncated(-m, d, -q)
  {
    assert (q + 1) * d == q * d + d;
    assert (-q) * d == -(q * d) && (-q - 1) * d == -(q * d) - d;
    if m == 0 {
      assert q * d <= 0 && 0 < q * d + d;
      ZeroQuotient(q, d);
    }
  }

  lemma ZeroQuotient(q: int, d: int)
    requires d > 0 && q * d <= 0 < q * d + d
    ensures q == 0
  {
  }

  /** `mulFloor` is exactly the floor, for all signs. */
  function MulFloor(a: int, b: int): (r: int)
    ensures IsFloor(a * b, WAD, r)
  {
    var n := a * b;
    if n >= 0 then n / WAD else -((-n + WAD - 1) / WAD)
  }

  /** `mulDivCeil` is exactly the ceiling, for all signs; a divisor that is not positive
      gives 0. */
  function MulDivCeil(a: int, b: int, d: int): (r: int)
    ensures d > 0 ==> IsCeiling(a * b, d, r)
    ensures d <= 0 ==> r == 0
  {
    if d <= 0 then 0
    else
      var prod := Abs(a) * Abs(b);
      var q, r := prod / d, prod % d;
      var negative := (a < 0) != (b < 0);
      var mag := if !negative && r != 0 then q + 1 else q;
      DivisionBounds(prod, d);
      AbsProduct(a, b);
      if negative then -mag else mag
  }

  lemma AbsProduct(a: int, b: int)
    ensures Abs(a) * Abs(b) == if (a < 0) != (b < 0) then -(a * b) else a * b
  {
    if a < 0 {
      assert (-a) * b == -(a * b);
      assert (-a) * (-b) == a * b;
    } else if b < 0 {
      assert a * (-b) == -(a * b);
    }
  }

  lemma DivisionBounds(n: nat, d: int)
    requires d > 0
    ensures n == (n / d) * d + n % d && 0 <= n % d < d
    ensures (n / d) * d <= n < (n / d + 1) * d
    ensures (n / d - 1) * d == (n / d) * d - d && (-(n / d)) * d == -((n / d) * d)
    ensures (-(n / d) - 1) * d == -((n / d) * d) - d
  {
  }

  lemma QuotientIsFloor(n: nat, d: int)
    requires d > 0
    ensures IsFloor(n, d, n / d) && n / d >= 0
  {
    DivisionBounds(n, d);
  }

  /** `imRate`: one over the leverage, rounded down. */
  function ImRate(maxLeverage: int): (r: nat)
    ensures maxLeverage > 0 ==> IsFloor(WAD, maxLeverage, r)
    ensures maxLeverage <= 0 ==> r == 0
  {
    if maxLeverage > 0 then
      QuotientIsFloor(WAD, maxLeverage);
      WAD / maxLeverage
    else 0
  }

  // The three roundings in order, each at most one step from the next.
  lemma RoundingsInOrder(a: int, b: int)
    ensures MulFloor(a, b) <= Mul(a, b) <= MulDivCeil(a, b, WAD)
    ensures MulDivCeil(a, b, WAD) - MulFloor(a, b) <= 1
    ensures a * b >= 0 ==> Mul(a, b) == MulFloor(a, b)
    ensures a * b <= 0 ==> Mul(a, b) == MulDivCeil(a, b, WAD)
  {
  }
}
