/** Decimal arithmetic in the default context: 28 significant digits, rounding half to even. */
module Decimals {
  import opened Integers

  /** 10^28: a coefficient of the default context stays below it. */
  const LIMIT: int := 10_000_000_000_000_000_000_000_000_000

  /** The number coefficient / 10^scale. */
  datatype Decimal = Decimal(coefficient: int, scale: nat)

  function Pow10(n: nat): (p: int)
    ensures p >= 1
  {
    if n == 0 then 1 else 10 * Pow10(n - 1)
  }

  /** The context keeps 28 digits. */
  lemma PrecisionIs28()
    ensures LIMIT == Pow10(28)
  {
    assert Pow10(7) == 10_000_000;
    assert Pow10(14) == Pow10(7) * Pow10(7);
    assert Pow10(21) == Pow10(14) * Pow10(7);
    assert Pow10(28) == Pow10(21) * Pow10(7);
  }

  function Abs(a: int): nat { if a < 0 then -a else a }

  /** a / b rounded to the nearest integer, ties to the even one. */
  function RoundHalfEven(a: int, b: int): int
    requires b > 0
  {
    var q, r := a / b, a % b;
    if 2 * r < b then q else if 2 * r > b then q + 1 else if q % 2 == 0 then q else q + 1
  }

  /** It is within half a unit of the quotient, even when exactly half, and never passes an integer. */
  lemma RoundingIsNearest(a: int, b: int)
    requires b > 0
    ensures var c := RoundHalfEven(a, b);
      && 2 * Abs(c * b - a) <= b
      && (2 * Abs(c * b - a) == b ==> c % 2 == 0)
  {
    var q, r := a / b, a % b;
    assert a == q * b + r;
    assert (q + 1) * b == q * b + b;
  }

  lemma RoundingKeepsBounds(a: int, b: int, lo: int, hi: int)
    requires b > 0 && lo * b <= a <= hi * b
    ensures lo <= RoundHalfEven(a, b) <= hi
  {
    var q, r := a / b, a % b;
    assert a == q * b + r;
    FloorAtLeast(lo, q, r, b);
    FloorAtMost(hi, q, r, b);
  }

  // ---------------------------------------------------------------- addition

  /** How many digits a coefficient has to lose. */
  function Excess(a: nat): nat
    decreases a
  {
    if a < LIMIT then 0 else 1 + Excess(a / 10)
  }

  /** x + y in the context: exact while it fits 28 digits, else rounded to them. */
  function ContextAdd(x: int, y: int): int {
    var v := x + y;
    var unit := Pow10(Excess(Abs(v)));
    RoundHalfEven(v, unit) * unit
  }

  /** Cutting that many digits leaves exactly 28, and none are cut from a number that fits. */
  lemma {:induction false} ExcessLeavesPrecision(a: nat)
    ensures a < LIMIT * Pow10(Excess(a))
    ensures Excess(a) > 0 ==> LIMIT * Pow10(Excess(a)) <= 10 * a
    ensures a < LIMIT <==> Excess(a) == 0
    decreases a
  {
    if a >= LIMIT {
      ExcessLeavesPrecision(a / 10);
      TenTimes(a, Pow10(Excess(a / 10)));
    }
  }

  lemma TenTimes(a: nat, p: int)
    requires a / 10 < LIMIT * p
    ensures a < LIMIT * (10 * p)
  {
    assert LIMIT * (10 * p) == 10 * (LIMIT * p);
  }

  /** A sum in the context is a multiple of some power of ten, nearest to the exact sum among them, with 28 digits. */
  lemma SumIsCorrectlyRounded(x: int, y: int)
    ensures var v, unit := x + y, Pow10(Excess(Abs(x + y)));
      && 2 * Abs(ContextAdd(x, y) - v) <= unit
      && ContextAdd(x, y) % unit == 0
      && Abs(v) < LIMIT * unit
      && (unit > 1 ==> LIMIT * unit <= 10 * Abs(v))
  {
    var v := x + y;
    var unit := Pow10(Excess(Abs(v)));
    ExcessLeavesPrecision(Abs(v));
    RoundingIsNearest(v, unit);
    QuotientIsUnique(RoundHalfEven(v, unit) * unit, unit, RoundHalfEven(v, unit), 0);
  }

  lemma SmallSumsAreExact(x: int, y: int)
    requires Abs(x + y) < LIMIT
    ensures ContextAdd(x, y) == x + y
  {}

  // ---------------------------------------------------------------- division

  /** The number of decimals that give a / b exactly 28 digits before the point. */
  function DecimalPlaces(a: nat, b: nat): nat
    requires 0 < a < LIMIT * b
    decreases LIMIT * b - a
  {
    if 10 * a < LIMIT * b then 1 + DecimalPlaces(10 * a, b) else 0
  }

  lemma {:induction false} DecimalsFillPrecision(a: nat, b: nat)
    requires 0 < a < LIMIT * b
    ensures LIMIT * b <= 10 * (a * Pow10(DecimalPlaces(a, b))) < 10 * LIMIT * b
    decreases LIMIT * b - a
  {
    if 10 * a < LIMIT * b {
      DecimalsFillPrecision(10 * a, b);
      var p := Pow10(DecimalPlaces(10 * a, b));
      assert (10 * a) * p == a * (10 * p);
    } else {
      assert a * 1 == a;
    }
  }

  /** a / b in the context: the quotient correctly rounded to 28 digits. */
  function Quotient(a: int, b: nat): Decimal
    requires b > 0 && Abs(a) < LIMIT * b
  {
    if a == 0 then Decimal(0, 0) else
      var k := DecimalPlaces(Abs(a), b);
      Decimal(RoundHalfEven(a * Pow10(k), b), k)
  }

  lemma AbsScaled(a: int, p: int)
    requires p >= 1
    ensures Abs(a * p) == Abs(a) * p
    ensures a > 0 ==> a * p > 0
    ensures a < 0 ==> a * p < 0
  {
    if a < 0 {
      assert a * p == -((-a) * p);
    }
  }

  /** `d` is a / b with 28 digits unless zero, off by at most half a unit of the last, the even one of two. */
  predicate CorrectlyRounded(d: Decimal, a: int, b: nat) {
    && (a == 0 <==> d.coefficient == 0)
    && (a > 0 <==> d.coefficient > 0)
    && (a != 0 ==> LIMIT <= 10 * Abs(d.coefficient) <= 10 * LIMIT)
    && 2 * Abs(d.coefficient * b - a * Pow10(d.scale)) <= b
    && (2 * Abs(d.coefficient * b - a * Pow10(d.scale)) == b ==> d.coefficient % 2 == 0)
  }

  /** Division in the context keeps the sign and rounds to 28 digits, half to even. */
  lemma QuotientIsCorrectlyRounded(a: int, b: nat)
    requires b > 0 && Abs(a) < LIMIT * b
    ensures CorrectlyRounded(Quotient(a, b), a, b)
  {
    if a != 0 {
      var d := Quotient(a, b);
      var n := a * Pow10(d.scale);
      DecimalsFillPrecision(Abs(a), b);
      AbsScaled(a, Pow10(d.scale));
      RoundingIsNearest(n, b);
      if a > 0 {
        RoundingKeepsBounds(n, b, LIMIT / 10, LIMIT);
      } else {
        RoundingKeepsBounds(n, b, -LIMIT, -(LIMIT / 10));
      }
    }
  }

  /** Rounding never carries a quotient past an integer it lies on one side of. */
  lemma QuotientKeepsBounds(a: int, b: nat, lo: int, hi: int)
    requires b > 0 && Abs(a) < LIMIT * b && lo * b <= a <= hi * b
    ensures var d := Quotient(a, b);
      lo * Pow10(d.scale) <= d.coefficient <= hi * Pow10(d.scale)
  {
    var d := Quotient(a, b);
    var p := Pow10(d.scale);
    if a == 0 {
      FloorAtLeast(lo, 0, 0, b);
      FloorAtMost(hi, 0, 0, b);
      Scaled(lo, 0, p);
      Scaled(0, hi, p);
    } else {
      Scaled(lo * b, a, p);
      Scaled(a, hi * b, p);
      Regroup(lo, b, p);
      Regroup(hi, b, p);
      RoundingKeepsBounds(a * p, b, lo * p, hi * p);
    }
  }

  lemma RoundingUndoesSmallErrors(a: int, e: int, p: int)
    requires 2 * Abs(e) < p
    ensures RoundHalfEven(a * p + e, p) == a
  {
    if e >= 0 {
      QuotientIsUnique(a * p + e, p, a, e);
    } else {
      assert (a - 1) * p == a * p - p;
      QuotientIsUnique(a * p + e, p, a - 1, p + e);
    }
  }

  /** A quotient of at most 20 digits before the point carries at least seven decimals. */
  lemma QuotientHasDecimals(a: int, b: nat)
    requires b > 0 && a != 0 && Abs(a) <= 100_000_000_000_000_000_000 * b
    ensures Abs(a) < LIMIT * b && Pow10(Quotient(a, b).scale) >= 10_000_000
  {
    var p := Pow10(Quotient(a, b).scale);
    DecimalsFillPrecision(Abs(a), b);
    Scaled(Abs(a), 100_000_000_000_000_000_000 * b, p);
    assert (100_000_000_000_000_000_000 * b) * p == (100_000_000_000_000_000_000 * p) * b;
    FloorAtLeast(LIMIT, 10 * (100_000_000_000_000_000_000 * p), 0, b);
  }

  /**
    The 28 digits of an average keep the whole sum: multiplied by the number of addends and
    rounded to the nearest integer, the rounded quotient gives the dividend back.
   */
  lemma SumFromAverage(a: int, b: nat)
    requires 0 < b <= 10_000 && Abs(a) <= 100_000_000_000_000_000_000 * b
    ensures Abs(a) < LIMIT * b
    ensures RoundHalfEven(Quotient(a, b).coefficient * b, Pow10(Quotient(a, b).scale)) == a
  {
    var d := Quotient(a, b);
    var p := Pow10(d.scale);
    if a != 0 {
      QuotientHasDecimals(a, b);
      QuotientIsCorrectlyRounded(a, b);
      RoundingUndoesSmallErrors(a, d.coefficient * b - a * p, p);
    }
  }

  lemma Scaled(x: int, y: int, p: int)
    requires x <= y && p >= 1
    ensures x * p <= y * p
  {}

  lemma Regroup(x: int, b: int, p: int)
    ensures (x * b) * p == (x * p) * b
  {}
}
