/** Floor division with a variable divisor, finite sets of integers, and increasing lists. */
module Integers {
  import opened Collections

  lemma PositiveFactor(x: int, b: int)
    requires b > 0 && x * b > 0
    ensures x > 0
  {}

  lemma FloorAtLeast(lo: int, q: int, r: int, b: int)
    requires b > 0 && 0 <= r < b && lo * b <= q * b + r
    ensures lo <= q
  {
    assert (q + 1 - lo) * b == q * b + b - lo * b;
    PositiveFactor(q + 1 - lo, b);
  }

  lemma FloorAtMost(hi: int, q: int, r: int, b: int)
    requires b > 0 && 0 <= r < b && q * b + r <= hi * b
    ensures q <= hi && (r > 0 ==> q + 1 <= hi)
  {
    assert (hi + 1 - q) * b == hi * b + b - q * b;
    PositiveFactor(hi + 1 - q, b);
    if r > 0 {
      assert (hi - q) * b == hi * b - q * b;
      PositiveFactor(hi - q, b);
    }
  }

  lemma DivMod(t: int, d: int)
    requires d > 0
    ensures t == (t / d) * d + t % d && 0 <= t % d < d
  {}

  lemma SameQuotient(d: int, q: int, r: int, q': int, r': int)
    requires d > 0 && q * d + r == q' * d + r' && 0 <= r < d && 0 <= r' < d
    ensures q == q' && r == r'
  {
    FloorAtLeast(q, q', r', d);
    FloorAtLeast(q', q, r, d);
  }

  lemma QuotientIsUnique(t: int, d: int, q: int, r: int)
    requires d > 0 && t == q * d + r && 0 <= r < d
    ensures t / d == q && t % d == r
  {
    DivMod(t, d);
    SameQuotient(d, t / d, t % d, q, r);
  }

  lemma NestedRemainder(fine: nat, factor: nat, s: int, r: int)
    requires 0 <= r < fine && 0 <= s < factor
    ensures 0 <= s * fine + r < fine * factor
  {
    assert (factor - 1 - s) * fine >= 0;
    assert (factor - 1 - s) * fine == factor * fine - fine - s * fine;
  }

  lemma Regrouped(p: int, fine: int, factor: int, s: int, r: int)
    ensures (p * factor + s) * fine + r == p * (fine * factor) + (s * fine + r)
  {
    assert (p * factor + s) * fine == (p * factor) * fine + s * fine;
    assert (p * factor) * fine == p * (fine * factor);
  }

  /** Dividing twice is dividing by the product. */
  lemma FloorOfFloor(t: int, fine: nat, factor: nat)
    requires fine > 0 && factor > 0
    ensures fine * factor > 0
    ensures (t / fine) / factor == t / (fine * factor)
  {
    assert fine * factor > 0;
    DivMod(t, fine);
    DivMod(t / fine, factor);
    var p, s, r := (t / fine) / factor, (t / fine) % factor, t % fine;
    NestedRemainder(fine, factor, s, r);
    Regrouped(p, fine, factor, s, r);
    QuotientIsUnique(t, fine * factor, p, s * fine + r);
  }

  // ---------------------------------------------------------------- finite sets of integers

  lemma {:induction false} LeastBelow(s: set<int>, some: int)
    requires some in s
    ensures exists m :: m in s && forall x :: x in s ==> m <= x
    decreases |s|
  {
    if smaller :| smaller in s && smaller < some {
      var rest := set x | x in s && x < some;
      assert rest <= s - {some};
      SmallerSet(rest, s - {some});
      LeastBelow(rest, smaller);
      var m :| m in rest && forall x :: x in rest ==> m <= x;
      forall x | x in s ensures m <= x {
        assert x in rest || some <= x;
      }
    } else {
      assert forall x :: x in s ==> some <= x;
    }
  }

  ghost predicate Inhabited(s: set<int>) {
    exists x :: x in s
  }

  lemma NonEmptyIsInhabited(s: set<int>)
    ensures s == {} || Inhabited(s)
  {
    if !Inhabited(s) {
      assert forall x :: x !in s;
    }
  }

  /** Every non-empty finite set of integers has a least element. */
  lemma LeastExists(s: set<int>)
    requires s != {}
    ensures exists m :: m in s && forall x :: x in s ==> m <= x
  {
    NonEmptyIsInhabited(s);
    var some :| some in s;
    LeastBelow(s, some);
  }

  lemma GreatestAtMost(s: set<int>, t: int) returns (m: int)
    requires exists x :: x in s && x <= t
    ensures m in s && m <= t && forall x :: x in s && x <= t ==> x <= m
    decreases |s|
  {
    var first :| first in s && first <= t;
    if x :| x in s && first < x <= t {
      assert x in s - {first};
      m := GreatestAtMost(s - {first}, t);
      assert forall y :: y in s ==> y == first || y in s - {first};
    } else {
      m := first;
    }
  }

  lemma LeastAtLeast(s: set<int>, t: int) returns (m: int)
    requires exists x :: x in s && x >= t
    ensures m in s && m >= t && forall x :: x in s && x >= t ==> x >= m
    decreases |s|
  {
    var first :| first in s && first >= t;
    if x :| x in s && t <= x < first {
      assert x in s - {first};
      m := LeastAtLeast(s - {first}, t);
      assert forall y :: y in s ==> y == first || y in s - {first};
    } else {
      m := first;
    }
  }

  // ---------------------------------------------------------------- increasing lists

  predicate Increasing(ts: seq<int>) {
    forall i, j :: 0 <= i < j < |ts| ==> ts[i] < ts[j]
  }

  function Elements(ts: seq<int>): set<int> {
    set x | x in ts
  }
}
