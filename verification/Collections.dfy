/** Small vocabulary shared by the model: options, filters and sums of counter maps. */
module Collections {

  datatype Option<+T> = None | Some(value: T)

  /** The elements of `s` that satisfy `p`, in order. */
  function Filter<T>(s: seq<T>, p: T -> bool): (r: seq<T>)
    ensures |r| <= |s|
  {
    if s == [] then [] else
      var init, last := s[..|s| - 1], s[|s| - 1];
      if p(last) then Filter(init, p) + [last] else Filter(init, p)
  }

  lemma {:induction false} FilterMembers<T>(s: seq<T>, p: T -> bool)
    ensures forall x :: x in Filter(s, p) <==> x in s && p(x)
  {
    if s != [] {
      FilterMembers(s[..|s| - 1], p);
      assert s == s[..|s| - 1] + [s[|s| - 1]];
    }
  }

  lemma {:induction false} FilterSame<T>(s: seq<T>, p: T -> bool, q: T -> bool)
    requires forall x :: x in s ==> p(x) == q(x)
    ensures Filter(s, p) == Filter(s, q)
  {
    if s != [] {
      FilterSame(s[..|s| - 1], p, q);
      assert s[|s| - 1] in s;
    }
  }

  /** Filtering twice keeps exactly what both tests accept. */
  lemma {:induction false} FilterTwice<T>(s: seq<T>, p: T -> bool, q: T -> bool, both: T -> bool)
    requires forall x :: x in s ==> both(x) == (p(x) && q(x))
    ensures Filter(Filter(s, p), q) == Filter(s, both)
  {
    if s != [] {
      var init, last := s[..|s| - 1], s[|s| - 1];
      FilterTwice(init, p, q, both);
      if p(last) {
        assert (Filter(init, p) + [last])[..|Filter(init, p)|] == Filter(init, p);
      }
    }
  }

  /** The first value among the first `n` places. */
  function FirstSome<T>(s: seq<Option<T>>, n: nat): Option<T>
    requires n <= |s|
  {
    if n == 0 then None else
      var earlier := FirstSome(s, n - 1);
      if earlier.Some? then earlier else s[n - 1]
  }

  lemma {:induction false} FirstSomeIsNone<T>(s: seq<Option<T>>, n: nat)
    requires n <= |s|
    ensures FirstSome(s, n).None? <==> forall i :: 0 <= i < n ==> s[i].None?
  {
    if n != 0 {
      FirstSomeIsNone(s, n - 1);
    }
  }

  /** What comes after the first value does not matter. */
  lemma {:induction false} FirstSomeStays<T>(s: seq<Option<T>>, n: nat, m: nat)
    requires n <= m <= |s| && FirstSome(s, n).Some?
    ensures FirstSome(s, m) == FirstSome(s, n)
    decreases m
  {
    if n < m {
      FirstSomeStays(s, n, m - 1);
    }
  }

  lemma {:induction false} FirstSomeWitness<T>(s: seq<Option<T>>, n: nat) returns (i: nat)
    requires n <= |s| && FirstSome(s, n).Some?
    ensures i < n && s[i] == FirstSome(s, n) && forall j :: 0 <= j < i ==> s[j].None?
  {
    if FirstSome(s, n - 1).Some? {
      i := FirstSomeWitness(s, n - 1);
    } else {
      i := n - 1;
      FirstSomeIsNone(s, n - 1);
    }
  }

  /** A list of lists laid end to end. */
  function Flatten<T>(ss: seq<seq<T>>): seq<T> {
    if ss == [] then [] else Flatten(ss[..|ss| - 1]) + ss[|ss| - 1]
  }

  lemma {:induction false} FlattenMembers<T>(ss: seq<seq<T>>)
    ensures forall x :: x in Flatten(ss) <==> exists s :: s in ss && x in s
  {
    if ss != [] {
      FlattenMembers(ss[..|ss| - 1]);
      assert ss == ss[..|ss| - 1] + [ss[|ss| - 1]];
    }
  }

  lemma SmallerSet<T>(a: set<T>, b: set<T>)
    ensures a <= b ==> |a| <= |b|
    ensures a < b ==> |a| < |b|
  {
    if a <= b {
      assert b == a + (b - a);
    }
  }

  /** The total held by a counter. */
  ghost function Total<K>(m: map<K, int>): int
    decreases |m|
  {
    if m == map[] then 0 else
      var k :| k in m;
      m[k] + Total(m - {k})
  }

  /** Any key may be taken out first. */
  lemma {:induction false} TotalRemove<K>(m: map<K, int>, k: K)
    requires k in m
    ensures Total(m) == m[k] + Total(m - {k})
    decreases |m|
  {
    var j :| j in m && Total(m) == m[j] + Total(m - {j});
    if j != k {
      TotalRemove(m - {j}, k);
      TotalRemove(m - {k}, j);
      assert m - {j} - {k} == m - {k} - {j};
    }
  }

  /** Setting one counter moves the total by the change of that counter. */
  lemma TotalUpdate<K>(m: map<K, int>, k: K, v: int)
    ensures Total(m[k := v]) == Total(m) + v - (if k in m then m[k] else 0)
  {
    TotalRemove(m[k := v], k);
    if k in m {
      TotalRemove(m, k);
      assert m[k := v] - {k} == m - {k};
    } else {
      assert m[k := v] - {k} == m;
    }
  }
}
