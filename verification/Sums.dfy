/** Sums of real numbers over sequences and over sets. */
module Sums {
  import opened Seqs

  function Sum(s: seq<real>): real {
    if s == [] then 0.0 else s[0] + Sum(s[1..])
  }

  lemma {:induction false} SumJoin(s: seq<real>, t: seq<real>)
    ensures Sum(s + t) == Sum(s) + Sum(t)
  {
    if s == [] {
      assert s + t == t;
    } else {
      SumJoin(s[1..], t);
      assert (s + t)[1..] == s[1..] + t;
    }
  }

  /** The values of `f` at the elements, in order. */
  function Mapped<T>(f: T -> real, s: seq<T>): (r: seq<real>)
    ensures |r| == |s| && forall i :: 0 <= i < |s| ==> r[i] == f(s[i])
  {
    seq(|s|, i requires 0 <= i < |s| => f(s[i]))
  }

  function Times(m: real): real -> real {
    (x: real) => m * x
  }

  function Always(c: real): real -> real {
    (x: real) => c
  }

  lemma SumStep(f: real -> real, s: seq<real>)
    requires s != []
    ensures Sum(Mapped(f, s)) == f(s[0]) + Sum(Mapped(f, s[1..]))
  {
    assert Mapped(f, s)[1..] == Mapped(f, s[1..]);
  }

  /** Sums are combined as their terms are. */
  lemma {:induction false} SumCombines(f: real -> real, a: real -> real, b: real -> real, c: real -> real, s: seq<real>)
    requires forall x :: f(x) == a(x) - 2.0 * b(x) + c(x)
    ensures Sum(Mapped(f, s)) == Sum(Mapped(a, s)) - 2.0 * Sum(Mapped(b, s)) + Sum(Mapped(c, s))
  {
    if s != [] {
      SumCombines(f, a, b, c, s[1..]);
      SumStep(f, s);
      SumStep(a, s);
      SumStep(b, s);
      SumStep(c, s);
    }
  }

  lemma Distribute(m: real, x: real, y: real)
    ensures m * (x + y) == m * x + m * y
  {
  }

  lemma {:induction false} SumTimes(m: real, s: seq<real>)
    ensures Sum(Mapped(Times(m), s)) == m * Sum(s)
  {
    if s != [] {
      SumTimes(m, s[1..]);
      SumStep(Times(m), s);
      Distribute(m, s[0], Sum(s[1..]));
    }
  }

  lemma {:induction false} SumAlways(c: real, s: seq<real>)
    ensures Sum(Mapped(Always(c), s)) == |s| as real * c
  {
    if s != [] {
      SumAlways(c, s[1..]);
      SumStep(Always(c), s);
      Distribute(c, |s[1..]| as real, 1.0);
    }
  }

  /** `n` values with this average have this total. */
  predicate Averages(n: nat, average: real, total: real) {
    n as real * average == total
  }

  lemma QuotientAverages(n: nat, total: real)
    requires n > 0
    ensures Averages(n, total / n as real, total)
  {
  }

  lemma PositiveProduct(x: real, y: real)
    requires x > 0.0 && y > 0.0
    ensures x * y > 0.0
  {
  }

  lemma QuotientBelow(n: real, q: real, total: real, x: real)
    requires n > 0.0 && n * q == total
    ensures n * x > total <==> x > q
  {
    if x > q {
      PositiveProduct(n, x - q);
    } else if x < q {
      PositiveProduct(n, q - x);
    }
  }

  /** The sum of `f` over a set, in whatever order its elements are taken. */
  ghost function SetSum<T(!new)>(f: T -> real, s: set<T>): real {
    if s == {} then 0.0
    else
      var p :| p in s;
      f(p) + SetSum(f, s - {p})
  }

  lemma {:induction false} SetSumAny<T(!new)>(f: T -> real, s: set<T>, q: T)
    requires q in s
    ensures SetSum(f, s) == f(q) + SetSum(f, s - {q})
    decreases |s|
  {
    var p :| p in s && SetSum(f, s) == f(p) + SetSum(f, s - {p});
    if p != q {
      SetSumAny(f, s - {p}, q);
      SetSumAny(f, s - {q}, p);
      assert s - {p} - {q} == s - {q} - {p};
    }
  }

  /** Over a list without repetition the two sums agree. */
  lemma {:induction false} SumOfDistinct<T(!new)>(f: T -> real, s: seq<T>)
    requires |Elements(s)| == |s|
    ensures Sum(Mapped(f, s)) == SetSum(f, Elements(s))
  {
    if s != [] {
      var p, tail := s[0], s[1..];
      assert s == [p] + tail;
      assert Elements(s) == Elements(tail) + {p};
      FewElements(tail);
      assert p !in Elements(tail);
      assert Elements(s) - {p} == Elements(tail);
      SumOfDistinct(f, tail);
      SetSumAny(f, Elements(s), p);
      assert Mapped(f, s)[1..] == Mapped(f, tail);
    }
  }
}
