/** Stable sorting, as Python's `sorted` does it: `ahead(x, y)` lets `x` stand before `y`. */
module Sorting {

  function Insert<T(!new)>(ahead: (T, T) -> bool, x: T, s: seq<T>): (r: seq<T>)
    ensures |r| == |s| + 1 && forall y :: y in r <==> y == x || y in s
  {
    if s == [] || ahead(x, s[0]) then [x] + s
    else
      assert s == [s[0]] + s[1..];
      [s[0]] + Insert(ahead, x, s[1..])
  }

  function Sort<T(!new)>(ahead: (T, T) -> bool, s: seq<T>): (r: seq<T>)
    ensures |r| == |s| && forall y :: y in r <==> y in s
  {
    if s == [] then []
    else
      assert s == [s[0]] + s[1..];
      Insert(ahead, s[0], Sort(ahead, s[1..]))
  }

  ghost predicate Ordered<T>(ahead: (T, T) -> bool, s: seq<T>) {
    forall i, j :: 0 <= i < j < |s| ==> ahead(s[i], s[j])
  }

  ghost predicate Transitive<T(!new)>(ahead: (T, T) -> bool) {
    forall a, b, c :: ahead(a, b) && ahead(b, c) ==> ahead(a, c)
  }

  lemma {:induction false} InsertOrdered<T(!new)>(ahead: (T, T) -> bool, x: T, s: seq<T>)
    requires Transitive(ahead) && Ordered(ahead, s) && forall y :: y in s ==> ahead(x, y) || ahead(y, x)
    ensures Ordered(ahead, Insert(ahead, x, s))
  {
    if s == [] {
    } else if ahead(x, s[0]) {
      forall j | 1 <= j < |s|
        ensures ahead(x, s[j])
      {
        assert ahead(s[0], s[j]);
      }
    } else {
      var tail := s[1..];
      assert s == [s[0]] + tail;
      InsertOrdered(ahead, x, tail);
      var rest := Insert(ahead, x, tail);
      forall j | 0 <= j < |rest|
        ensures ahead(s[0], rest[j])
      {
        assert rest[j] in rest && s[0] in s;
        if rest[j] in tail {
          var i :| 0 <= i < |tail| && tail[i] == rest[j];
          assert s[i + 1] == rest[j];
        }
      }
    }
  }

  /** Where any two elements can be compared, the sorted list is in order. */
  lemma {:induction false} SortOrdered<T(!new)>(ahead: (T, T) -> bool, s: seq<T>)
    requires Transitive(ahead)
    requires forall i, j :: 0 <= i < j < |s| ==> ahead(s[i], s[j]) || ahead(s[j], s[i])
    ensures Ordered(ahead, Sort(ahead, s))
  {
    if s != [] {
      var tail := s[1..];
      SortOrdered(ahead, tail);
      forall y | y in Sort(ahead, tail)
        ensures ahead(s[0], y) || ahead(y, s[0])
      {
        var i :| 0 <= i < |tail| && tail[i] == y;
        assert s[i + 1] == y;
      }
      InsertOrdered(ahead, s[0], Sort(ahead, tail));
    }
  }

  function Filter<T>(keep: T -> bool, s: seq<T>): seq<T> {
    if s == [] then [] else (if keep(s[0]) then [s[0]] else []) + Filter(keep, s[1..])
  }

  lemma FilterFirst<T>(keep: T -> bool, x: T, s: seq<T>)
    ensures Filter(keep, [x] + s) == (if keep(x) then [x] else []) + Filter(keep, s)
  {
    assert ([x] + s)[1..] == s;
  }

  lemma PassBy<T>(same: T -> bool, x: T, y: T, s: seq<T>)
    requires !(same(x) && same(y))
    ensures (if same(y) then [y] else []) + ((if same(x) then [x] else []) + s)
         == (if same(x) then [x] else []) + ((if same(y) then [y] else []) + s)
  {
  }

  lemma {:induction false} InsertFiltered<T(!new)>(ahead: (T, T) -> bool, same: T -> bool, x: T, s: seq<T>)
    requires forall y :: y in s && same(x) && same(y) ==> ahead(x, y)
    ensures Filter(same, Insert(ahead, x, s)) == (if same(x) then [x] else []) + Filter(same, s)
  {
    FilterFirst(same, x, s);
    if s != [] && !ahead(x, s[0]) {
      var tail := s[1..];
      assert s == [s[0]] + tail;
      InsertFiltered(ahead, same, x, tail);
      FilterFirst(same, s[0], Insert(ahead, x, tail));
      PassBy(same, x, s[0], Filter(same, tail));
    }
  }

  /** Elements that may all stand before each other keep their order, and their number. */
  lemma {:induction false} SortStable<T(!new)>(ahead: (T, T) -> bool, same: T -> bool, s: seq<T>)
    requires forall x, y :: x in s && y in s && same(x) && same(y) ==> ahead(x, y)
    ensures Filter(same, Sort(ahead, s)) == Filter(same, s)
  {
    if s != [] {
      assert s == [s[0]] + s[1..];
      SortStable(ahead, same, s[1..]);
      InsertFiltered(ahead, same, s[0], Sort(ahead, s[1..]));
    }
  }
}
