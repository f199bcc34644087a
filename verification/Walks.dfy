/** Walks along a relation: the notion of connectedness shared by pixel grids,
    brightness climbs and the correlation graph. */
module Walks {

  /** `path` lists the stops after `p`, the last of which is `q`. */
  ghost predicate IsWalk<T(!new)>(step: (T, T) -> bool, p: T, path: seq<T>, q: T) {
    if path == [] then p == q
    else step(p, path[0]) && IsWalk(step, path[0], path[1..], q)
  }

  ghost predicate Linked<T(!new)>(step: (T, T) -> bool, p: T, q: T) {
    exists path :: IsWalk(step, p, path, q)
  }

  lemma LinkedSelf<T(!new)>(step: (T, T) -> bool, p: T)
    ensures Linked(step, p, p)
  {
    assert IsWalk(step, p, [], p);
  }

  lemma LinkedStep<T(!new)>(step: (T, T) -> bool, p: T, m: T, q: T)
    requires step(p, m) && Linked(step, m, q)
    ensures Linked(step, p, q)
  {
    var path :| IsWalk(step, m, path, q);
    assert ([m] + path)[1..] == path;
    assert IsWalk(step, p, [m] + path, q);
  }

  lemma {:induction false} WalkJoin<T(!new)>(step: (T, T) -> bool, p: T, path: seq<T>, m: T, q: T)
    requires IsWalk(step, p, path, m) && Linked(step, m, q)
    ensures Linked(step, p, q)
    decreases |path|
  {
    if path != [] {
      WalkJoin(step, path[0], path[1..], m, q);
      LinkedStep(step, p, path[0], q);
    }
  }

  lemma LinkedTransitive<T(!new)>(step: (T, T) -> bool, p: T, m: T, q: T)
    requires Linked(step, p, m) && Linked(step, m, q)
    ensures Linked(step, p, q)
  {
    var path :| IsWalk(step, p, path, m);
    WalkJoin(step, p, path, m, q);
  }

  lemma LinkedLast<T(!new)>(step: (T, T) -> bool, p: T, m: T, q: T)
    requires Linked(step, p, m) && step(m, q)
    ensures Linked(step, p, q)
  {
    LinkedSelf(step, q);
    LinkedStep(step, m, q, q);
    LinkedTransitive(step, p, m, q);
  }

  lemma {:induction false} WalkReverse<T(!new)>(step: (T, T) -> bool, p: T, path: seq<T>, q: T)
    requires forall a, b :: step(a, b) ==> step(b, a)
    requires IsWalk(step, p, path, q)
    ensures Linked(step, q, p)
    decreases |path|
  {
    if path == [] {
      LinkedSelf(step, p);
    } else {
      WalkReverse(step, path[0], path[1..], q);
      LinkedLast(step, q, path[0], p);
    }
  }

  lemma LinkedSymmetric<T(!new)>(step: (T, T) -> bool, p: T, q: T)
    requires forall a, b :: step(a, b) ==> step(b, a)
    requires Linked(step, p, q)
    ensures Linked(step, q, p)
  {
    var path :| IsWalk(step, p, path, q);
    WalkReverse(step, p, path, q);
  }

  lemma {:induction false} WalkWiden<T(!new)>(step: (T, T) -> bool, wider: (T, T) -> bool, p: T, path: seq<T>, q: T)
    requires forall a, b :: step(a, b) ==> wider(a, b)
    requires IsWalk(step, p, path, q)
    ensures Linked(wider, p, q)
    decreases |path|
  {
    if path == [] {
      LinkedSelf(wider, p);
    } else {
      WalkWiden(step, wider, path[0], path[1..], q);
      LinkedStep(wider, p, path[0], q);
    }
  }

  lemma LinkedWiden<T(!new)>(step: (T, T) -> bool, wider: (T, T) -> bool, p: T, q: T)
    requires forall a, b :: step(a, b) ==> wider(a, b)
    requires Linked(step, p, q)
    ensures Linked(wider, p, q)
  {
    var path :| IsWalk(step, p, path, q);
    WalkWiden(step, wider, p, path, q);
  }

  lemma {:induction false} WalkPreserves<T(!new)>(step: (T, T) -> bool, inv: T -> bool, p: T, path: seq<T>, q: T)
    requires forall a, b :: step(a, b) && inv(a) ==> inv(b)
    requires IsWalk(step, p, path, q) && inv(p)
    ensures inv(q)
    decreases |path|
  {
    if path != [] {
      WalkPreserves(step, inv, path[0], path[1..], q);
    }
  }

  /** What every step keeps, a whole walk keeps. */
  lemma LinkedPreserves<T(!new)>(step: (T, T) -> bool, inv: T -> bool, p: T, q: T)
    requires forall a, b :: step(a, b) && inv(a) ==> inv(b)
    requires Linked(step, p, q) && inv(p)
    ensures inv(q)
  {
    var path :| IsWalk(step, p, path, q);
    WalkPreserves(step, inv, p, path, q);
  }
}
