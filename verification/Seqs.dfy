/** Prefixes of sequences, as loops consume them, and extremes. */
module Seqs {

  lemma TakeNext<T>(s: seq<T>, k: nat)
    requires k < |s|
    ensures s[..k + 1] == s[..k] + [s[k]]
  {
  }

  lemma AppendNext<T>(before: seq<T>, s: seq<T>, k: nat)
    requires k < |s|
    ensures before + s[..k + 1] == before + s[..k] + [s[k]]
  {
  }

  lemma TakeAll<T>(s: seq<T>)
    ensures s[..|s|] == s
  {
  }

  ghost function Elements<T(!new)>(s: seq<T>): set<T> {
    set p | p in s
  }

  lemma {:induction false} FewElements<T(!new)>(s: seq<T>)
    ensures |Elements(s)| <= |s|
  {
    if s != [] {
      FewElements(s[1..]);
      assert s == [s[0]] + s[1..];
      assert Elements(s) == Elements(s[1..]) + {s[0]};
    }
  }

  function Min(a: int, b: int): (m: int)
    ensures m <= a && m <= b && (m == a || m == b)
  {
    if a <= b then a else b
  }

  function Max(a: int, b: int): (m: int)
    ensures a <= m && b <= m && (m == a || m == b)
  {
    if a >= b then a else b
  }

  function Lowest(s: seq<int>): (m: int)
    requires s != []
    ensures m in s && forall v :: v in s ==> m <= v
  {
    var last := s[|s| - 1];
    assert s == s[..|s| - 1] + [last];
    if |s| == 1 then last
    else
      var m := Lowest(s[..|s| - 1]);
      if last < m then last else m
  }

  function Highest(s: seq<int>): (m: int)
    requires s != []
    ensures m in s && forall v :: v in s ==> v <= m
  {
    var last := s[|s| - 1];
    assert s == s[..|s| - 1] + [last];
    if |s| == 1 then last
    else
      var m := Highest(s[..|s| - 1]);
      if last > m then last else m
  }
}
