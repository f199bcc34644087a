/** Byte strings and the few operations on them that framing uses. */
module Bytes {
  newtype byte = x: int | 0 <= x < 256

  type Bytes = seq<byte>

  const DONE: Bytes := [68, 79, 78, 69]
  const ERROR: Bytes := [69, 82, 82, 79, 82]

  predicate StartsWith(s: Bytes, p: Bytes) {
    p <= s
  }

  predicate EndsWith(s: Bytes, p: Bytes) {
    |p| <= |s| && s[|s| - |p|..] == p
  }

  predicate IsSpace(b: byte) {
    b == 32 || 9 <= b <= 13
  }

  /** How many of the first bytes are white space. */
  function Leading(s: Bytes): (n: nat)
    ensures n <= |s|
    ensures forall i :: 0 <= i < n ==> IsSpace(s[i])
    ensures n < |s| ==> !IsSpace(s[n])
  {
    if s == [] || !IsSpace(s[0]) then 0 else 1 + Leading(s[1..])
  }

  function StripLeft(s: Bytes): Bytes {
    s[Leading(s)..]
  }

  function StripRight(s: Bytes): (r: Bytes)
    ensures r <= s
    ensures s != [] && !IsSpace(s[|s| - 1]) ==> r == s
  {
    if s == [] || !IsSpace(s[|s| - 1]) then s else StripRight(s[..|s| - 1])
  }

  function Strip(s: Bytes): Bytes {
    StripRight(StripLeft(s))
  }

  predicate Blank(s: Bytes) {
    forall i :: 0 <= i < |s| ==> IsSpace(s[i])
  }

  lemma {:induction false} StripRightBlank(s: Bytes)
    ensures var r := StripRight(s); Blank(s[|r|..]) && (r != [] ==> !IsSpace(r[|r| - 1]))
  {
    if s != [] && IsSpace(s[|s| - 1]) {
      StripRightBlank(s[..|s| - 1]);
    }
  }

  lemma StripLeftExactly(s: Bytes)
    ensures s == s[..Leading(s)] + StripLeft(s) && Blank(s[..Leading(s)])
    ensures StripLeft(s) != [] ==> !IsSpace(StripLeft(s)[0])
  {
  }

  /** White space is taken off both ends, and only there. */
  lemma StripExactly(s: Bytes)
    ensures var left, t := StripLeft(s), Strip(s);
      && Blank(s[..|s| - |left|]) && t <= left <= s[|s| - |left|..] && Blank(left[|t|..])
      && (t != [] ==> !IsSpace(t[0]) && !IsSpace(t[|t| - 1]))
  {
    StripLeftExactly(s);
    StripRightBlank(StripLeft(s));
  }
}
