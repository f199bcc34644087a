/** Decimal numerals as Python prints and reads them, and the order of strings. */
module Decimals {

  predicate IsDigit(c: char) {
    '0' <= c <= '9'
  }

  predicate AllDigits(s: string) {
    forall c :: c in s ==> IsDigit(c)
  }

  function Digit(d: nat): (c: char)
    requires d < 10
    ensures IsDigit(c) && DigitValue(c) == d
  {
    ('0' as int + d) as char
  }

  function DigitValue(c: char): (d: nat) {
    if IsDigit(c) then c as int - '0' as int else 0
  }

  /** The numeral of `n`, without leading zeros. */
  function Print(n: nat): (s: string)
    ensures s != [] && AllDigits(s)
  {
    if n < 10 then [Digit(n)] else Print(n / 10) + [Digit(n % 10)]
  }

  /** The number a string of digits stands for. */
  function Parse(s: string): nat {
    if s == [] then 0 else 10 * Parse(s[..|s| - 1]) + DigitValue(s[|s| - 1])
  }

  function Zeros(n: nat): (s: string)
    ensures |s| == n && AllDigits(s)
  {
    seq(n, i => '0')
  }

  /** Zero-padded to at least `w` digits. */
  function Padded(n: nat, w: nat): (s: string)
    ensures s != [] && AllDigits(s)
  {
    var p := Print(n);
    if |p| < w then Zeros(w - |p|) + p else p
  }

  lemma {:induction false} ParsePrint(n: nat)
    ensures Parse(Print(n)) == n
  {
    if n >= 10 {
      ParsePrint(n / 10);
    }
  }

  lemma {:induction false} ParseZeros(k: nat, s: string)
    ensures Parse(Zeros(k) + s) == Parse(s)
    decreases |s|, k
  {
    if s == [] {
      if k > 0 {
        assert Zeros(k) + s == Zeros(k) && Zeros(k)[..k - 1] == Zeros(k - 1) + s;
        ParseZeros(k - 1, s);
      }
    } else {
      var n := |s| - 1;
      assert (Zeros(k) + s)[..k + n] == Zeros(k) + s[..n];
      ParseZeros(k, s[..n]);
    }
  }

  /** Reading a padded numeral gives the number back, whatever the width. */
  lemma ParsePadded(n: nat, w: nat)
    ensures Parse(Padded(n, w)) == n
  {
    ParsePrint(n);
    if |Print(n)| < w {
      ParseZeros(w - |Print(n)|, Print(n));
    }
  }

  // ----- Order of strings -----

  /** Character by character; a proper prefix comes first. */
  predicate Less(a: string, b: string) {
    if b == [] then false
    else if a == [] then true
    else a[0] < b[0] || (a[0] == b[0] && Less(a[1..], b[1..]))
  }

  lemma {:induction false} LessAsymmetric(a: string, b: string)
    requires Less(a, b)
    ensures !Less(b, a)
  {
    if a != [] && a[0] == b[0] {
      LessAsymmetric(a[1..], b[1..]);
    }
  }

  lemma {:induction false} NotLessTransitive(a: string, b: string, c: string)
    requires !Less(a, b) && !Less(b, c)
    ensures !Less(a, c)
  {
    if b != [] && c != [] && a != [] && a[0] == b[0] == c[0] {
      NotLessTransitive(a[1..], b[1..], c[1..]);
    }
  }

  /** A common beginning does not decide. */
  lemma {:induction false} LessAfter(p: string, a: string, b: string)
    ensures Less(p + a, p + b) == Less(a, b)
  {
    if p == [] {
      assert p + a == a && p + b == b;
    } else {
      assert (p + a)[1..] == p[1..] + a && (p + b)[1..] == p[1..] + b;
      LessAfter(p[1..], a, b);
    }
  }

  /** Of two beginnings of equal length the smaller decides. */
  lemma {:induction false} LessDecided(p: string, q: string, a: string, b: string)
    requires |p| == |q| && Less(p, q)
    ensures Less(p + a, q + b)
  {
    if p[0] == q[0] {
      assert (p + a)[1..] == p[1..] + a && (q + b)[1..] == q[1..] + b;
      LessDecided(p[1..], q[1..], a, b);
    }
  }

  // ----- Numerals of a fixed width -----

  function Pow10(w: nat): (p: nat)
    ensures p >= 1
  {
    if w == 0 then 1 else 10 * Pow10(w - 1)
  }

  /** The last `w` digits of `n`. */
  function Fixed(n: nat, w: nat): (s: string)
    ensures |s| == w
  {
    if w == 0 then [] else Fixed(n / 10, w - 1) + [Digit(n % 10)]
  }

  lemma {:induction false} FixedZero(w: nat)
    ensures Fixed(0, w) == Zeros(w)
  {
    if w > 0 {
      FixedZero(w - 1);
    }
  }

  lemma {:induction false} PaddedFixed(n: nat, w: nat)
    requires w > 0 && n < Pow10(w)
    ensures Padded(n, w) == Fixed(n, w)
  {
    if n < 10 {
      FixedZero(w - 1);
      assert n / 10 == 0;
    } else {
      assert w > 1 by {
        assert Pow10(1) == 10 * Pow10(0);
      }
      PaddedFixed(n / 10, w - 1);
    }
  }

  lemma {:induction false} FixedOrder(n: nat, m: nat, w: nat)
    requires n < m < Pow10(w)
    ensures Less(Fixed(n, w), Fixed(m, w))
  {
    if n / 10 < m / 10 {
      FixedOrder(n / 10, m / 10, w - 1);
      LessDecided(Fixed(n / 10, w - 1), Fixed(m / 10, w - 1), [Digit(n % 10)], [Digit(m % 10)]);
    } else {
      LessAfter(Fixed(n / 10, w - 1), [Digit(n % 10)], [Digit(m % 10)]);
    }
  }

  /** Numerals padded to a width both fit are ordered as the numbers are, whatever follows. */
  lemma PaddedOrder(n: nat, m: nat, w: nat, a: string, b: string)
    requires n < m < Pow10(w) && w > 0
    ensures Less(Padded(n, w) + a, Padded(m, w) + b)
  {
    PaddedFixed(n, w);
    PaddedFixed(m, w);
    FixedOrder(n, m, w);
    LessDecided(Fixed(n, w), Fixed(m, w), a, b);
  }
}
