/**
 * Decimal text of natural numbers: `str(n)` for the count in a label,
 * `int(s)` on a digit string, and the zero padding of a `:03d` format.
 */
module Decimal {

  predicate IsDigit(c: char)
  {
    '0' <= c <= '9'
  }

  predicate AllDigits(s: string)
  {
    forall i :: 0 <= i < |s| ==> IsDigit(s[i])
  }

  function DigitChar(d: nat): (c: char)
    requires d < 10
    ensures IsDigit(c)
  {
    ('0' as int + d) as char
  }

  /** The value of one digit character. */
  function DigitOf(c: char): (d: int)
    ensures IsDigit(c) ==> 0 <= d < 10 && DigitChar(d) == c
  {
    c as int - '0' as int
  }

  /** The number a string of ASCII digits denotes; leading zeros are allowed. */
  function Value(s: string): nat
    requires AllDigits(s)
  {
    if s == [] then 0
    else 10 * Value(s[..|s| - 1]) + DigitOf(s[|s| - 1])
  }

  /**
   * `str(n)`: the shortest decimal text of `n`. It is made of digits, has no
   * leading zero, and reads back as `n`.
   */
  function Show(n: nat): (s: string)
    ensures |s| >= 1 && AllDigits(s)
    ensures |s| > 1 ==> s[0] != '0'
    ensures Value(s) == n
  {
    if n < 10 then [DigitChar(n)]
    else
      var prefix := Show(n / 10);
      var s := prefix + [DigitChar(n % 10)];
      assert s[..|s| - 1] == prefix;
      s
  }

  /** Different numbers have different decimal texts. */
  lemma ShowInjective(m: nat, n: nat)
    requires Show(m) == Show(n)
    ensures m == n
  {
    assert Value(Show(m)) == m;
  }

  function Zeros(k: nat): (z: string)
    ensures |z| == k && AllDigits(z)
  {
    seq(k, i => '0')
  }

  /** Leading zeros do not change the number a digit string denotes. */
  lemma {:induction false} ValueLeadingZeros(k: nat, s: string)
    requires AllDigits(s)
    ensures AllDigits(Zeros(k) + s) && Value(Zeros(k) + s) == Value(s)
    decreases |s|, k
  {
    var t := Zeros(k) + s;
    if s == [] {
      assert t == Zeros(k);
      if k > 0 {
        assert t[..|t| - 1] == Zeros(k - 1);
        ValueLeadingZeros(k - 1, s);
        assert Zeros(k - 1) + s == Zeros(k - 1);
      }
    } else {
      var init := s[..|s| - 1];
      assert t[..|t| - 1] == Zeros(k) + init;
      ValueLeadingZeros(k, init);
    }
  }

  /** Left-fill `s` with zeros up to `width` characters, as a `0<width>d` format does. */
  function ZeroPad(s: string, width: nat): (r: string)
    requires AllDigits(s)
    ensures AllDigits(r) && Value(r) == Value(s)
    ensures |r| == if |s| >= width then |s| else width
  {
    if |s| >= width then s
    else
      ValueLeadingZeros(width - |s|, s);
      Zeros(width - |s|) + s
  }

  /** Where the characters of a concatenation come from. */
  lemma CharOfConcat(a: string, x: string, i: int)
    ensures 0 <= i < |a| ==> (a + x)[i] == a[i]
    ensures |a| <= i < |a| + |x| ==> (a + x)[i] == x[i - |a|]
  {
  }

  /**
   * Splitting at the first non-digit: when two strings both start with a
   * run of digits that is followed by a non-digit, equal strings have equal
   * digit runs and equal remainders.
   */
  lemma DigitRunUnique(a: string, x: string, b: string, y: string)
    requires AllDigits(a) && AllDigits(b)
    requires |x| > 0 && !IsDigit(x[0]) && |y| > 0 && !IsDigit(y[0])
    requires a + x == b + y
    ensures a == b && x == y
  {
    if |a| < |b| {
      CharOfConcat(a, x, |a|);
      CharOfConcat(b, y, |a|);
      assert false;
    } else if |b| < |a| {
      CharOfConcat(a, x, |b|);
      CharOfConcat(b, y, |b|);
      assert false;
    } else {
      assert a == (a + x)[..|a|];
      assert b == (b + y)[..|b|];
      assert x == (a + x)[|a|..];
      assert y == (b + y)[|b|..];
    }
  }
}
