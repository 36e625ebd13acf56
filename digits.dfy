/** Decimal digit strings: the zero-padded fields `strftime` writes, the
    unpadded `str(n)` of a count, their values, and the lexicographic order
    in which Python compares strings. */
module Digits {

  predicate IsDigit(c: char) {
    '0' <= c <= '9'
  }

  predicate AllDigits(s: string) {
    forall i :: 0 <= i < |s| ==> IsDigit(s[i])
  }

  function DigitChar(d: nat): (c: char)
    requires d < 10
    ensures IsDigit(c) && c as int - '0' as int == d
  {
    ('0' as int + d) as char
  }

  function Pow10(n: nat): (r: nat)
    ensures r >= 1
  {
    if n == 0 then 1 else 10 * Pow10(n - 1)
  }

  /** The number a string of decimal digits denotes. */
  function ValueOf(s: string): nat
    requires AllDigits(s)
  {
    if s == [] then 0 else 10 * ValueOf(s[..|s| - 1]) + (s[|s| - 1] as int - '0' as int)
  }

  /** The last `width` decimal digits of `n`, zero-padded on the left: what
      `%Y` (width 4) and `%m %d %H %M %S` (width 2) print. */
  function Padded(n: nat, width: nat): (s: string)
    ensures |s| == width && AllDigits(s)
  {
    if width == 0 then [] else Padded(n / 10, width - 1) + [DigitChar(n % 10)]
  }

  /** `str(n)` for a natural number: no leading zero unless `n` is zero. */
  function Decimal(n: nat): (s: string)
    ensures 1 <= |s| && AllDigits(s)
    ensures s[0] == '0' ==> n == 0
  {
    if n < 10 then [DigitChar(n)] else Decimal(n / 10) + [DigitChar(n % 10)]
  }

  /** Python's `<` on strings: code-point lexicographic order, a proper
      prefix coming first. */
  predicate LexLess(a: string, b: string)
    decreases |a|
  {
    if a == [] then b != []
    else b != [] && (a[0] < b[0] || (a[0] == b[0] && LexLess(a[1..], b[1..])))
  }

  lemma {:induction false} ValueOfSnoc(s: string, c: char)
    requires AllDigits(s) && IsDigit(c)
    ensures AllDigits(s + [c])
    ensures ValueOf(s + [c]) == 10 * ValueOf(s) + (c as int - '0' as int)
  {
    assert (s + [c])[..|s|] == s;
  }

  /** Reading back a padded field gives the number, when it fits. */
  lemma {:induction false} PaddedRoundTrip(n: nat, width: nat)
    requires n < Pow10(width)
    ensures ValueOf(Padded(n, width)) == n
  {
    if width > 0 {
      PaddedRoundTrip(n / 10, width - 1);
      ValueOfSnoc(Padded(n / 10, width - 1), DigitChar(n % 10));
    }
  }

  lemma PaddedInjective(n: nat, m: nat, width: nat)
    requires n < Pow10(width) && m < Pow10(width)
    ensures Padded(n, width) == Padded(m, width) <==> n == m
  {
    if Padded(n, width) == Padded(m, width) {
      PaddedRoundTrip(n, width);
      PaddedRoundTrip(m, width);
    }
  }

  /** `str(n)` reads back as `n`. */
  lemma {:induction false} DecimalRoundTrip(n: nat)
    ensures ValueOf(Decimal(n)) == n
  {
    if n < 10 {
      ValueOfSnoc([], DigitChar(n));
      assert [] + [DigitChar(n)] == Decimal(n);
    } else {
      DecimalRoundTrip(n / 10);
      ValueOfSnoc(Decimal(n / 10), DigitChar(n % 10));
    }
  }

  /** Comparing two equal-length heads decides the order of two strings
      unless the heads are equal. */
  lemma {:induction false} LexLessAppend(a1: string, a2: string, b1: string, b2: string)
    requires |a1| == |a2|
    ensures LexLess(a1 + b1, a2 + b2) <==> LexLess(a1, a2) || (a1 == a2 && LexLess(b1, b2))
  {
    if a1 == [] {
      assert a1 + b1 == b1 && a2 + b2 == b2;
    } else {
      assert (a1 + b1)[0] == a1[0] && (a2 + b2)[0] == a2[0];
      assert (a1 + b1)[1..] == a1[1..] + b1 && (a2 + b2)[1..] == a2[1..] + b2;
      LexLessAppend(a1[1..], a2[1..], b1, b2);
      assert a1 == a2 <==> a1[0] == a2[0] && a1[1..] == a2[1..] by {
        if a1[0] == a2[0] && a1[1..] == a2[1..] {
          assert a1 == [a1[0]] + a1[1..] && a2 == [a2[0]] + a2[1..];
        }
      }
    }
  }

  /** Zero padding makes string order agree with numeric order. */
  lemma {:induction false} PaddedOrder(n: nat, m: nat, width: nat)
    requires n < Pow10(width) && m < Pow10(width)
    ensures n < m <==> LexLess(Padded(n, width), Padded(m, width))
  {
    if width > 0 {
      var hn, hm := Padded(n / 10, width - 1), Padded(m / 10, width - 1);
      var dn, dm := DigitChar(n % 10), DigitChar(m % 10);
      PaddedOrder(n / 10, m / 10, width - 1);
      PaddedInjective(n / 10, m / 10, width - 1);
      LexLessAppend(hn, hm, [dn], [dm]);
      assert LexLess([dn], [dm]) <==> dn < dm by {
        assert [dn][1..] == [] && [dm][1..] == [];
      }
    }
  }
}
