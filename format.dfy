/** Python's `'%0Nd' % n` (and `str(n)`) for the zero-padded counters and indices
    that appear in folder and file names. */
module Format {
  import Strings

  predicate IsDigit(c: char) {
    '0' <= c <= '9'
  }

  predicate AllDigits(s: string) {
    forall k :: 0 <= k < |s| ==> IsDigit(s[k])
  }

  /** No decimal digit is whitespace. */
  lemma DigitNotSpace(c: char)
    requires IsDigit(c)
    ensures c !in Strings.WHITESPACE
  {
  }

  function DigitChar(d: nat): (c: char)
    requires d < 10
    ensures IsDigit(c) && c as int - '0' as int == d
  {
    (48 + d) as char
  }

  /** `str(n)` for a non-negative `n`: decimal, no leading zeros. */
  function Digits(n: nat): (r: string)
    ensures |r| >= 1 && AllDigits(r)
    decreases n
  {
    if n < 10 then [DigitChar(n)] else Digits(n / 10) + [DigitChar(n % 10)]
  }

  /** The number a string of decimal digits denotes (`int(s)`). */
  function Value(s: string): nat
    requires AllDigits(s)
    decreases |s|
  {
    if s == [] then 0 else Value(s[..|s| - 1]) * 10 + (s[|s| - 1] as int - '0' as int)
  }

  function Zeros(k: nat): (r: string)
    ensures |r| == k && AllDigits(r)
  {
    if k == 0 then [] else Zeros(k - 1) + ['0']
  }

  /** `'%0{width}d' % n` for a non-negative `n`. */
  function ZeroPad(n: nat, width: nat): string {
    var d := Digits(n);
    (if |d| < width then Zeros(width - |d|) else []) + d
  }

  /** `'%0{width}d' % n` for any `n`: the sign counts towards the width. */
  function PadInt(n: int, width: nat): string {
    if n < 0 then "-" + ZeroPad(-n, if width > 0 then width - 1 else 0) else ZeroPad(n, width)
  }

  // ---------------------------------------------------------------------------
  // Lemmas

  lemma {:induction false} ValueDigits(n: nat)
    ensures Value(Digits(n)) == n
    decreases n
  {
    if n >= 10 {
      ValueDigits(n / 10);
      var d := Digits(n);
      assert d[..|d| - 1] == Digits(n / 10);
    }
  }

  lemma {:induction false} ValueZerosPrefix(k: nat, s: string)
    requires AllDigits(s)
    ensures AllDigits(Zeros(k) + s) && Value(Zeros(k) + s) == Value(s)
    decreases |s|, k
  {
    var z := Zeros(k) + s;
    if s == [] {
      assert z == Zeros(k);
      if k > 0 {
        assert z[..|z| - 1] == Zeros(k - 1) + [];
        ValueZerosPrefix(k - 1, []);
      }
    } else {
      var init := s[..|s| - 1];
      ValueZerosPrefix(k, init);
      assert z[..|z| - 1] == Zeros(k) + init;
    }
  }

  /** `'%0Nd' % n` reads back as `n`, is made of digits only, and is exactly `N` long
      whenever `n` has at most `N` digits. */
  lemma ZeroPadSpec(n: nat, width: nat)
    ensures AllDigits(ZeroPad(n, width)) && Value(ZeroPad(n, width)) == n
    ensures |ZeroPad(n, width)| == if |Digits(n)| < width then width else |Digits(n)|
  {
    var d := Digits(n);
    ValueDigits(n);
    if |d| < width {
      ValueZerosPrefix(width - |d|, d);
    } else {
      assert ZeroPad(n, width) == d;
    }
  }

  /** Numbers below `10^k` have at most `k` digits; used with `k = 2, 3`. */
  lemma {:induction false} DigitsBelow(n: nat, k: nat, bound: nat)
    requires bound == Pow10(k) && n < bound
    ensures |Digits(n)| <= if k == 0 then 1 else k
    decreases k
  {
    if n >= 10 {
      assert k != 0 && k != 1 by {
        assert Pow10(0) == 1 && Pow10(1) == 10;
      }
      assert n / 10 < Pow10(k - 1);
      DigitsBelow(n / 10, k - 1, Pow10(k - 1));
    }
  }

  /** Numbers of at least `10^k` have more than `k` digits; with `DigitsBelow`,
      the years 1000 to 9999 are written with exactly four. */
  lemma {:induction false} DigitsAbove(n: nat, k: nat, bound: nat)
    requires bound == Pow10(k) && n >= bound
    ensures |Digits(n)| >= k + 1
    decreases k
  {
    if k > 0 {
      assert n >= 10;
      assert n / 10 >= Pow10(k - 1);
      DigitsAbove(n / 10, k - 1, Pow10(k - 1));
    }
  }

  function Pow10(k: nat): (p: nat)
    ensures p >= 1
  {
    if k == 0 then 1 else 10 * Pow10(k - 1)
  }

  /** `'%03d' % n` for `0 <= n < 1000` is three digits that read back as `n`;
      so distinct counters give distinct prefixes. */
  lemma Pad3(n: nat)
    requires n < 1000
    ensures |ZeroPad(n, 3)| == 3 && AllDigits(ZeroPad(n, 3)) && Value(ZeroPad(n, 3)) == n
  {
    DigitsBelow(n, 3, 1000);
    ZeroPadSpec(n, 3);
  }

  /** Zero padding is injective: two different numbers never get the same text. */
  lemma ZeroPadInjective(n: nat, m: nat, width: nat)
    requires ZeroPad(n, width) == ZeroPad(m, width)
    ensures n == m
  {
    ZeroPadSpec(n, width);
    ZeroPadSpec(m, width);
  }
}
