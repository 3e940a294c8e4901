/** Decimal rendering of natural numbers, plain and zero-padded, and parsing it back. */
module Decimal {
  import opened StringOrder

  predicate IsDigit(c: char) { '0' <= c <= '9' }

  function DigitValue(c: char): (d: nat)
    requires IsDigit(c)
    ensures d < 10
  {
    c as int - '0' as int
  }

  function Digit(d: nat): (c: char)
    requires d < 10
    ensures IsDigit(c) && DigitValue(c) == d
  {
    ('0' as int + d) as char
  }

  /** `{}` on an unsigned integer. */
  function Show(n: nat): (s: string)
    ensures s != [] && forall c :: c in s ==> IsDigit(c)
  {
    if n < 10 then [Digit(n)] else Show(n / 10) + [Digit(n % 10)]
  }

  /** The number a string of digits stands for. */
  function Value(s: string): nat
    requires forall c :: c in s ==> IsDigit(c)
  {
    if s == [] then 0 else
      10 * Value(s[..|s| - 1]) + DigitValue(s[|s| - 1])
  }

  lemma {:induction false} ValueOfShow(n: nat)
    ensures Value(Show(n)) == n
  {
    if n >= 10 {
      ValueOfShow(n / 10);
      assert Show(n)[..|Show(n)| - 1] == Show(n / 10);
    }
  }

  /** `{:0w}`: at least `width` digits. */
  function Pad(n: nat, width: nat): string {
    if |Show(n)| < width then seq(width - |Show(n)|, i => '0') + Show(n) else Show(n)
  }

  function Pow10(w: nat): nat {
    if w == 0 then 1 else 10 * Pow10(w - 1)
  }

  /** Exactly `width` digits, the low ones. */
  function Fixed(n: nat, width: nat): (s: string)
    ensures |s| == width
  {
    if width == 0 then [] else Fixed(n / 10, width - 1) + [Digit(n % 10)]
  }

  lemma {:induction false} FixedZero(width: nat)
    ensures Fixed(0, width) == seq(width, i => '0')
  {
    if width > 0 { FixedZero(width - 1); }
  }

  lemma {:induction false} PadIsFixed(n: nat, width: nat)
    requires width > 0 && n < Pow10(width)
    ensures Pad(n, width) == Fixed(n, width)
  {
    if n < 10 {
      FixedZero(width - 1);
      assert n / 10 == 0;
    } else {
      PadIsFixed(n / 10, width - 1);
      assert Show(n) == Show(n / 10) + [Digit(n % 10)];
    }
  }

  lemma {:induction false} FixedLess(m: nat, n: nat, width: nat)
    requires m < n < Pow10(width)
    ensures StrLess(Fixed(m, width), Fixed(n, width))
  {
    if m / 10 < n / 10 { FixedLess(m / 10, n / 10, width - 1); }
    ConcatLess(Fixed(m / 10, width - 1), [Digit(m % 10)], Fixed(n / 10, width - 1), [Digit(n % 10)]);
  }

  /** A padded number, a separator and a rest compare as the pair of number and rest. */
  lemma FieldLess(m: nat, x: string, n: nat, y: string, width: nat)
    requires m < Pow10(width) && n < Pow10(width) && width > 0
    ensures StrLess(Pad(m, width) + x, Pad(n, width) + y) <==> m < n || (m == n && StrLess(x, y))
  {
    PadIsFixed(m, width);
    PadIsFixed(n, width);
    ConcatLess(Fixed(m, width), x, Fixed(n, width), y);
    if m < n {
      FixedLess(m, n, width);
    } else if n < m {
      FixedLess(n, m, width);
      Trichotomy(Fixed(n, width), Fixed(m, width));
    } else {
      Trichotomy(Fixed(m, width), Fixed(m, width));
    }
  }

  predicate AllDigits(s: string) { forall c :: c in s ==> IsDigit(c) }

  /** A padded number has its width and reads back. */
  lemma {:induction false} FixedShows(n: nat, width: nat)
    requires n < Pow10(width)
    ensures AllDigits(Fixed(n, width)) && Value(Fixed(n, width)) == n
  {
    if width > 0 {
      FixedShows(n / 10, width - 1);
      assert Fixed(n, width)[..width - 1] == Fixed(n / 10, width - 1);
    }
  }

  lemma PadShows(n: nat, width: nat)
    requires width > 0 && n < Pow10(width)
    ensures |Pad(n, width)| == width && AllDigits(Pad(n, width)) && Value(Pad(n, width)) == n
  {
    PadIsFixed(n, width);
    FixedShows(n, width);
  }
}
