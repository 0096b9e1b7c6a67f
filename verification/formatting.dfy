/** Decimal rendering of integers as Python's `f"{n:0Wd}"` does it, and the
    fixed-width digit strings the timestamp formats are built from. */
module Formatting {
  import opened Text

  function Pow10(n: nat): (r: nat)
    ensures r >= 1
  {
    if n == 0 then 1 else 10 * Pow10(n - 1)
  }

  function DigitChar(d: nat): (c: char)
    requires d < 10
    ensures '0' <= c <= '9'
  {
    (48 + d) as char
  }

  lemma DigitCharOrder(a: nat, b: nat)
    requires a < 10 && b < 10
    ensures DigitChar(a) < DigitChar(b) <==> a < b
  {
  }

  /** `str(n)` for a non-negative integer: no leading zeros. */
  function Digits(n: nat): (s: string)
    ensures 1 <= |s|
  {
    if n < 10 then [DigitChar(n)] else Digits(n / 10) + [DigitChar(n % 10)]
  }

  function Zeros(k: nat): (s: string)
    ensures |s| == k
    ensures forall i :: 0 <= i < k ==> s[i] == '0'
  {
    if k == 0 then [] else Zeros(k - 1) + ['0']
  }

  /** Python's `format(n, "0Wd")`: the sign, then the digits zero-padded so the
      whole text is at least `width` characters long. */
  function FormatInt(n: int, width: nat): string
  {
    if n >= 0 then PadZeros(Digits(n), width)
    else "-" + PadZeros(Digits(-n), if width == 0 then 0 else width - 1)
  }

  /** Left-pads `s` with zeros to at least `width` characters. */
  function PadZeros(s: string, width: nat): string
  {
    (if |s| < width then Zeros(width - |s|) else []) + s
  }

  /** Exactly `w` decimal digits of `n`, most significant first. */
  function Fixed(n: nat, w: nat): (s: string)
    ensures |s| == w
    ensures forall i :: 0 <= i < w ==> '0' <= s[i] <= '9'
  {
    if w == 0 then [] else Fixed(n / 10, w - 1) + [DigitChar(n % 10)]
  }

  lemma {:induction false} DigitsLength(n: nat, w: nat)
    requires n < Pow10(w)
    ensures |Digits(n)| <= w || (n == 0 && w == 0)
    decreases n
  {
    if n >= 10 {
      assert Pow10(1) == 10;
      DigitsLength(n / 10, w - 1);
    }
  }

  lemma {:induction false} FixedOfZero(k: nat)
    ensures Fixed(0, k) == Zeros(k)
  {
    if k > 0 {
      FixedOfZero(k - 1);
    }
  }

  lemma PadSnoc(s: string, c: char, w: nat)
    requires |s| + 1 <= w
    ensures PadZeros(s + [c], w) == PadZeros(s, w - 1) + [c]
  {
    if |s| + 1 < w {
      assert Zeros(w - |s + [c]|) == Zeros(w - 1 - |s|);
    }
  }

  /** Within its width, Python's zero-padded rendering is the fixed-width
      digit string. */
  lemma {:induction false} FormatIsFixed(n: nat, w: nat)
    requires 1 <= w && n < Pow10(w)
    ensures FormatInt(n, w) == Fixed(n, w)
    decreases n
  {
    DigitsLength(n, w);
    if n < 10 {
      FixedOfZero(w - 1);
      assert Fixed(n, w) == Fixed(0, w - 1) + [DigitChar(n)];
      assert PadZeros([DigitChar(n)], w) == Zeros(w - 1) + [DigitChar(n)];
    } else {
      assert Pow10(1) == 10;
      DigitsLength(n / 10, w - 1);
      FormatIsFixed(n / 10, w - 1);
      PadSnoc(Digits(n / 10), DigitChar(n % 10), w);
    }
  }

  /** Fixed-width digit strings sort as the numbers they denote. */
  lemma {:induction false} FixedOrder(a: nat, b: nat, w: nat)
    requires a < Pow10(w) && b < Pow10(w)
    ensures TextLt(Fixed(a, w), Fixed(b, w)) <==> a < b
    ensures Fixed(a, w) == Fixed(b, w) <==> a == b
    decreases w
  {
    if w == 0 {
      TextLtIrreflexive([]);
    } else {
      FixedOrder(a / 10, b / 10, w - 1);
      ConcatLt(Fixed(a / 10, w - 1), [DigitChar(a % 10)], Fixed(b / 10, w - 1), [DigitChar(b % 10)]);
      DigitCharOrder(a % 10, b % 10);
      assert a == 10 * (a / 10) + a % 10 && b == 10 * (b / 10) + b % 10;
      if Fixed(a, w) == Fixed(b, w) {
        assert Fixed(a, w)[w - 1] == DigitChar(a % 10);
        assert Fixed(a, w)[..w - 1] == Fixed(a / 10, w - 1);
        assert Fixed(b, w)[..w - 1] == Fixed(b / 10, w - 1);
      }
    }
  }
}
