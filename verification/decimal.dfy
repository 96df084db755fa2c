/**
 Decimal digit strings: reading a run of ASCII digits as a natural number and
 writing a natural number zero-padded to a minimum width, as Go's time package
 does for the numeric fields of a timestamp.
 */
module Decimal {

  predicate IsDigit(c: char) {
    '0' <= c <= '9'
  }

  predicate AllDigits(s: string) {
    forall i | 0 <= i < |s| :: IsDigit(s[i])
  }

  function DigitValue(c: char): nat
    requires IsDigit(c)
  {
    c as int - '0' as int
  }

  function DigitChar(n: nat): (c: char)
    requires n < 10
    ensures IsDigit(c) && DigitValue(c) == n
  {
    ('0' as int + n) as char
  }

  /** The number a digit string denotes (most significant digit first). */
  function Value(s: string): nat
    requires AllDigits(s)
  {
    if |s| == 0 then 0 else 10 * Value(s[..|s| - 1]) + DigitValue(s[|s| - 1])
  }

  function Pow10(k: nat): nat {
    if k == 0 then 1 else 10 * Pow10(k - 1)
  }

  /** The shortest decimal rendering of `n`; "0" for zero. */
  function Show(n: nat): (s: string)
    ensures 1 <= |s|
    ensures AllDigits(s) && Value(s) == n
  {
    if n < 10 then [DigitChar(n)]
    else
      var s := Show(n / 10) + [DigitChar(n % 10)];
      assert s[..|s| - 1] == Show(n / 10);
      s
  }

  function Zeros(k: nat): (s: string)
    ensures |s| == k && AllDigits(s)
  {
    if k == 0 then "" else "0" + Zeros(k - 1)
  }

  /** `n` written in decimal, left-padded with zeros to at least `width` characters. */
  function Padded(n: nat, width: nat): (s: string)
    ensures AllDigits(s) && Value(s) == n
    ensures |s| >= width
  {
    var d := Show(n);
    if |d| < width then
      ZerosPrefixValue(width - |d|, d);
      Zeros(width - |d|) + d
    else d
  }

  lemma {:induction false} ZerosPrefixValue(k: nat, d: string)
    requires AllDigits(d)
    ensures AllDigits(Zeros(k) + d)
    ensures Value(Zeros(k) + d) == Value(d)
  {
    var s := Zeros(k) + d;
    assert AllDigits(s) by {
      forall i | 0 <= i < |s| ensures IsDigit(s[i]) {
        if i < k { assert s[i] == Zeros(k)[i]; } else { assert s[i] == d[i - k]; }
      }
    }
    if |d| == 0 {
      ZerosValue(k);
      assert s == Zeros(k);
    } else {
      var p := d[..|d| - 1];
      assert s[..|s| - 1] == Zeros(k) + p;
      assert s[|s| - 1] == d[|d| - 1];
      ZerosPrefixValue(k, p);
    }
  }

  lemma {:induction false} ZerosValue(k: nat)
    ensures Value(Zeros(k)) == 0
  {
    if k > 0 {
      var z := Zeros(k);
      assert z[..k - 1] == Zeros(k - 1) by {
        ZerosAreZero(k);
        ZerosAreZero(k - 1);
      }
      ZerosAreZero(k);
      ZerosValue(k - 1);
    }
  }

  lemma {:induction false} ZerosAreZero(k: nat)
    ensures forall i | 0 <= i < k :: Zeros(k)[i] == '0'
  {
    if k > 0 {
      ZerosAreZero(k - 1);
      assert forall i | 1 <= i < k :: Zeros(k)[i] == Zeros(k - 1)[i - 1];
    }
  }

  lemma {:induction false} ShowLength(n: nat, w: nat)
    requires 1 <= w && n < Pow10(w)
    ensures |Show(n)| <= w
  {
    if n >= 10 {
      assert Pow10(1) == 10;
      assert w >= 2;
      assert n / 10 < Pow10(w - 1);
      ShowLength(n / 10, w - 1);
    }
  }

  /** A value below 10^width fills exactly `width` characters once padded. */
  lemma PaddedWidth(n: nat, width: nat)
    requires 1 <= width && n < Pow10(width)
    ensures |Padded(n, width)| == width
  {
    ShowLength(n, width);
  }
  /** A string of `k` digits denotes less than 10^k. */
  lemma {:induction false} ValueBound(f: string)
    requires AllDigits(f)
    ensures Value(f) < Pow10(|f|)
  {
    if |f| > 0 {
      ValueBound(f[..|f| - 1]);
    }
  }

  /** Decimal notation is unambiguous at a fixed width: equal values mean equal digits. */
  lemma {:induction false} DigitsUnique(a: string, b: string)
    requires AllDigits(a) && AllDigits(b) && |a| == |b|
    requires Value(a) == Value(b)
    ensures a == b
  {
    if |a| > 0 {
      var a', b' := a[..|a| - 1], b[..|b| - 1];
      var x, y := Value(a'), Value(b');
      var d, e := DigitValue(a[|a| - 1]), DigitValue(b[|b| - 1]);
      assert 10 * x + d == 10 * y + e;
      DigitsUnique(a', b');
      assert a == a' + [a[|a| - 1]] && b == b' + [b[|b| - 1]];
    }
  }

  /** Every non-empty digit string is the zero-padded rendering of its own value at its own width. */
  lemma PaddedDigits(f: string)
    requires AllDigits(f) && 1 <= |f|
    ensures Padded(Value(f), |f|) == f
  {
    ValueBound(f);
    PaddedWidth(Value(f), |f|);
    DigitsUnique(Padded(Value(f), |f|), f);
  }
}
