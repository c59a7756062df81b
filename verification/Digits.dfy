/** Decimal numerals, plain and zero-padded. */
module Digits {
  import opened Wrappers

  function DigitChar(d: nat): char
    requires d < 10
  {
    '0' + d as char
  }

  predicate IsDigit(c: char) {
    '0' <= c <= '9'
  }

  function DigitValue(c: char): (d: nat)
    requires IsDigit(c)
    ensures d < 10
  {
    (c - '0') as nat
  }

  predicate AllDigits(s: string) {
    forall i :: 0 <= i < |s| ==> IsDigit(s[i])
  }

  function Decimal(n: nat): string {
    if n < 10 then [DigitChar(n)] else Decimal(n / 10) + [DigitChar(n % 10)]
  }

  /** The value of a numeral; leading zeros do not matter. */
  function Value(s: string): nat
    requires AllDigits(s)
  {
    if s == "" then 0 else Value(s[..|s| - 1]) * 10 + DigitValue(s[|s| - 1])
  }

  /** The value of a numeral in the decimal system. */
  lemma ValueMeans(s: string, d: nat)
    requires AllDigits(s) && d < 10
    ensures Value("") == 0
    ensures AllDigits(s + ["0123456789"[d]]) && Value(s + ["0123456789"[d]]) == 10 * Value(s) + d
  {
    assert "0123456789"[d] == '0' + d as char;
    var t := s + ["0123456789"[d]];
    assert t[..|t| - 1] == s;
  }

  function ParseNat(s: string): Option<nat> {
    if s != "" && AllDigits(s) then Some(Value(s)) else None
  }

  function Zeros(n: nat): string {
    seq(n, _ => '0')
  }

  /** At least `width` digits, with zeros in front where needed. */
  function Padded(n: nat, width: nat): string {
    var s := Decimal(n);
    if |s| < width then Zeros(width - |s|) + s else s
  }

  lemma {:induction false} DecimalIsNumeral(n: nat)
    ensures AllDigits(Decimal(n)) && Decimal(n) != ""
    ensures Value(Decimal(n)) == n
  {
    if n >= 10 {
      DecimalIsNumeral(n / 10);
      var s := Decimal(n);
      assert s[..|s| - 1] == Decimal(n / 10);
      assert DigitValue(DigitChar(n % 10)) == n % 10;
    } else {
      var s := Decimal(n);
      assert s[..0] == "";
    }
  }

  lemma {:induction false} LeadingZeros(k: nat, s: string)
    requires AllDigits(s)
    ensures AllDigits(Zeros(k) + s) && Value(Zeros(k) + s) == Value(s)
  {
    if s == "" {
      assert Zeros(k) + s == Zeros(k);
      ZerosAreZero(k);
    } else {
      LeadingZeros(k, s[..|s| - 1]);
      assert (Zeros(k) + s)[..|Zeros(k) + s| - 1] == Zeros(k) + s[..|s| - 1];
    }
  }

  lemma {:induction false} ZerosAreZero(k: nat)
    ensures AllDigits(Zeros(k)) && Value(Zeros(k)) == 0
  {
    if k > 0 {
      ZerosAreZero(k - 1);
      assert Zeros(k)[..k - 1] == Zeros(k - 1);
    }
  }

  /** Printing and parsing are inverse. */
  lemma ParseOfPadded(n: nat, width: nat)
    ensures ParseNat(Padded(n, width)) == Some(n) && AllDigits(Padded(n, width))
  {
    DecimalIsNumeral(n);
    var s := Decimal(n);
    if |s| < width {
      LeadingZeros(width - |s|, s);
    }
  }

  lemma ParseOfDecimal(n: nat)
    ensures ParseNat(Decimal(n)) == Some(n)
  {
    DecimalIsNumeral(n);
  }

  function Pow10(w: nat): (p: nat)
    ensures p >= 1
  {
    if w == 0 then 1 else 10 * Pow10(w - 1)
  }

  lemma {:induction false} DecimalLength(n: nat, w: nat)
    requires w >= 1
    ensures |Decimal(n)| <= w <==> n < Pow10(w)
  {
    if n >= 10 && w > 1 {
      DecimalLength(n / 10, w - 1);
    } else if w > 1 {
      assert Pow10(w) == 10 * Pow10(w - 1);
    }
  }

  /** A padded numeral has exactly the width asked for as long as the number fits. */
  lemma PaddedLength(n: nat, w: nat)
    requires w >= 1
    ensures |Padded(n, w)| == w <==> n < Pow10(w)
  {
    DecimalLength(n, w);
    if n >= Pow10(w) {
      DecimalIsNumeral(n);
    }
  }

  lemma {:induction false} ValueBound(s: string)
    requires AllDigits(s)
    ensures Value(s) < Pow10(|s|)
  {
    if s != "" {
      ValueBound(s[..|s| - 1]);
    }
  }
}
