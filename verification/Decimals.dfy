/** Decimal digits: what number they name, how they compare, and how Rust prints them. */
module Decimals {
  import opened Orders
  import opened Text

  function Power10(n: nat): (p: nat)
    ensures 0 < p
  {
    if n == 0 then 1 else 10 * Power10(n - 1)
  }

  lemma {:induction false} Power10Monotone(m: nat, n: nat)
    requires m <= n
    ensures Power10(m) <= Power10(n)
  {
    if m < n {
      Power10Monotone(m, n - 1);
    }
  }

  /** The number a run of decimal digits names; no digits name zero. */
  function Value(digits: string): nat
    requires AllDigits(digits)
  {
    if digits == "" then 0
    else 10 * Value(digits[..|digits| - 1]) + DigitValue(digits[|digits| - 1])
  }

  lemma {:induction false} ValueBound(s: string)
    requires AllDigits(s)
    ensures Value(s) < Power10(|s|)
    ensures s != "" && s[0] != '0' ==> Power10(|s| - 1) <= Value(s)
  {
    if s != "" {
      ValueBound(s[..|s| - 1]);
    }
  }

  lemma TimesTen(d: nat, p: nat)
    ensures d * (10 * p) == 10 * (d * p)
  {
  }

  /** Reading the first digit off the front instead of the last one off the back. */
  lemma {:induction false} ValueFront(s: string)
    requires AllDigits(s) && s != ""
    ensures Value(s) == DigitValue(s[0]) * Power10(|s| - 1) + Value(s[1..])
  {
    if |s| > 1 {
      var init, tail := s[..|s| - 1], s[1..];
      ValueFront(init);
      assert tail[..|tail| - 1] == init[1..] && tail[|tail| - 1] == s[|s| - 1] && init[0] == s[0];
      assert Power10(|s| - 1) == 10 * Power10(|s| - 2);
      TimesTen(DigitValue(s[0]), Power10(|s| - 2));
    }
  }

  /** Digit strings of one length compare as text the way their numbers compare. */
  lemma {:induction false} SameLengthNumeric(a: string, b: string)
    requires AllDigits(a) && AllDigits(b) && |a| == |b|
    ensures CompareStrings(a, b) == CompareInt(Value(a), Value(b))
  {
    if a != "" {
      ValueFront(a);
      ValueFront(b);
      ValueBound(a[1..]);
      ValueBound(b[1..]);
      SameLengthNumeric(a[1..], b[1..]);
      var p := Power10(|a| - 1);
      if DigitValue(a[0]) < DigitValue(b[0]) {
        MulStep(DigitValue(a[0]), DigitValue(b[0]), p);
      } else if DigitValue(b[0]) < DigitValue(a[0]) {
        MulStep(DigitValue(b[0]), DigitValue(a[0]), p);
      }
    }
  }

  lemma MulStep(x: nat, y: nat, p: nat)
    requires x < y
    ensures x * p + p <= y * p
  {
    assert (x + 1) * p <= y * p;
  }

  /** Rust's `{n:0width}`: as many digits as the number needs, zero-padded to `width`. */
  function Padded(n: nat, width: nat): (s: string)
    ensures AllDigits(s) && Value(s) == n
    ensures width <= |s|
    ensures n < Power10(width) ==> |s| == width
  {
    if width == 0 && n == 0 then ""
    else
      var front := Padded(n / 10, if width == 0 then 0 else width - 1);
      var last := [('0' as int + n % 10) as char];
      assert (front + last)[..|front|] == front;
      front + last
  }

  lemma PaddedCompare(m: nat, n: nat, width: nat)
    requires m < Power10(width) && n < Power10(width)
    ensures CompareStrings(Padded(m, width), Padded(n, width)) == CompareInt(m, n)
  {
    SameLengthNumeric(Padded(m, width), Padded(n, width));
  }
}
