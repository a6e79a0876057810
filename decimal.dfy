/** Decimal notation of non-negative integers: the digit extraction used to pick a
    bucket, `toString` and its length, zero padding, and reading a digit string
    back as a number. JavaScript numbers are modelled as exact naturals. */
module Decimal {

  /** 10^k, computed exactly (the program calls `Math.pow(10, d)`). */
  function Pow10(k: nat): (r: nat)
    ensures r >= 1
  {
    if k == 0 then 1 else 10 * Pow10(k - 1)
  }

  /** The digit of `x` in position `d` (0 = ones); `DigitAtFormula` shows it is
      the program's `Math.floor(x / 10^d) % 10`. */
  function DigitAt(x: nat, d: nat): (r: nat)
    ensures r < 10
  {
    if d == 0 then x % 10 else DigitAt(x / 10, d - 1)
  }

  predicate IsDigit(c: char) {
    '0' <= c <= '9'
  }

  predicate IsDigits(s: string) {
    forall i :: 0 <= i < |s| ==> IsDigit(s[i])
  }

  function DigitChar(n: nat): (c: char)
    requires n < 10
    ensures IsDigit(c) && DigitValue(c) == n
  {
    (n + '0' as int) as char
  }

  function DigitValue(c: char): (n: nat)
    requires IsDigit(c)
    ensures n < 10
  {
    c as int - '0' as int
  }

  /** The value of a string of decimal digits; leading zeros are allowed
      (what `Number(value)` gives for such a string). */
  function ParseDecimal(s: string): nat
    requires IsDigits(s)
  {
    if s == [] then 0 else 10 * ParseDecimal(s[..|s| - 1]) + DigitValue(s[|s| - 1])
  }

  /** `x.toString()`: the shortest decimal notation of `x`. */
  function ToDecimal(x: nat): (r: string)
    ensures |r| >= 1 && IsDigits(r)
    ensures r[0] == '0' ==> x == 0
    ensures ParseDecimal(r) == x
  {
    if x < 10 then [DigitChar(x)]
    else
      var r := ToDecimal(x / 10) + [DigitChar(x % 10)];
      assert r[..|r| - 1] == ToDecimal(x / 10);
      r
  }

  /** `x.toString().length`: the number of decimal digits of `x` (0 has one). */
  function NumDigits(x: nat): nat {
    |ToDecimal(x)|
  }

  /** `num.toString().padStart(width, "0")`. */
  function PadNumber(x: nat, width: nat): string {
    var s := ToDecimal(x);
    if width <= |s| then s else seq(width - |s|, _ => '0') + s
  }

  // ----- arithmetic facts -----

  /** Quotient and remainder are determined by the division equation. */
  lemma DivModUnique(x: int, m: int, q: int, r: int)
    requires m > 0 && 0 <= r < m && x == q * m + r
    ensures x / m == q && x % m == r
  {
    var q', r' := x / m, x % m;
    var k := q - q';
    assert k * m == q * m - q' * m;
    assert k * m == r' - r;
    if k > 0 {
      MulAtLeast(k, m);
    } else if k < 0 {
      MulAtLeast(-k, m);
    }
  }

  lemma MulAtLeast(k: int, m: int)
    requires k >= 1 && m >= 0
    ensures k * m >= m
  {
    assert k * m == (k - 1) * m + m;
    assert (k - 1) * m >= 0;
  }

  lemma Pow10Monotone(j: nat, k: nat)
    requires j <= k
    ensures Pow10(j) <= Pow10(k)
  {
    if j < k { Pow10Monotone(j, k - 1); }
  }

  /** Dividing by 10 and then by p is dividing by 10p. */
  lemma DivDiv(x: nat, p: nat)
    requires p > 0
    ensures (x / 10) / p == x / (10 * p)
  {
    var q, r := x / 10, x % 10;
    var a, b := q / p, q % p;
    assert q == a * p + b;
    assert x == a * (10 * p) + (10 * b + r) by {
      assert x == 10 * q + r;
      assert 10 * (a * p) == a * (10 * p);
    }
    DivModUnique(x, 10 * p, a, 10 * b + r);
  }

  /** The digit the program computes, `Math.floor(x / 10^d) % 10`, is `DigitAt(x, d)`. */
  lemma {:induction false} DigitAtFormula(x: nat, d: nat)
    ensures (x / Pow10(d)) % 10 == DigitAt(x, d)
  {
    if d > 0 {
      DigitAtFormula(x / 10, d - 1);
      DivDiv(x, Pow10(d - 1));
    }
  }

  /** x has n = NumDigits(x) digits: 10^(n-1) <= x < 10^n (only the bound above when n is 1). */
  lemma {:induction false} NumDigitsBound(x: nat)
    ensures NumDigits(x) >= 1
    ensures x < Pow10(NumDigits(x))
    ensures NumDigits(x) == 1 || Pow10(NumDigits(x) - 1) <= x
  {
    if x >= 10 {
      NumDigitsBound(x / 10);
      assert NumDigits(x) == NumDigits(x / 10) + 1;
    }
  }

  /** The character of `x.toString()` at position p from the right is digit p of x. */
  lemma {:induction false} ToDecimalDigit(x: nat, p: nat)
    requires p < NumDigits(x)
    ensures ToDecimal(x)[NumDigits(x) - 1 - p] == DigitChar(DigitAt(x, p))
  {
    if p > 0 {
      assert x >= 10;
      assert ToDecimal(x) == ToDecimal(x / 10) + [DigitChar(x % 10)];
      ToDecimalDigit(x / 10, p - 1);
    }
  }

  /** Positions beyond the last digit of x read as 0. */
  lemma {:induction false} DigitBeyond(x: nat, p: nat)
    requires NumDigits(x) <= p
    ensures DigitAt(x, p) == 0
  {
    NumDigitsBound(x);
    if x >= 10 {
      assert NumDigits(x) == NumDigits(x / 10) + 1;
      DigitBeyond(x / 10, p - 1);
    } else if p > 1 {
      assert NumDigits(0) == 1;
      DigitBeyond(0, p - 1);
    }
  }

  lemma {:induction false} ParseLeadingZeros(n: nat, s: string)
    requires IsDigits(s)
    ensures IsDigits(seq(n, _ => '0') + s)
    ensures ParseDecimal(seq(n, _ => '0') + s) == ParseDecimal(s)
  {
    var z := seq(n, _ => '0');
    if s == [] {
      assert z + s == z;
      ParseZeros(n);
    } else {
      var t := z + s;
      assert t[..|t| - 1] == z + s[..|s| - 1];
      ParseLeadingZeros(n, s[..|s| - 1]);
    }
  }

  lemma {:induction false} ParseZeros(n: nat)
    ensures IsDigits(seq(n, _ => '0'))
    ensures ParseDecimal(seq(n, _ => '0')) == 0
  {
    if n > 0 {
      assert seq(n, _ => '0')[..n - 1] == seq(n - 1, _ => '0');
      ParseZeros(n - 1);
    }
  }

  /** `padNumber(x, width)`: at least `width` characters, zeros in front of the
      notation of x, and still reads as x. */
  lemma PadNumberShape(x: nat, width: nat)
    ensures var r := PadNumber(x, width);
      && |r| == (if width <= NumDigits(x) then NumDigits(x) else width)
      && r[|r| - NumDigits(x)..] == ToDecimal(x)
      && (forall i :: 0 <= i < |r| - NumDigits(x) ==> r[i] == '0')
      && IsDigits(r) && ParseDecimal(r) == x
  {
    var s, r := ToDecimal(x), PadNumber(x, width);
    var n := |r| - |s|;
    if width <= |s| {
      assert seq(n, _ => '0') + s == s;
    }
    assert r == seq(n, _ => '0') + s;
    ParseLeadingZeros(n, s);
    assert r[n..] == s;
  }

  /** The character p places from the right of `padNumber(x, width)` is digit p
      of x: the digit the arrow marks is the digit the pass over position p
      buckets by. */
  lemma PadNumberDigit(x: nat, width: nat, p: nat)
    requires p < |PadNumber(x, width)|
    ensures var r := PadNumber(x, width); r[|r| - 1 - p] == DigitChar(DigitAt(x, p))
  {
    var r, n := PadNumber(x, width), NumDigits(x);
    PadNumberShape(x, width);
    if p < n {
      ToDecimalDigit(x, p);
      SuffixIndex(r, n, p);
    } else {
      DigitBeyond(x, p);
      assert r[|r| - 1 - p] == '0';
    }
  }

  lemma SuffixIndex(r: string, n: nat, p: nat)
    requires p < n <= |r|
    ensures r[|r| - 1 - p] == r[|r| - n..][n - 1 - p]
  {
  }
}
