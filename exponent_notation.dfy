/** What `maxDigits` becomes when an element reaches 10^21. A JavaScript number
    of that size prints in exponent notation (`(1e21).toString()` is
    `"1e+21"`), so `toString().length` no longer counts its digits, and the
    generator runs too few passes to sort it. The rest of the model uses the
    full decimal length (`RadixSort.MaxDigits`), for which `RadixSortCorrect`
    holds. */
module ExponentNotation {
  import opened Wrappers
  import opened Decimal
  import opened RadixSort
  import opened InputValidation

  /** The number of digits of x once trailing zeros are dropped. */
  function SignificantDigits(x: nat): (n: nat)
    ensures 1 <= n <= NumDigits(x)
  {
    if x >= 10 && x % 10 == 0 then
      NumDigitsBound(x);
      NumDigitsBound(x / 10);
      NumDigitsStep(x);
      SignificantDigits(x / 10)
    else
      NumDigitsBound(x);
      NumDigits(x)
  }

  /** Dropping the last digit of a number of two or more digits drops one digit. */
  lemma NumDigitsStep(x: nat)
    requires x >= 10
    ensures NumDigits(x) == NumDigits(x / 10) + 1
  {
    assert ToDecimal(x) == ToDecimal(x / 10) + [DigitChar(x % 10)];
  }

  /** `x.toString().length` for a double holding the integer x: its digits below
      10^21; from 10^21 on, the exponent form -- the significant digits, a
      point after the first of them when there are several, "e+" and the
      exponent. Taking the significant digits of x as the printed ones is exact
      when they are the shortest digits that read back as the same double, as
      for every power of ten. */
  function JsLength(x: nat): (n: nat)
    ensures x < Pow10(21) ==> n == NumDigits(x)
    ensures x >= Pow10(21) ==> n >= 4 && n <= NumDigits(x) + 1 + 2 + NumDigits(NumDigits(x) - 1)
  {
    if x < Pow10(21) then NumDigits(x)
    else
      var m := SignificantDigits(x);
      m + (if m > 1 then 1 else 0) + 2 + NumDigits(NumDigits(x) - 1)
  }

  /** `Math.max(...arr.map(n => n.toString().length))` on doubles. */
  function JsMaxDigits(a: seq<nat>): (r: nat)
    requires |a| > 0
    ensures forall x :: x in a ==> JsLength(x) <= r
    ensures exists x :: x in a && JsLength(x) == r
  {
    if |a| == 1 then JsLength(a[0])
    else
      var m := JsMaxDigits(a[1..]);
      assert forall x :: x in a[1..] ==> x in a;
      assert forall x :: x in a ==> x == a[0] || x in a[1..];
      if JsLength(a[0]) >= m then JsLength(a[0]) else m
  }

  lemma {:induction false} NumDigitsOfPow10(n: nat)
    ensures NumDigits(Pow10(n)) == n + 1
  {
    var p, k := Pow10(n), NumDigits(Pow10(n));
    NumDigitsBound(p);
    if k <= n {
      Pow10Monotone(k, n);
    } else if k >= n + 2 {
      Pow10Monotone(n + 1, k - 1);
    }
  }

  lemma {:induction false} SignificantDigitsOfPow10(n: nat)
    ensures SignificantDigits(Pow10(n)) == 1
  {
    if n > 0 {
      SignificantDigitsOfPow10(n - 1);
      Pow10Monotone(1, n);
      assert Pow10(n) / 10 == Pow10(n - 1);
    }
  }

  /** The low k digits of 10^n are all zero when k <= n. */
  lemma {:induction false} LowOfPow10(n: nat, k: nat)
    requires k <= n
    ensures Low(Pow10(n), k) == 0
  {
    if k > 0 {
      assert Pow10(n) / 10 == Pow10(n - 1) && Pow10(n) % 10 == 0;
      LowOfPow10(n - 1, k - 1);
    }
  }

  /** `(1e21).toString()` is `"1e+21"`: five characters. */
  lemma LengthOfPow10Of21()
    ensures JsLength(Pow10(21)) == 5
  {
    SignificantDigitsOfPow10(21);
    NumDigitsOfPow10(21);
    assert NumDigits(21) == 2 by {
      assert ToDecimal(21) == ToDecimal(2) + ['1'];
    }
  }

  /** Once `1000000000000000000000,5` is accepted (`LargeValueAccepted`), the
      program sets `maxDigits` to 5, and after five passes the terminal array
      is still [10^21, 5]: not sorted. */
  lemma LargeValueLeftUnsorted(p: nat)
    requires p == Pow10(21)
    ensures JsMaxDigits([p, 5]) == 5
    ensures Passes([p, 5], JsMaxDigits([p, 5])) == [p, 5]
    ensures !IsSorted([p, 5])
  {
    ShortWidth(p);
    FewPasses(p, JsMaxDigits([p, 5]));
    assert p > 5 by {
      Pow10Monotone(1, 21);
    }
    assert [p, 5][0] > [p, 5][1];
  }

  /** The numbers text `p,5` with count `2` passes every check, whatever the
      size of p: in particular `1000000000000000000000,5`. */
  lemma LargeValueAccepted(p: nat)
    ensures Validate(Render([p, 5], 0), "2") == Success([p, 5])
  {
    ValidateRoundTrip([p, 5], 0);
    assert ToDecimal(2) == "2";
  }

  lemma ShortWidth(p: nat)
    requires p == Pow10(21)
    ensures JsMaxDigits([p, 5]) == 5
  {
    LengthOfPow10Of21();
    Pow10Monotone(1, 21);
    assert JsLength(5) == NumDigits(5) == 1;
  }

  /** With its full decimal length, 22, as the number of passes, the same
      input ends sorted as [5, 10^21]. */
  lemma FullPasses(p: nat)
    requires p == Pow10(21)
    ensures MaxDigits([p, 5]) == 22
    ensures Passes([p, 5], MaxDigits([p, 5])) == [5, p]
  {
    NumDigitsOfPow10(21);
    assert NumDigits(5) == 1;
    RadixSortCorrect([p, 5]);
    Pow10Monotone(1, 21);
    SwappedPair(5, p);
    SortedUnique(Passes([p, 5], MaxDigits([p, 5])), [5, p]);
  }

  /** [a, b] with a <= b is sorted and holds the elements of [b, a]. */
  lemma SwappedPair(a: nat, b: nat)
    requires a <= b
    ensures IsSorted([a, b]) && multiset([a, b]) == multiset([b, a])
  {
  }

  /** Five passes leave [10^21, 5] as it is: the passes see only the low five
      digits, 00000 and 00005. */
  lemma FewPasses(p: nat, k: nat)
    requires p == Pow10(21) && k == 5
    ensures Passes([p, 5], k) == [p, 5]
  {
    PassesSorted([p, 5], k);
    PassesPermutation([p, 5], k);
    LowOfPow10(21, k);
    LowOfSmall(5, k);
    TwoByLow(Passes([p, 5], k), p, 5, k);
  }

  /** A two-element arrangement ordered by the low k digits puts the element
      with the smaller low digits first. */
  lemma TwoByLow(t: seq<nat>, a: nat, b: nat, k: nat)
    requires multiset(t) == multiset([a, b]) && SortedLow(t, k)
    requires Low(a, k) < Low(b, k)
    ensures t == [a, b]
  {
    assert |t| == |multiset(t)| == 2;
    assert t == [t[0], t[1]];
    assert multiset(t) == multiset{t[0], t[1]};
    assert Low(t[0], k) <= Low(t[1], k);
  }
}
