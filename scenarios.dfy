/** Worked runs of the generator on concrete inputs. */
module Scenarios {
  import opened Decimal
  import opened RadixSort

  /** One element of one digit: one pass, four snapshots, nothing moves. */
  lemma SingleElement()
    ensures |Trace([3])| == 4 && Trace([3])[3].values == [3]
  {
    assert NumDigits(3) == 1;
    assert MaxDigits([3]) == 1;
    TerminalIsSortedInput([3], [3]);
  }

  /** The widest of 170, 45, 75, 90, 802, 24, 2, 66 has three digits. */
  lemma MaxDigitsOfSample()
    ensures MaxDigits([170, 45, 75, 90, 802, 24, 2, 66]) == 3
  {
    var arr := [170, 45, 75, 90, 802, 24, 2, 66];
    assert NumDigits(802) == 3 by {
      assert ToDecimal(802) == ToDecimal(80) + ['2'];
    }
    forall x | x in arr
      ensures NumDigits(x) <= 3
    {
      NumDigitsBound(x);
      if NumDigits(x) > 3 {
        Pow10Monotone(3, NumDigits(x) - 1);
      }
    }
  }

  lemma SampleRearranged()
    ensures multiset([170, 45, 75, 90, 802, 24, 2, 66]) == multiset([2, 24, 45, 66, 75, 90, 170, 802])
  {
    SampleElements();
    SortedElements();
    SameElements();
  }

  lemma SampleElements()
    ensures multiset([170, 45, 75, 90, 802, 24, 2, 66]) == multiset{170, 45, 75, 90, 802, 24, 2, 66}
  {
  }

  lemma SortedElements()
    ensures multiset([2, 24, 45, 66, 75, 90, 170, 802]) == multiset{2, 24, 45, 66, 75, 90, 170, 802}
  {
  }

  lemma SampleSorted()
    ensures IsSorted([2, 24, 45, 66, 75, 90, 170, 802])
  {
  }

  lemma SameElements()
    ensures multiset{170, 45, 75, 90, 802, 24, 2, 66} == multiset{2, 24, 45, 66, 75, 90, 170, 802}
  {
  }

  /** Three passes, ten snapshots, and the last one holds the sample sorted. */
  lemma SampleRun()
    ensures var t := Trace([170, 45, 75, 90, 802, 24, 2, 66]);
      |t| == 10 && t[9].values == [2, 24, 45, 66, 75, 90, 170, 802]
  {
    var arr := [170, 45, 75, 90, 802, 24, 2, 66];
    MaxDigitsOfSample();
    SampleSorted();
    SampleRearranged();
    TerminalIsSortedInput(arr, [2, 24, 45, 66, 75, 90, 170, 802]);
  }
}
