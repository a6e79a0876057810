/** The step generator: an instrumented base-10 least-significant-digit radix
    sort that records a snapshot of every phase of every digit pass. */
module RadixSort {
  import opened Wrappers
  import opened Decimal

  /** The phase a snapshot shows; `Sorted` marks the terminal snapshot, which
      carries no phase of its own. */
  datatype Substep = Create | Distribute | Collect | Sorted

  /** One snapshot. `digitIndex` is the digit position of the pass, or -1 on the
      terminal snapshot; `values` is the working array; `buckets` is absent
      while the buckets are being created and on the terminal snapshot. */
  datatype Step = Step(digitIndex: int, values: seq<nat>, buckets: Option<seq<seq<nat>>>,
                       substep: Substep, maxDigits: nat)

  // ----- specification -----

  /** The largest number of decimal digits of any element (0 counts as one digit). */
  function MaxDigits(a: seq<nat>): (r: nat)
    requires |a| > 0
    ensures forall x :: x in a ==> NumDigits(x) <= r
    ensures exists x :: x in a && NumDigits(x) == r
  {
    if |a| == 1 then NumDigits(a[0])
    else
      var m := MaxDigits(a[1..]);
      assert forall x :: x in a[1..] ==> x in a;
      assert forall x :: x in a ==> x == a[0] || x in a[1..];
      if NumDigits(a[0]) >= m then NumDigits(a[0]) else m
  }

  /** The elements of s whose digit d is i, in their order in s: the contents
      of bucket i after every element of s has been pushed in turn. */
  function Bucket(s: seq<nat>, d: nat, i: nat): (r: seq<nat>)
    ensures forall x :: x in r ==> x in s && DigitAt(x, d) == i
  {
    if s == [] then []
    else
      var x := s[|s| - 1];
      var r := Bucket(s[..|s| - 1], d, i) + (if DigitAt(x, d) == i then [x] else []);
      assert forall y :: y in s[..|s| - 1] ==> y in s;
      r
  }

  /** The ten buckets of a pass over digit position d. */
  function Buckets(s: seq<nat>, d: nat): (bs: seq<seq<nat>>)
    ensures |bs| == 10
  {
    seq(10, i requires 0 <= i < 10 => Bucket(s, d, i))
  }

  /** `[].concat(...bs)`: the buckets read back in index order. */
  function Flatten(bs: seq<seq<nat>>): seq<nat> {
    if bs == [] then [] else bs[0] + Flatten(bs[1..])
  }

  /** The working array after the passes over digit positions 0 .. k-1. */
  function Passes(s: seq<nat>, k: nat): seq<nat> {
    if k == 0 then s else Flatten(Buckets(Passes(s, k - 1), k - 1))
  }

  /** The three snapshots of the pass over digit position d. */
  function PassSteps(input: seq<nat>, d: nat, m: nat): seq<Step> {
    var current := Passes(input, d);
    var bs := Buckets(current, d);
    [ Step(d, current, None, Create, m),
      Step(d, current, Some(bs), Distribute, m),
      Step(d, Flatten(bs), Some(bs), Collect, m) ]
  }

  /** The snapshots of the passes over positions 0 .. k-1, in order. */
  function PassTrace(input: seq<nat>, k: nat, m: nat): (t: seq<Step>)
    ensures |t| == 3 * k
  {
    if k == 0 then [] else PassTrace(input, k - 1, m) + PassSteps(input, k - 1, m)
  }

  /** What `radixSortSteps(arr)` returns: every pass's snapshots, then the
      terminal one. */
  function Trace(arr: seq<nat>): seq<Step>
    requires |arr| > 0
  {
    var m := MaxDigits(arr);
    PassTrace(arr, m, m) + [Step(-1, Passes(arr, m), None, Sorted, m)]
  }

  predicate IsSorted(s: seq<nat>) {
    forall i, j :: 0 <= i < j < |s| ==> s[i] <= s[j]
  }

  // ----- the generator -----

  /** Lines 149-154 of the generator: ten empty buckets, then every element of
      `current`, in order, pushed onto the bucket of its digit d. */
  method FillBuckets(current: seq<nat>, d: nat) returns (snapshot: seq<seq<nat>>)
    ensures snapshot == Buckets(current, d)
  {
    var buckets := new seq<nat>[10](_ => []);
    for j := 0 to |current|
      invariant forall i :: 0 <= i < 10 ==> buckets[i] == Bucket(current[..j], d, i)
    {
      var num := current[j];
      var digit := (num / Pow10(d)) % 10;
      DigitAtFormula(num, d);
      assert current[..j + 1][..j] == current[..j];
      buckets[digit] := buckets[digit] + [num];
    }
    assert current[..|current|] == current;
    snapshot := buckets[..];
  }

  /** `radixSortSteps(arr)`: the snapshots of sorting `arr`. */
  method RadixSortSteps(arr: seq<nat>) returns (steps: seq<Step>)
    requires |arr| > 0
    ensures steps == Trace(arr)
  {
    steps := [];
    var maxDigits := MaxDigits(arr);
    var current := arr;

    for d := 0 to maxDigits
      invariant current == Passes(arr, d)
      invariant steps == PassTrace(arr, d, maxDigits)
    {
      steps := steps + [Step(d, current, None, Create, maxDigits)];
      var buckets := FillBuckets(current, d);
      steps := steps + [Step(d, current, Some(buckets), Distribute, maxDigits)];
      current := Flatten(buckets);
      steps := steps + [Step(d, current, Some(buckets), Collect, maxDigits)];
    }

    steps := steps + [Step(-1, current, None, Sorted, maxDigits)];
  }

  /** The snapshots are the passes over positions 0 .. MaxDigits(arr)-1, three
      per pass at indices 3d, 3d+1 and 3d+2, followed by one terminal snapshot
      (digit index -1, no buckets) holding the array after the last pass. */
  lemma TraceShape(arr: seq<nat>)
    requires |arr| > 0
    ensures |Trace(arr)| == 3 * MaxDigits(arr) + 1
    ensures forall d {:trigger PassSteps(arr, d, MaxDigits(arr))} :: 0 <= d < MaxDigits(arr) ==>
      Trace(arr)[3 * d..3 * d + 3] == PassSteps(arr, d, MaxDigits(arr))
    ensures Trace(arr)[|Trace(arr)| - 1] ==
      Step(-1, Passes(arr, MaxDigits(arr)), None, Sorted, MaxDigits(arr))
    ensures forall i :: 0 <= i < |Trace(arr)| ==> Trace(arr)[i].maxDigits == MaxDigits(arr)
  {
    var m := MaxDigits(arr);
    var t := PassTrace(arr, m, m);
    var last := Step(-1, Passes(arr, m), None, Sorted, m);
    PassTraceSlices(arr, m, m);
    forall d | 0 <= d < m
      ensures (t + [last])[3 * d..3 * d + 3] == PassSteps(arr, d, m)
    {
      assert (t + [last])[3 * d..3 * d + 3] == t[3 * d..3 * d + 3];
    }
    PassTraceMaxDigits(arr, m, m);
  }

  /** The three snapshots of pass d: "create" and "distribute" show the array
      the pass starts from, "distribute" adds the ten buckets of its digit d,
      and "collect" shows the buckets read back in order 0..9, which is the
      array the next pass starts from and a rearrangement of this one. */
  lemma PassSnapshots(arr: seq<nat>, d: nat)
    requires |arr| > 0 && d < MaxDigits(arr)
    ensures var t, current := Trace(arr), Passes(arr, d);
      && t[3 * d] == Step(d, current, None, Create, MaxDigits(arr))
      && t[3 * d + 1] == Step(d, current, Some(Buckets(current, d)), Distribute, MaxDigits(arr))
      && t[3 * d + 2].values == Flatten(Buckets(current, d)) == Passes(arr, d + 1)
      && t[3 * d + 2].buckets == Some(Buckets(current, d))
      && multiset(t[3 * d + 2].values) == multiset(current)
  {
    var t := Trace(arr);
    TraceSlice(arr, d);
    assert t[3 * d] == t[3 * d..3 * d + 3][0];
    assert t[3 * d + 1] == t[3 * d..3 * d + 3][1];
    assert t[3 * d + 2] == t[3 * d..3 * d + 3][2];
    CollectPermutation(Passes(arr, d), d);
  }

  lemma TraceSlice(arr: seq<nat>, d: nat)
    requires |arr| > 0 && d < MaxDigits(arr)
    ensures Trace(arr)[3 * d..3 * d + 3] == PassSteps(arr, d, MaxDigits(arr))
  {
    var m := MaxDigits(arr);
    var t := PassTrace(arr, m, m);
    SliceOfPrefix(t, [Step(-1, Passes(arr, m), None, Sorted, m)], 3 * d, 3 * d + 3);
    assert t[3 * d..3 * d + 3] == PassSteps(arr, d, m) by {
      PassTraceSlices(arr, m, m);
    }
  }

  /** The last snapshot: digit index -1, no buckets, and its array is the
      input sorted. */
  lemma TerminalSnapshot(arr: seq<nat>)
    requires |arr| > 0
    ensures var last := Trace(arr)[|Trace(arr)| - 1];
      && last.digitIndex == -1 && last.buckets == None && last.substep == Sorted
      && IsSorted(last.values) && multiset(last.values) == multiset(arr)
  {
    TraceShape(arr);
    RadixSortCorrect(arr);
  }

  /** Every pass snapshot carries the same digit count m. */
  lemma {:induction false} PassTraceMaxDigits(input: seq<nat>, k: nat, m: nat)
    ensures forall i :: 0 <= i < |PassTrace(input, k, m)| ==> PassTrace(input, k, m)[i].maxDigits == m
  {
    if k > 0 {
      PassTraceMaxDigits(input, k - 1, m);
    }
  }

  /** Pass d's three snapshots sit at indices 3d, 3d+1 and 3d+2. */
  lemma {:induction false} PassTraceSlices(input: seq<nat>, k: nat, m: nat)
    ensures forall d {:trigger PassSteps(input, d, m)} :: 0 <= d < k ==>
      PassTrace(input, k, m)[3 * d..3 * d + 3] == PassSteps(input, d, m)
  {
    if k > 0 {
      PassTraceSlices(input, k - 1, m);
      var t, u := PassTrace(input, k - 1, m), PassSteps(input, k - 1, m);
      assert PassTrace(input, k, m) == t + u;
      forall d | 0 <= d < k
        ensures (t + u)[3 * d..3 * d + 3] == PassSteps(input, d, m)
      {
        if d < k - 1 {
          SliceOfPrefix(t, u, 3 * d, 3 * d + 3);
        } else {
          SliceOfSuffix(t, u);
        }
      }
    }
  }

  lemma SliceOfPrefix<T>(t: seq<T>, u: seq<T>, i: nat, j: nat)
    requires i <= j <= |t|
    ensures (t + u)[i..j] == t[i..j]
  {
  }

  lemma SliceOfSuffix<T>(t: seq<T>, u: seq<T>)
    ensures (t + u)[|t|..|t| + |u|] == u
  {
  }

  // ----- distribution: each pass is a stable partition by digit -----

  /** Stability: a bucket of a concatenation holds the first part's elements
      before the second part's, each in their original order. */
  lemma {:induction false} BucketAppend(a: seq<nat>, b: seq<nat>, d: nat, i: nat)
    ensures Bucket(a + b, d, i) == Bucket(a, d, i) + Bucket(b, d, i)
  {
    if b != [] {
      var b' := b[..|b| - 1];
      assert (a + b)[..|a + b| - 1] == a + b';
      BucketAppend(a, b', d, i);
    } else {
      assert a + b == a;
    }
  }

  /** Bucket i holds every element whose digit d is i, as often as it occurs in
      s, and nothing else. */
  lemma {:induction false} BucketMultiset(s: seq<nat>, d: nat, i: nat)
    ensures forall x :: multiset(Bucket(s, d, i))[x] ==
                        (if DigitAt(x, d) == i then multiset(s)[x] else 0)
  {
    if s != [] {
      var s' := s[..|s| - 1];
      assert s == s' + [s[|s| - 1]];
      BucketMultiset(s', d, i);
    }
  }

  lemma {:induction false} FlattenEmpty(bs: seq<seq<nat>>)
    requires forall i :: 0 <= i < |bs| ==> bs[i] == []
    ensures Flatten(bs) == []
  {
    if bs != [] {
      FlattenEmpty(bs[1..]);
    }
  }

  lemma {:induction false} FlattenPush(bs: seq<seq<nat>>, g: nat, x: nat)
    requires g < |bs|
    ensures multiset(Flatten(bs[g := bs[g] + [x]])) == multiset(Flatten(bs)) + multiset{x}
  {
    var bs' := bs[g := bs[g] + [x]];
    assert Flatten(bs) == bs[0] + Flatten(bs[1..]);
    assert Flatten(bs') == bs'[0] + Flatten(bs'[1..]);
    if g == 0 {
      assert bs'[1..] == bs[1..];
      assert multiset(bs'[0]) == multiset(bs[0]) + multiset{x};
    } else {
      assert bs'[1..] == bs[1..][g - 1 := bs[g] + [x]];
      FlattenPush(bs[1..], g - 1, x);
    }
  }

  /** Collecting the buckets gives back exactly the elements distributed: the
      collected array is a permutation of the array entering the pass. */
  lemma {:induction false} CollectPermutation(s: seq<nat>, d: nat)
    ensures multiset(Flatten(Buckets(s, d))) == multiset(s)
  {
    if s == [] {
      FlattenEmpty(Buckets(s, d));
    } else {
      var s', x := s[..|s| - 1], s[|s| - 1];
      BucketsPush(s, d);
      CollectPermutation(s', d);
      FlattenPush(Buckets(s', d), DigitAt(x, d), x);
      assert s == s' + [x];
    }
  }

  /** Distributing one more element appends it to the bucket of its digit. */
  lemma BucketsPush(s: seq<nat>, d: nat)
    requires s != []
    ensures var s', x := s[..|s| - 1], s[|s| - 1];
      Buckets(s, d) == Buckets(s', d)[DigitAt(x, d) := Buckets(s', d)[DigitAt(x, d)] + [x]]
  {
    var s', x := s[..|s| - 1], s[|s| - 1];
    var g := DigitAt(x, d);
    forall i | 0 <= i < 10
      ensures Buckets(s, d)[i] == Buckets(s', d)[g := Buckets(s', d)[g] + [x]][i]
    {
      assert Bucket(s, d, i) == Bucket(s', d, i) + (if g == i then [x] else []);
    }
  }

  lemma {:induction false} PassesPermutation(s: seq<nat>, k: nat)
    ensures multiset(Passes(s, k)) == multiset(s)
  {
    if k > 0 {
      PassesPermutation(s, k - 1);
      CollectPermutation(Passes(s, k - 1), k - 1);
    }
  }

  // ----- sorting: after k passes the array is ordered by its low k digits -----

  /** The number formed by the low k digits of x (x mod 10^k). */
  function Low(x: nat, k: nat): nat {
    if k == 0 then 0 else 10 * Low(x / 10, k - 1) + x % 10
  }

  predicate SortedLow(s: seq<nat>, k: nat) {
    forall i, j :: 0 <= i < j < |s| ==> Low(s[i], k) <= Low(s[j], k)
  }

  /** Comparing the low k+1 digits is comparing digit k first and the low k
      digits on a tie. */
  lemma {:induction false} LowLex(y: nat, z: nat, k: nat)
    ensures Low(y, k + 1) <= Low(z, k + 1) <==>
      DigitAt(y, k) < DigitAt(z, k) || (DigitAt(y, k) == DigitAt(z, k) && Low(y, k) <= Low(z, k))
    decreases k
  {
    if k > 0 {
      LowLex(y / 10, z / 10, k - 1);
      LowLex(z / 10, y / 10, k - 1);
    }
  }

  /** A number with fewer than k digits is its own low k digits. */
  lemma {:induction false} LowOfSmall(x: nat, k: nat)
    requires x < Pow10(k)
    ensures Low(x, k) == x
  {
    if k > 0 {
      LowOfSmall(x / 10, k - 1);
    }
  }

  lemma ConcatSorted(a: seq<nat>, b: seq<nat>, k: nat)
    requires SortedLow(a, k) && SortedLow(b, k)
    requires forall y, z :: y in a && z in b ==> Low(y, k) <= Low(z, k)
    ensures SortedLow(a + b, k)
  {
    var c := a + b;
    forall i, j | 0 <= i < j < |c| ensures Low(c[i], k) <= Low(c[j], k) {
      if i < |a| && j >= |a| {
        assert c[i] in a && c[j] in b;
      } else if i >= |a| {
        assert c[i] == b[i - |a|] && c[j] == b[j - |a|];
      }
    }
  }

  /** A bucket keeps the order of s, so it stays ordered by any key s was ordered by. */
  lemma {:induction false} BucketSorted(s: seq<nat>, k: nat, d: nat, i: nat)
    requires SortedLow(s, k)
    ensures SortedLow(Bucket(s, d, i), k)
  {
    if s != [] {
      var s', x := s[..|s| - 1], s[|s| - 1];
      BucketSorted(s', k, d, i);
      if DigitAt(x, d) == i {
        forall y | y in Bucket(s', d, i) ensures Low(y, k) <= Low(x, k) {
          var j :| 0 <= j < |s'| && s'[j] == y;
          assert s[j] == y;
        }
        ConcatSorted(Bucket(s', d, i), [x], k);
      }
    }
  }

  /** Buckets j..9 of a pass over position k, collected, are ordered by the low
      k+1 digits and hold only digits j or more at position k. */
  lemma {:induction false} CollectSuffixSorted(s: seq<nat>, k: nat, j: nat)
    requires SortedLow(s, k) && j <= 10
    ensures SortedLow(Flatten(Buckets(s, k)[j..]), k + 1)
    ensures forall z :: z in Flatten(Buckets(s, k)[j..]) ==> DigitAt(z, k) >= j
    decreases 10 - j
  {
    var bs := Buckets(s, k);
    if j < 10 {
      CollectSuffixSorted(s, k, j + 1);
      var head, rest := bs[j], Flatten(bs[j + 1..]);
      assert bs[j..][1..] == bs[j + 1..];
      assert Flatten(bs[j..]) == head + rest;
      BucketSorted(s, k, k, j);
      forall y, z | y in head && z in rest ensures Low(y, k + 1) <= Low(z, k + 1) {
        LowLex(y, z, k);
      }
      forall a, b | 0 <= a < b < |head| ensures Low(head[a], k + 1) <= Low(head[b], k + 1) {
        LowLex(head[a], head[b], k);
      }
      ConcatSorted(head, rest, k + 1);
    }
  }

  /** One pass over position k turns an array ordered by its low k digits into
      one ordered by its low k+1 digits. */
  lemma PassSorted(s: seq<nat>, k: nat)
    requires SortedLow(s, k)
    ensures SortedLow(Flatten(Buckets(s, k)), k + 1)
  {
    CollectSuffixSorted(s, k, 0);
    assert Buckets(s, k)[0..] == Buckets(s, k);
  }

  lemma {:induction false} PassesSorted(s: seq<nat>, k: nat)
    ensures SortedLow(Passes(s, k), k)
  {
    if k > 0 {
      PassesSorted(s, k - 1);
      PassSorted(Passes(s, k - 1), k - 1);
    }
  }

  /** LSD radix sort is correct: after one stable pass per digit position of the
      widest element, the array is the input sorted ascending. */
  lemma RadixSortCorrect(arr: seq<nat>)
    requires |arr| > 0
    ensures IsSorted(Passes(arr, MaxDigits(arr)))
    ensures multiset(Passes(arr, MaxDigits(arr))) == multiset(arr)
  {
    var m := MaxDigits(arr);
    var t := Passes(arr, m);
    PassesSorted(arr, m);
    PassesPermutation(arr, m);
    forall i | 0 <= i < |t| ensures Low(t[i], m) == t[i] {
      assert t[i] in multiset(t);
      FitsInDigits(arr, t[i]);
    }
  }

  /** Every element of a non-empty input, and so of every pass over it, is
      below 10^MaxDigits. */
  lemma FitsInDigits(arr: seq<nat>, y: nat)
    requires |arr| > 0 && y in multiset(arr)
    ensures Low(y, MaxDigits(arr)) == y
  {
    NumDigitsBound(y);
    Pow10Monotone(NumDigits(y), MaxDigits(arr));
    LowOfSmall(y, MaxDigits(arr));
  }

  /** There is only one sorted arrangement of a multiset, so the terminal array
      is determined by the input alone. */
  lemma {:induction false} SortedUnique(a: seq<nat>, b: seq<nat>)
    requires IsSorted(a) && IsSorted(b) && multiset(a) == multiset(b)
    ensures a == b
  {
    assert |a| == |multiset(a)| == |multiset(b)| == |b|;
    if a != [] {
      SortedHeads(a, b);
      SortedUnique(a[1..], b[1..]);
      assert a == [a[0]] + a[1..] && b == [b[0]] + b[1..];
    }
  }

  /** Two sorted arrangements of one multiset start with the same least element
      and go on with sorted arrangements of the same remainder. */
  lemma SortedHeads(a: seq<nat>, b: seq<nat>)
    requires IsSorted(a) && IsSorted(b) && multiset(a) == multiset(b)
    requires a != [] && b != []
    ensures a[0] == b[0]
    ensures IsSorted(a[1..]) && IsSorted(b[1..]) && multiset(a[1..]) == multiset(b[1..])
  {
    HeadIsLeast(a, b[0]);
    HeadIsLeast(b, a[0]);
    TailMultiset(a);
    TailMultiset(b);
    SortedTail(a);
    SortedTail(b);
  }

  lemma TailMultiset(a: seq<nat>)
    requires a != []
    ensures multiset(a[1..]) == multiset(a) - multiset{a[0]}
  {
    assert a == [a[0]] + a[1..];
  }

  lemma HeadIsLeast(a: seq<nat>, y: nat)
    requires IsSorted(a) && y in multiset(a)
    ensures a[0] <= y
  {
    var i :| 0 <= i < |a| && a[i] == y;
    assert i == 0 || a[0] <= a[i];
  }

  lemma SortedTail(a: seq<nat>)
    requires IsSorted(a) && a != []
    ensures IsSorted(a[1..])
  {
    forall i, j | 0 <= i < j < |a| - 1 ensures a[1..][i] <= a[1..][j] {
      assert a[i + 1] <= a[j + 1];
    }
  }

  /** The terminal array is the sorted arrangement of the input: any sorted
      rearrangement of the input is equal to it. */
  lemma TerminalIsSortedInput(arr: seq<nat>, sorted: seq<nat>)
    requires |arr| > 0 && IsSorted(sorted) && multiset(sorted) == multiset(arr)
    ensures Trace(arr)[|Trace(arr)| - 1].values == sorted
  {
    TraceShape(arr);
    RadixSortCorrect(arr);
    SortedUnique(Passes(arr, MaxDigits(arr)), sorted);
  }
}
