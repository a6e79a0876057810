# Radix sort visualiser — verified model

The visualiser takes a comma-separated list of non-negative integers and a
declared count from two text fields. It checks them (`validateInput`) and
then precomputes every snapshot of a base-10, least-significant-digit radix
sort (`radixSortSteps`). For each digit position there is a "create buckets"
snapshot, a "distribute" snapshot holding the ten buckets, and a "collect"
snapshot holding the buckets read back in order 0..9. One terminal snapshot
follows, with digit index -1. The user moves through the snapshots with Next
and Back. Numbers are drawn zero-padded to the widest value's width
(`padNumber`).

Modules:

- `Wrappers` (wrappers.dfy): `Option` and `Result`.
- `Decimal` (decimal.dfy): `toString`, `toString().length`, `padStart` with
  `"0"`, and the digit extraction `floor(x / 10^d) % 10`, on unbounded
  naturals. `DigitAt` is a recursive definition of digit d. `DigitAtFormula`
  proves that it equals the source's division formula.
- `RadixSort` (radix_sort.dfy): the `Step` record and its specification
  functions:
  - `Bucket` / `Buckets`: distribution;
  - `Flatten`: collection;
  - `Passes`: the array after k passes;
  - `Trace`: the whole list of snapshots.

  It also holds the imperative generator `RadixSortSteps` and its helper
  `FillBuckets` (the `forEach` that pushes into an array of ten buckets), and
  the lemmas. The lemmas cover the shape of the snapshot list, stability, the
  permutation property, and the correctness of the sort: the terminal array
  is the sorted arrangement of the input.
- `InputValidation` (input_validation.dfy): `trim`, `split(",")`,
  `parseInt(…, 10)`, the specification function `Validate`, the imperative
  `ValidateInput` with its loop and early returns, and the lemmas on which
  inputs are refused and what is returned.
- `Navigation` (navigation.dfy): the page's `steps` / `currentStep` state as
  a class with the Start, Reset, Next and Back handlers.
- `ExponentNotation` (exponent_notation.dfy): `toString().length` on doubles
  from 10^21 up, where JavaScript prints exponent notation, and the input
  that leaves the generator's terminal array unsorted (see "## Findings").
- `Scenarios` (scenarios.dfy): two worked runs, `[3]` and
  `[170, 45, 75, 90, 802, 24, 2, 66]`.

Modelling choices:

- The record field `array` is called `values`, because `array` is a Dafny
  keyword.
- The terminal record has no `substep` in the source. Here it carries the
  variant `Sorted`.
- The `buckets` array is never changed after it is filled. The distribute and
  collect records can therefore share it as a value (`seq<seq<nat>>`).
- The terminal record has no buckets (`buckets: null`, js/main.js:180). The
  renderer draws the last collect record's buckets on it
  (js/main.js:310-337).
- The generator raises no error of its own. The empty input is covered under
  "## Left out".

## Model

| member | source | states |
|---|---|---|
| RadixSort.RadixSortSteps | js/main.js:134-185 | the returned snapshots are exactly `Trace(arr)`: for each digit position in order, its create, distribute and collect snapshots, then the terminal snapshot; loop invariants tie `current` to `Passes(arr, d)` and the pushed records to the passes done so far |
| RadixSort.FillBuckets | js/main.js:149-154 | the ten buckets after the `forEach` equal `Buckets(current, d)`: bucket i holds, in their order in `current`, exactly the elements whose digit d is i |
| RadixSort.MaxDigits | js/main.js:136 | `maxDigits` is the decimal length of some element, and no element is longer |
| RadixSort.Bucket | js/main.js:151-153 | every element of bucket i is in the array and has digit d equal to i |
| RadixSort.BucketMultiset | js/main.js:149-154 | bucket i holds each value exactly as often as the array does if its digit d is i, and not at all otherwise; so the buckets partition the array |
| RadixSort.BucketAppend | js/main.js:151-154 | stability: distributing a concatenation fills each bucket with the first part's elements, then the second part's, each in original order |
| RadixSort.CollectPermutation | js/main.js:165 | concatenating the ten buckets gives back the same multiset as the array that was distributed |
| RadixSort.PassesPermutation | js/main.js:139-175 | after any number of passes the array is a permutation of the input |
| RadixSort.PassesSorted | js/main.js:139-175 | after k passes the array is ordered by the value of each element's low k digits |
| RadixSort.RadixSortCorrect | js/main.js:139-182 | after `maxDigits` passes the array is sorted ascending and is a permutation of the input |
| RadixSort.TraceShape | js/main.js:139-182 | there are `3 * maxDigits + 1` snapshots; pass d's three snapshots are at indices 3d..3d+2; the last has digit index -1, no buckets and the array after all passes; every snapshot carries the same `maxDigits` |
| RadixSort.PassTraceSlices | js/main.js:139-175 | after k passes, pass d's three snapshots sit at indices 3d, 3d+1 and 3d+2 for every d < k |
| RadixSort.PassTraceMaxDigits | js/main.js:146 | every pass snapshot records the same `maxDigits` |
| RadixSort.PassSnapshots | js/main.js:141-174 | create has no buckets and the pass's starting array; distribute has that same array and the ten buckets of digit d; collect has the same buckets and their concatenation, which is the next pass's starting array and a permutation of this one |
| RadixSort.TerminalSnapshot | js/main.js:177-182 | the last snapshot has digit index -1 and no buckets, and its array is the input sorted ascending (a permutation of it) |
| RadixSort.TerminalIsSortedInput | js/main.js:177-182 | the terminal array equals every sorted rearrangement of the input, so it is determined by the input's multiset alone |
| RadixSort.SortedUnique | js/main.js:177-182 | two sorted sequences with the same multiset are equal |
| Decimal.DigitAtFormula | js/main.js:152 | `floor(x / 10^d) % 10` is digit d of x (counting from the ones digit) |
| Decimal.ToDecimal | js/main.js:136 | `toString` gives a non-empty digit string, without a leading zero unless x is 0, that reads back as x |
| Decimal.NumDigitsBound | js/main.js:136 | the decimal length n of x is at least 1, x < 10^n, and 10^(n-1) <= x unless n is 1 |
| Decimal.ToDecimalDigit | js/main.js:136 | the character p places from the right of `toString` is digit p |
| Decimal.DigitBeyond | js/main.js:152 | digit positions at or beyond the length of x hold 0 |
| Decimal.PadNumberShape | js/main.js:23-25 | `padNumber` is the notation of x preceded by zeros to reach `width` (or unchanged when already that wide), consists of digits, and still reads as x |
| Decimal.PadNumberDigit | js/main.js:23-25 | the character p places from the right of the padded number is digit p of x, the digit the pass over position p buckets by |
| InputValidation.ValidateInput | js/main.js:404-479 | the method's early returns and loop compute exactly `Validate` of the two field texts |
| InputValidation.CheckFields | js/main.js:408-437 | when the numbers text passes the empty, trailing-digit, character and empty-field checks, the fields are its comma split and every one is a non-empty digit string |
| InputValidation.FieldValues | js/main.js:455-470 | one number per field, in order, each the decimal value of its field (leading zeros allowed) |
| InputValidation.ValidateRejects | js/main.js:411-476 | input is refused when the trimmed text is empty, does not end in a digit, holds anything but digits and commas, or has an empty field; when the count is not a number, is not positive, or differs from the number of fields; and when there are more than 20 fields |
| InputValidation.ValidateAccepts | js/main.js:439-478 | accepted input gives 1 to 20 numbers, exactly as many as the count field says, each the value of its non-empty digit field |
| InputValidation.ValidatedSize | js/main.js:472-478 | what is accepted is never empty and never more than 20 numbers, so the generator is never given an empty list |
| InputValidation.CheckFieldsAccept | js/main.js:411-437 | text that passes each field check is accepted with its comma split as fields |
| InputValidation.CheckCountAccept | js/main.js:439-478 | digit fields whose count equals a positive count of at most 20 are accepted, with their values |
| InputValidation.ValidateRoundTrip | js/main.js:404-479 | 1 to 20 numbers written comma-separated (zero-padded to any width), with their count written in the count field, are accepted and give back exactly those numbers |
| InputValidation.Split | js/main.js:431 | `split(",")` gives at least one field, no field holds a comma, and joining the fields with commas gives back the text |
| InputValidation.SplitJoin | js/main.js:431 | splitting comma-free fields joined by commas gives back the fields |
| InputValidation.TrimStart | js/main.js:408-409 | `trim` removes only leading white space, and all of it |
| InputValidation.TrimEnd | js/main.js:408-409 | `trim` removes only trailing white space, and all of it |
| InputValidation.TrimDigits | js/main.js:408 | text that starts and ends with a digit is unchanged by `trim` |
| InputValidation.DigitPrefix | js/main.js:440 | `parseInt` reads the longest run of digits at the start of the text |
| InputValidation.ParseIntSign | js/main.js:440 | `parseInt(s, 10)` is NaN exactly when no digit follows the optional sign; otherwise it is the value of the digits after the sign up to the first non-digit, negated when the sign is `-` |
| InputValidation.ParseIntDecimal | js/main.js:440 | `parseInt` of the decimal notation of n is n |
| ExponentNotation.JsLength | js/main.js:136 | `x.toString().length` is the decimal length of x below 10^21; from 10^21 up it is the length of an exponent form written with x's significant digits (at least 4 characters, at most the decimal length plus the point, `e+` and the exponent's digits), which is the printed length when those digits are the shortest that read back as the same double |
| ExponentNotation.JsMaxDigits | js/main.js:136 | `maxDigits` as the program computes it on doubles: the printed length of some element, and no element prints longer |
| ExponentNotation.NumDigitsOfPow10 | js/main.js:136 | 10^n has n + 1 decimal digits |
| ExponentNotation.LengthOfPow10Of21 | js/main.js:136 | `(1e21).toString()` has 5 characters |
| ExponentNotation.FewPasses | js/main.js:139-175 | five passes over `[10^21, 5]` change nothing: the low five digits are 00000 and 00005 |
| ExponentNotation.LargeValueAccepted | js/main.js:404-479 | the numbers `p,5` with count `2` are accepted as `[p, 5]`, in the model whatever the size of p, so `1000000000000000000000,5` reaches the generator |
| ExponentNotation.LargeValueLeftUnsorted | js/main.js:134-185 | for `[10^21, 5]` the program's `maxDigits` is 5, its five passes leave the array as it was, and the terminal array `[10^21, 5]` is not sorted |
| ExponentNotation.FullPasses | js/main.js:139-175 | the full decimal length of `[10^21, 5]` is 22, and that many passes give `[5, 10^21]` |
| Navigation.Cursor.constructor | js/main.js:17-18 | the page starts with no snapshots and index 0 |
| Navigation.Cursor.Start | js/main.js:38-52 | refused input leaves the snapshots and index unchanged; accepted input replaces the snapshots with `Trace` of the validated numbers and shows the first one |
| Navigation.Cursor.Reset | js/main.js:66-73 | Reset empties the snapshots and resets the index to 0 |
| Navigation.Cursor.Next | js/main.js:75-80 | Next moves forward by exactly one exactly when the last snapshot is not on display, otherwise nothing changes; the index stays in range |
| Navigation.Cursor.Back | js/main.js:82-87 | Back moves back by exactly one exactly when the index is positive, otherwise nothing changes; the index stays in range |
| Scenarios.SingleElement | js/main.js:134-185 | `[3]` gives four snapshots, and the terminal one holds `[3]` |
| Scenarios.MaxDigitsOfSample | js/main.js:136 | the widest of 170, 45, 75, 90, 802, 24, 2, 66 has three digits |
| Scenarios.SampleRun | js/main.js:134-185 | `[170, 45, 75, 90, 802, 24, 2, 66]` gives ten snapshots, and the terminal one holds `[2, 24, 45, 66, 75, 90, 170, 802]` |

## Left out

- Rendering is not modelled: `showStep`, the pseudocode panel, the result
  panel and its de-duplication by digit index, the highlighted digit, and all
  DOM access. It is presentation only. `PadNumberDigit` states the fact that
  the highlight relies on.
- Random input (js/main.js:28-34) is not modelled. It depends on
  `Math.random`.
- Auto-run (js/main.js:90-130) is not modelled. It is timer scheduling; one of
  its ticks does what Next does. `Navigation.Cursor.Reset` therefore does not
  model the `stopAutoRun` call at js/main.js:67.
- The listener that fills in the count field as the numbers are typed
  (js/main.js:53-61) is not modelled. It is UI wiring.
- The globals `renderedPasses` and `isSortedComplete` are not modelled. Start
  clears them, but nothing reads them.
- The alert messages are not modelled. Each alert the model can reach is one
  constructor of `InputError`.
- Number representation:
  - Numbers are unbounded naturals and `10^d` is exact.
  - `Number(value)` reads a digit field as its exact decimal value. Doubles
    would round above 2^53 and give `Infinity` beyond about 308 digits.
  - With exact values, the "invalid number" branch (js/main.js:464-467)
    cannot be taken, and the model has no case for it.
  - `parseInt` of the count is likewise exact.
- ExponentNotation.JsLength: from 10^21 up the length is exact only when the
  significant digits of the integer are the shortest digits that read back as
  the same double: every power of ten, and every value with at most 15
  significant digits. JavaScript prints at most 17 significant digits, so for
  `1000000000000000131072` (10^21 + 2^17, a double) the program prints
  `1.0000000000000001e+21`, 22 characters, while `JsLength` gives at least 27.
  The shortest round-trip digit search is not modelled; the finding below uses
  10^21, which prints exactly.
- RadixSort.TerminalSnapshot: sortedness is proved for exact naturals with
  `maxDigits` taken as the full decimal length. The program computes
  `maxDigits` from `toString().length`, which from 10^21 up counts the
  exponent form: `1000000000000000000000,5` with count `2` ends unsorted (see
  "## Findings"). `Math.floor(num / Math.pow(10, d))` is also inexact above
  2^53, which the model does not capture.
- RadixSort.RadixSortSteps: requires a non-empty array. For `[]` the source
  computes `Math.max()` = `-Infinity`, skips the loop and returns one terminal
  record whose `maxDigits` is `-Infinity`. The only caller passes what
  validation accepted, which `InputValidation.ValidatedSize` shows is never
  empty.
- Navigation.Cursor.Start: the DOM clearing and the call to `showStep`
  (js/main.js:46-51) are not modelled.

## Findings

| source | as written | input that shows it | evidently intended | confidence | as-written member | corrected member |
|---|---|---|---|---|---|---|
| js/main.js:136 | `maxDigits` is the largest `n.toString().length`; from 10^21 up `toString` gives exponent notation, so `(1e21).toString()` is `"1e+21"`, 5 characters | numbers `1000000000000000000000,5`, count `2`: validation accepts them (js/main.js:455-470), five passes run, and the terminal array is `[1e21, 5]` | one pass per decimal digit of the largest value (22 here), so the terminal array is `[5, 1e21]` | not executed | ExponentNotation.LargeValueLeftUnsorted | RadixSort.RadixSortCorrect |
