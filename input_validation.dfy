/** The input checks run when a sort is started: the numbers field must be a
    comma-separated list of digit strings whose length agrees with the count
    field and is at most 20. The text of both fields is passed in; the alerts
    become the error values of a `Result`. */
module InputValidation {
  import opened Wrappers
  import opened Decimal

  /** The most values a run accepts. */
  const MaxValues := 20

  /** Why the input was refused, one value per alert. */
  datatype InputError =
    | EmptyInput                                // "Please enter numbers."
    | MissingTrailingDigit                      // "Input must end with a number."
    | InvalidCharacter                          // "Invalid character detected."
    | EmptyValue                                // "Empty value detected."
    | CountNotPositive                          // "Total count must be a positive number."
    | CountMismatch(entered: nat, expected: int) // "Count mismatch!"
    | TooManyValues                             // "Please limit input to 20 numbers"

  // ----- the JavaScript string operations the checks use -----

  /** The characters `String.prototype.trim` removes: white space and line terminators. */
  predicate IsJsSpace(c: char) {
    c == '\t' || c == '\n' || c == '\U{B}' || c == '\U{C}' || c == '\r' || c == ' ' ||
    c == '\U{A0}' || c == '\U{1680}' || ('\U{2000}' <= c <= '\U{200A}') ||
    c == '\U{2028}' || c == '\U{2029}' || c == '\U{202F}' || c == '\U{205F}' ||
    c == '\U{3000}' || c == '\U{FEFF}'
  }

  function TrimStart(s: string): (r: string)
    ensures |r| <= |s| && r == s[|s| - |r|..]
    ensures forall i :: 0 <= i < |s| - |r| ==> IsJsSpace(s[i])
    ensures r == [] || !IsJsSpace(r[0])
  {
    if s != [] && IsJsSpace(s[0]) then TrimStart(s[1..]) else s
  }

  function TrimEnd(s: string): (r: string)
    ensures |r| <= |s| && r == s[..|r|]
    ensures forall i :: |r| <= i < |s| ==> IsJsSpace(s[i])
    ensures r == [] || !IsJsSpace(r[|r| - 1])
  {
    if s != [] && IsJsSpace(s[|s| - 1]) then TrimEnd(s[..|s| - 1]) else s
  }

  /** `s.trim()`. */
  function Trim(s: string): string {
    TrimEnd(TrimStart(s))
  }

  /** `parts.join(sep)`. */
  function Join(parts: seq<string>, sep: char): string
    requires |parts| >= 1
  {
    if |parts| == 1 then parts[0] else parts[0] + [sep] + Join(parts[1..], sep)
  }

  /** `s.split(sep)` for a one-character separator: the maximal separator-free
      pieces, which joined with the separator give back s. */
  function Split(s: string, sep: char): (r: seq<string>)
    ensures |r| >= 1
    ensures forall k :: 0 <= k < |r| ==> sep !in r[k]
    ensures Join(r, sep) == s
  {
    if s == [] then [[]]
    else
      var rest := Split(s[1..], sep);
      if s[0] == sep then
        assert ([[]] + rest)[1..] == rest;
        [[]] + rest
      else
        var r := [[s[0]] + rest[0]] + rest[1..];
        assert |rest| > 1 ==> r[1..] == rest[1..] && Join(rest, sep) == rest[0] + [sep] + Join(rest[1..], sep);
        r
  }

  /** The longest prefix of s made of decimal digits. */
  function DigitPrefix(s: string): (r: string)
    ensures IsDigits(r) && |r| <= |s| && r == s[..|r|]
    ensures |r| == |s| || !IsDigit(s[|r|])
  {
    if s != [] && IsDigit(s[0]) then [s[0]] + DigitPrefix(s[1..]) else []
  }

  /** `parseInt(s, 10)` on a trimmed string: an optional sign, then the longest
      run of digits; `None` (NaN) when there is no digit. */
  function ParseInt(s: string): Option<int> {
    var negative := |s| > 0 && s[0] == '-';
    var body := if |s| > 0 && (s[0] == '-' || s[0] == '+') then s[1..] else s;
    var digits := DigitPrefix(body);
    var magnitude: int := if digits == [] then 0 else ParseDecimal(digits);
    if digits == [] then None
    else if negative then Some(-magnitude)
    else Some(magnitude)
  }

  /** `parseInt(s, 10)` reads an optional sign at index 0 and then the digits
      from `start` up to the first non-digit: it is NaN exactly when no digit
      follows the sign, and otherwise the value of those k digits, negated
      when the sign is `-`. */
  lemma ParseIntSign(s: string, k: nat)
    ensures var start := if |s| > 0 && (s[0] == '-' || s[0] == '+') then 1 else 0;
      && (ParseInt(s).None? <==> start == |s| || !IsDigit(s[start]))
      && (start + k <= |s| && k > 0 && IsDigits(s[start..start + k]) &&
          (start + k == |s| || !IsDigit(s[start + k])) ==>
            ParseInt(s) == Some(if start == 1 && s[0] == '-'
                                then -(ParseDecimal(s[start..start + k]) as int)
                                else ParseDecimal(s[start..start + k]) as int))
  {
    var start := if |s| > 0 && (s[0] == '-' || s[0] == '+') then 1 else 0;
    var body := s[start..];
    var r := DigitPrefix(body);
    if start + k <= |s| && k > 0 && IsDigits(s[start..start + k]) &&
       (start + k == |s| || !IsDigit(s[start + k])) {
      assert forall i :: 0 <= i < k ==> body[i] == s[start..start + k][i];
      assert forall i :: 0 <= i < |r| ==> r[i] == body[i];
      assert |r| == k;
      assert r == s[start..start + k];
    }
    if start < |s| && IsDigit(s[start]) {
      assert body[0] == s[start];
    }
  }

  // ----- validation -----

  predicate OnlyDigitsAndCommas(s: string) {
    forall i :: 0 <= i < |s| ==> IsDigit(s[i]) || s[i] == ','
  }

  /** What `validateInput` returns for the two fields' text, checks in the
      program's order. */
  function Validate(numbersText: string, countText: string): Result<seq<nat>, InputError> {
    match CheckFields(Trim(numbersText))
    case Failure(e) => Failure(e)
    case Success(parts) => CheckCount(parts, ParseInt(Trim(countText)))
  }

  /** The checks on the trimmed numbers text; on success, its comma-separated
      fields. */
  function CheckFields(raw: string): (r: Result<seq<string>, InputError>)
    ensures r.Success? ==> r.value == Split(raw, ',')
    ensures r.Success? ==> forall k :: 0 <= k < |r.value| ==> IsDigits(r.value[k]) && r.value[k] != []
  {
    if raw == [] then Failure(EmptyInput)
    else if !IsDigit(raw[|raw| - 1]) then Failure(MissingTrailingDigit)
    else if !OnlyDigitsAndCommas(raw) then Failure(InvalidCharacter)
    else
      var parts := Split(raw, ',');
      if [] in parts then Failure(EmptyValue)
      else
        SplitFieldsAreDigits(raw);
        Success(parts)
  }

  /** The checks on the count field's value against the fields; on success, the
      value of every field. */
  function CheckCount(parts: seq<string>, expected: Option<int>): Result<seq<nat>, InputError>
    requires forall k :: 0 <= k < |parts| ==> IsDigits(parts[k])
  {
    match expected
    case None => Failure(CountNotPositive)
    case Some(n) =>
      if n <= 0 then Failure(CountNotPositive)
      else if |parts| != n then Failure(CountMismatch(|parts|, n))
      else if |parts| > MaxValues then Failure(TooManyValues)
      else Success(FieldValues(parts))
  }

  /** The decimal value of every field, in order. */
  function FieldValues(parts: seq<string>): (ns: seq<nat>)
    requires forall k :: 0 <= k < |parts| ==> IsDigits(parts[k])
    ensures |ns| == |parts|
    ensures forall k :: 0 <= k < |parts| ==> ns[k] == ParseDecimal(parts[k])
  {
    if parts == [] then []
    else FieldValues(parts[..|parts| - 1]) + [ParseDecimal(parts[|parts| - 1])]
  }

  /** Every field of a text made of digits and commas is a digit string. */
  lemma SplitFieldsAreDigits(raw: string)
    requires OnlyDigitsAndCommas(raw)
    ensures forall k :: 0 <= k < |Split(raw, ',')| ==> IsDigits(Split(raw, ',')[k])
  {
    var parts := Split(raw, ',');
    forall k | 0 <= k < |parts| ensures IsDigits(parts[k]) {
      JoinContains(parts, ',', k);
      forall i | 0 <= i < |parts[k]| ensures IsDigit(parts[k][i]) {
        var c := parts[k][i];
        assert c in raw && c != ',';
        var j :| 0 <= j < |raw| && raw[j] == c;
      }
    }
  }

  lemma {:induction false} JoinContains(parts: seq<string>, sep: char, k: nat)
    requires |parts| >= 1 && k < |parts|
    ensures forall c :: c in parts[k] ==> c in Join(parts, sep)
  {
    if k > 0 {
      JoinContains(parts[1..], sep, k - 1);
    }
  }

  /** `validateInput()`: the checks in order, each returning at its first
      failure, then the fields read one by one into the list of numbers. */
  method ValidateInput(numbersText: string, countText: string)
    returns (r: Result<seq<nat>, InputError>)
    ensures r == Validate(numbersText, countText)
  {
    var rawInput := Trim(numbersText);
    var countValue := Trim(countText);

    if rawInput == [] {
      return Failure(EmptyInput);
    }
    if !IsDigit(rawInput[|rawInput| - 1]) {
      return Failure(MissingTrailingDigit);
    }
    if !OnlyDigitsAndCommas(rawInput) {
      return Failure(InvalidCharacter);
    }

    var parts := Split(rawInput, ',');
    if [] in parts {
      return Failure(EmptyValue);
    }
    assert CheckFields(rawInput) == Success(parts);

    var expectedCount := ParseInt(countValue);
    if expectedCount.None? || expectedCount.value <= 0 {
      return Failure(CountNotPositive);
    }
    if |parts| != expectedCount.value {
      return Failure(CountMismatch(|parts|, expectedCount.value));
    }

    SplitFieldsAreDigits(rawInput);
    var numbers: seq<nat> := [];
    for i := 0 to |parts|
      invariant numbers == FieldValues(parts[..i])
    {
      assert parts[..i + 1][..i] == parts[..i];
      numbers := numbers + [ParseDecimal(parts[i])];
    }
    assert parts[..|parts|] == parts;

    if |numbers| > MaxValues {
      return Failure(TooManyValues);
    }
    return Success(numbers);
  }

  // ----- what validation promises -----

  /** Each refused shape of input is refused, whichever other checks it would
      also fail. */
  lemma ValidateRejects(numbersText: string, countText: string)
    ensures var raw := Trim(numbersText);
      && (raw == [] ==> Validate(numbersText, countText) == Failure(EmptyInput))
      && (raw != [] && !IsDigit(raw[|raw| - 1]) ==> Validate(numbersText, countText).Failure?)
      && (!OnlyDigitsAndCommas(raw) ==> Validate(numbersText, countText).Failure?)
      && ([] in Split(raw, ',') ==> Validate(numbersText, countText).Failure?)
      && (ParseInt(Trim(countText)).None? ==> Validate(numbersText, countText).Failure?)
      && (ParseInt(Trim(countText)).Some? && ParseInt(Trim(countText)).value <= 0 ==>
            Validate(numbersText, countText).Failure?)
      && (ParseInt(Trim(countText)).Some? && ParseInt(Trim(countText)).value != |Split(raw, ',')| ==>
            Validate(numbersText, countText).Failure?)
      && (|Split(raw, ',')| > MaxValues ==> Validate(numbersText, countText).Failure?)
  {
  }

  /** An accepted input is between 1 and 20 numbers, exactly as many as the
      count field says, each the value of its field of the trimmed text. */
  lemma ValidateAccepts(numbersText: string, countText: string)
    requires Validate(numbersText, countText).Success?
    ensures var ns := Validate(numbersText, countText).value;
      var parts := Split(Trim(numbersText), ',');
      && 1 <= |ns| <= MaxValues
      && ParseInt(Trim(countText)) == Some(|ns| as int)
      && |parts| == |ns|
      && forall i :: 0 <= i < |ns| ==> IsDigits(parts[i]) && parts[i] != [] && ns[i] == ParseDecimal(parts[i])
  {
    SplitFieldsAreDigits(Trim(numbersText));
  }

  /** What the generator is given is never empty. */
  lemma ValidatedSize(numbersText: string, countText: string)
    ensures Validate(numbersText, countText).Success? ==>
      1 <= |Validate(numbersText, countText).value| <= MaxValues
  {
  }

  /** The text the program itself writes into the fields -- the numbers joined
      with commas (zero-padded to any width, since leading zeros are allowed)
      and their count -- is accepted and gives back exactly those numbers. */
  lemma ValidateRoundTrip(ns: seq<nat>, width: nat)
    requires 1 <= |ns| <= MaxValues
    ensures Validate(Render(ns, width), ToDecimal(|ns|)) == Success(ns)
  {
    var fields := seq(|ns|, i requires 0 <= i < |ns| => PadNumber(ns[i], width));
    forall i | 0 <= i < |fields|
      ensures IsDigits(fields[i]) && fields[i] != [] && ParseDecimal(fields[i]) == ns[i]
    {
      PadNumberShape(ns[i], width);
    }
    var text := Join(fields, ',');
    assert text == Render(ns, width);
    JoinDigitFields(fields);
    TrimDigits(text);
    assert forall k :: 0 <= k < |fields| ==> ',' !in fields[k];
    SplitJoin(fields, ',');
    assert [] !in fields;
    var c := ToDecimal(|ns|);
    TrimDigits(c);
    ParseIntDecimal(|ns|);
    CheckFieldsAccept(text);
    CheckCountAccept(fields, ns);
  }

  lemma CheckFieldsAccept(raw: string)
    requires raw != [] && IsDigit(raw[|raw| - 1])
    requires OnlyDigitsAndCommas(raw) && [] !in Split(raw, ',')
    ensures CheckFields(raw) == Success(Split(raw, ','))
  {
  }

  lemma CheckCountAccept(parts: seq<string>, ns: seq<nat>)
    requires |parts| == |ns| && 1 <= |ns| <= MaxValues
    requires forall k :: 0 <= k < |parts| ==> IsDigits(parts[k]) && ParseDecimal(parts[k]) == ns[k]
    ensures CheckCount(parts, Some(|ns| as int)) == Success(ns)
  {
    assert FieldValues(parts) == ns;
  }

  /** The numbers joined with commas, each zero-padded to `width` (width 0 is
      `arr.join(",")`). */
  function Render(ns: seq<nat>, width: nat): string
    requires |ns| >= 1
  {
    Join(seq(|ns|, i requires 0 <= i < |ns| => PadNumber(ns[i], width)), ',')
  }

  lemma {:induction false} JoinDigitFields(fields: seq<string>)
    requires |fields| >= 1
    requires forall k :: 0 <= k < |fields| ==> IsDigits(fields[k]) && fields[k] != []
    ensures var t := Join(fields, ',');
      && OnlyDigitsAndCommas(t) && t != [] && IsDigit(t[0]) && IsDigit(t[|t| - 1])
  {
    if |fields| > 1 {
      JoinDigitFields(fields[1..]);
    }
  }

  lemma {:induction false} DigitPrefixAll(s: string)
    requires IsDigits(s)
    ensures DigitPrefix(s) == s
  {
    if s != [] {
      DigitPrefixAll(s[1..]);
    }
  }

  /** Splitting undoes joining fields that hold no separator. */
  lemma {:induction false} SplitJoin(parts: seq<string>, sep: char)
    requires |parts| >= 1
    requires forall k :: 0 <= k < |parts| ==> sep !in parts[k]
    ensures Split(Join(parts, sep), sep) == parts
  {
    var p := parts[0];
    if |parts| == 1 {
      assert Join(parts, sep) == p + [];
      SplitPrefix(p, [], sep);
      assert p + [] == p;
    } else {
      var tail := Join(parts[1..], sep);
      assert Join(parts, sep) == p + ([sep] + tail);
      SplitJoin(parts[1..], sep);
      SplitSeparator(tail, sep);
      SplitPrefix(p, [sep] + tail, sep);
      assert p + [] == p;
      assert ([[]] + parts[1..])[1..] == parts[1..];
      assert parts == [p] + parts[1..];
    }
  }

  /** A separator-free prefix lands in the first piece. */
  lemma {:induction false} SplitPrefix(p: string, t: string, sep: char)
    requires sep !in p
    ensures Split(p + t, sep) == [p + Split(t, sep)[0]] + Split(t, sep)[1..]
  {
    var x := Split(t, sep);
    if p == [] {
      assert p + t == t;
      assert p + x[0] == x[0];
      assert [x[0]] + x[1..] == x;
    } else {
      assert (p + t)[1..] == p[1..] + t;
      SplitPrefix(p[1..], t, sep);
      var rest := Split(p[1..] + t, sep);
      assert rest[0] == p[1..] + x[0] && rest[1..] == x[1..];
      assert [p[0]] + (p[1..] + x[0]) == p + x[0];
    }
  }

  lemma SplitSeparator(u: string, sep: char)
    ensures Split([sep] + u, sep) == [[]] + Split(u, sep)
  {
    assert ([sep] + u)[1..] == u;
  }

  lemma TrimDigits(s: string)
    requires s != [] && IsDigit(s[0]) && IsDigit(s[|s| - 1])
    ensures Trim(s) == s
  {
    assert !IsJsSpace(s[0]) && !IsJsSpace(s[|s| - 1]);
    assert TrimStart(s) == s;
    assert TrimEnd(s) == s;
  }

  lemma ParseIntDecimal(n: nat)
    ensures ParseInt(ToDecimal(n)) == Some(n as int)
  {
    var c := ToDecimal(n);
    DigitPrefixAll(c);
    assert c[0] != '-' && c[0] != '+';
  }
}
