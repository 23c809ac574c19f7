/**
 The three `strconv` parsers the loader calls with fixed arguments:
 `ParseBool`, `ParseInt(s, 10, 64)` and `ParseUint(s, 10, 64)`.

 Each is written the way Go's implementation scans its input, and each is
 related by a lemma to an independent description of the strings it
 accepts (decimal digit strings whose value is in range) and to a
 formatter whose output it parses back.
 */
module StrConv {
  import opened Errors

  const MaxUint64: nat := 0xFFFF_FFFF_FFFF_FFFF
  const MaxInt64: int := 0x7FFF_FFFF_FFFF_FFFF
  const MinInt64: int := -0x8000_0000_0000_0000

  predicate IsDigit(c: char) {
    '0' <= c <= '9'
  }

  predicate AllDigits(s: string) {
    forall i :: 0 <= i < |s| ==> IsDigit(s[i])
  }

  function DigitValue(c: char): (d: nat)
    requires IsDigit(c)
    ensures d < 10
  {
    c as int - '0' as int
  }

  function DigitChar(d: nat): (c: char)
    requires d < 10
    ensures IsDigit(c) && DigitValue(c) == d
  {
    ('0' as int + d) as char
  }

  /** The number a string of decimal digits denotes, most significant digit first. */
  function DecimalValue(s: string): nat
    requires AllDigits(s)
  {
    if |s| == 0 then 0 else DecimalValue(s[..|s| - 1]) * 10 + DigitValue(s[|s| - 1])
  }

  /** The spellings `strconv.ParseBool` accepts. */
  const TrueSpellings: seq<string> := ["1", "t", "T", "TRUE", "true", "True"]
  const FalseSpellings: seq<string> := ["0", "f", "F", "FALSE", "false", "False"]

  /** `strconv.ParseBool`. */
  function ParseBool(s: string): (r: Result<bool>)
    ensures r == Ok(true) <==> s in TrueSpellings
    ensures r == Ok(false) <==> s in FalseSpellings
    ensures r.Err? <==> s !in TrueSpellings + FalseSpellings
    ensures r.Err? ==> r.error == NumError("ParseBool", s, InvalidSyntax)
  {
    if s == "1" || s == "t" || s == "T" || s == "TRUE" || s == "true" || s == "True" then Ok(true)
    else if s == "0" || s == "f" || s == "F" || s == "FALSE" || s == "false" || s == "False" then Ok(false)
    else Err(NumError("ParseBool", s, InvalidSyntax))
  }

  /** What the digit loop of `ParseUint` ends with: a value, or the cause it stopped for. */
  datatype Scan = Digits(n: nat) | Stop(cause: NumCause)

  /** The digit loop of `strconv.ParseUint` in base 10 from position `i`, with
      `acc` the value of the digits before it: a non-digit stops with a syntax
      error, and a digit that would push the value past 64 bits stops at once
      with a range error, before the rest of the input is looked at. */
  function ScanDigits(s: string, i: nat, acc: nat): Scan
    requires i <= |s|
    decreases |s| - i
  {
    if i == |s| then Digits(acc)
    else if !IsDigit(s[i]) then Stop(InvalidSyntax)
    else
      var n := acc * 10 + DigitValue(s[i]);
      if n > MaxUint64 then Stop(OutOfRange) else ScanDigits(s, i + 1, n)
  }

  /** Appending a digit multiplies the value by ten and adds the digit. */
  lemma DecimalValueSnoc(s: string, c: char)
    requires AllDigits(s) && IsDigit(c)
    ensures AllDigits(s + [c])
    ensures DecimalValue(s + [c]) == DecimalValue(s) * 10 + DigitValue(c)
  {
    assert (s + [c])[..|s|] == s;
  }

  /** A digit string is worth at least as much as any of its prefixes. */
  lemma {:induction false} DecimalValuePrefix(s: string, k: nat)
    requires AllDigits(s) && k <= |s|
    ensures AllDigits(s[..k]) && DecimalValue(s[..k]) <= DecimalValue(s)
  {
    if k == |s| {
      assert s[..k] == s;
    } else {
      var init := s[..|s| - 1];
      assert AllDigits(init);
      assert DecimalValue(init) <= DecimalValue(s);
      DecimalValuePrefix(init, k);
      assert init[..k] == s[..k];
    }
  }

  /** The digit loop accepts exactly the all-digit inputs whose value fits in
      64 bits, returns their value, and reports an all-digit input that does
      not fit as out of range. */
  lemma {:induction false} ScanDigitsCorrect(s: string, i: nat, acc: nat)
    requires i <= |s| && AllDigits(s[..i]) && acc == DecimalValue(s[..i]) && acc <= MaxUint64
    ensures ScanDigits(s, i, acc).Digits? <==> AllDigits(s) && DecimalValue(s) <= MaxUint64
    ensures ScanDigits(s, i, acc).Digits? ==> ScanDigits(s, i, acc).n == DecimalValue(s)
    ensures AllDigits(s) && DecimalValue(s) > MaxUint64 ==> ScanDigits(s, i, acc) == Stop(OutOfRange)
    decreases |s| - i
  {
    if i == |s| {
      assert s[..i] == s;
    } else if !IsDigit(s[i]) {
    } else {
      assert s[..i + 1] == s[..i] + [s[i]];
      DecimalValueSnoc(s[..i], s[i]);
      var n := acc * 10 + DigitValue(s[i]);
      if n > MaxUint64 {
        if AllDigits(s) {
          DecimalValuePrefix(s, i + 1);
        }
      } else {
        ScanDigitsCorrect(s, i + 1, n);
      }
    }
  }

  /** The scan of `s` overflows before it meets a non-digit: some prefix of
      `s` is all digits and worth more than 2^64 - 1. */
  ghost predicate OverflowsEarly(s: string) {
    exists k :: 0 <= k <= |s| && AllDigits(s[..k]) && DecimalValue(s[..k]) > MaxUint64
  }

  /** No prefix of `s[..i]` overflows when `s[..i]` itself does not. */
  lemma NoOverflowUpTo(s: string, i: nat)
    requires i <= |s| && AllDigits(s[..i]) && DecimalValue(s[..i]) <= MaxUint64
    ensures forall k :: 0 <= k <= i ==> !(AllDigits(s[..k]) && DecimalValue(s[..k]) > MaxUint64)
  {
    forall k | 0 <= k <= i ensures !(AllDigits(s[..k]) && DecimalValue(s[..k]) > MaxUint64) {
      DecimalValuePrefix(s[..i], k);
      assert s[..i][..k] == s[..k];
    }
  }

  /** The digit loop stops with a range error exactly when the input
      overflows before its first non-digit; any other stop is a syntax error. */
  lemma {:induction false} ScanDigitsCause(s: string, i: nat, acc: nat)
    requires i <= |s| && AllDigits(s[..i]) && acc == DecimalValue(s[..i]) && acc <= MaxUint64
    ensures ScanDigits(s, i, acc) == Stop(OutOfRange) <==> OverflowsEarly(s)
    decreases |s| - i
  {
    if i == |s| {
      NoOverflowUpTo(s, i);
      assert !OverflowsEarly(s);
    } else if !IsDigit(s[i]) {
      NoOverflowUpTo(s, i);
      forall k | i < k <= |s| ensures !AllDigits(s[..k]) {
        assert s[..k][i] == s[i];
      }
      assert !OverflowsEarly(s);
    } else {
      assert s[..i + 1] == s[..i] + [s[i]];
      DecimalValueSnoc(s[..i], s[i]);
      var n := acc * 10 + DigitValue(s[i]);
      if n <= MaxUint64 {
        ScanDigitsCause(s, i + 1, n);
      } else {
        assert AllDigits(s[..i + 1]) && DecimalValue(s[..i + 1]) > MaxUint64;
      }
    }
  }

  /** `strconv.ParseUint(s, 10, 64)` before the error is labelled. */
  function ScanUnsigned(s: string): (r: Scan)
    ensures r.Digits? <==> s != "" && AllDigits(s) && DecimalValue(s) <= MaxUint64
    ensures r.Digits? ==> r.n == DecimalValue(s)
    ensures s != "" && AllDigits(s) && DecimalValue(s) > MaxUint64 ==> r == Stop(OutOfRange)
    ensures r == Stop(OutOfRange) <==> OverflowsEarly(s)
  {
    assert s[..0] == "";
    if s == "" then
      assert forall k :: 0 <= k <= |s| ==> s[..k] == "";
      Stop(InvalidSyntax)
    else
      ScanDigitsCorrect(s, 0, 0);
      ScanDigitsCause(s, 0, 0);
      ScanDigits(s, 0, 0)
  }

  /** `strconv.ParseUint(s, 10, 64)`: no sign, no underscores, decimal digits only,
      value at most 2^64 - 1. */
  function ParseUint(s: string): (r: Result<nat>)
    ensures r.Ok? <==> s != "" && AllDigits(s) && DecimalValue(s) <= MaxUint64
    ensures r.Ok? ==> r.value == DecimalValue(s)
    ensures r.Err? ==> r.error.NumError? && r.error.fn == "ParseUint" && r.error.num == s
    ensures s != "" && AllDigits(s) && DecimalValue(s) > MaxUint64 ==> r == Err(NumError("ParseUint", s, OutOfRange))
    ensures r.Err? ==> r.error == NumError("ParseUint", s, if OverflowsEarly(s) then OutOfRange else InvalidSyntax)
  {
    match ScanUnsigned(s)
    case Digits(n) => Ok(n)
    case Stop(cause) =>
      assert cause == (if OverflowsEarly(s) then OutOfRange else InvalidSyntax);
      Err(NumError("ParseUint", s, cause))
  }

  /** Digits that overflow 64 bits make the parse a range error whatever
      follows them, non-digits included: the scan stops at the overflow. */
  lemma OverflowBeforeNonDigit(d: string, x: string)
    requires AllDigits(d) && DecimalValue(d) > MaxUint64
    ensures ParseUint(d + x) == Err(NumError("ParseUint", d + x, OutOfRange))
  {
    assert (d + x)[..|d|] == d;
  }

  /** The digits of a signed decimal literal: everything after an optional leading sign. */
  function Magnitude(s: string): string
    requires s != ""
  {
    if s[0] == '+' || s[0] == '-' then s[1..] else s
  }

  /** `s` is an optional sign followed by at least one decimal digit. */
  predicate IsSignedDecimal(s: string) {
    s != "" && Magnitude(s) != "" && AllDigits(Magnitude(s))
  }

  /** The number a signed decimal literal denotes. */
  function SignedValue(s: string): int
    requires IsSignedDecimal(s)
  {
    var m: int := DecimalValue(Magnitude(s));
    if s[0] == '-' then -m else m
  }

  /** `strconv.ParseInt` reports a range error: the magnitude overflows 64
      bits before its first non-digit, or it is a well-formed decimal outside
      the signed 64-bit range. */
  ghost predicate SignedOutOfRange(s: string) {
    s != "" && (OverflowsEarly(Magnitude(s)) || (IsSignedDecimal(s) && !(MinInt64 <= SignedValue(s) <= MaxInt64)))
  }

  /** `strconv.ParseInt(s, 10, 64)`: the sign is peeled off, the magnitude is
      parsed as by `ParseUint`, and the result must lie in the signed 64-bit
      range; every error is relabelled with the name `ParseInt` and the whole input. */
  function ParseInt(s: string): (r: Result<int>)
    ensures r.Ok? <==> IsSignedDecimal(s) && MinInt64 <= SignedValue(s) <= MaxInt64
    ensures r.Ok? ==> r.value == SignedValue(s)
    ensures r.Err? ==> r.error.NumError? && r.error.fn == "ParseInt" && r.error.num == s
    ensures r.Err? ==> r.error == NumError("ParseInt", s, if SignedOutOfRange(s) then OutOfRange else InvalidSyntax)
  {
    if s == "" then Err(NumError("ParseInt", s, InvalidSyntax))
    else
      var neg := s[0] == '-';
      match ScanUnsigned(Magnitude(s))
      case Stop(cause) =>
        assert cause == (if SignedOutOfRange(s) then OutOfRange else InvalidSyntax);
        Err(NumError("ParseInt", s, cause))
      case Digits(un) =>
        if !neg && un > MaxInt64 then Err(NumError("ParseInt", s, OutOfRange))
        else if neg && un > -MinInt64 then Err(NumError("ParseInt", s, OutOfRange))
        else
          var v: int := un;
          Ok(if neg then -v else v)
  }

  /** A digit's value renders back as that digit. */
  lemma DigitValueChar(c: char)
    requires IsDigit(c)
    ensures DigitChar(DigitValue(c)) == c
  {
  }

  /** Decimal rendering of a natural number, the inverse of `ParseUint`. */
  function FormatUint(n: nat): (r: string)
    ensures r != "" && AllDigits(r) && DecimalValue(r) == n
  {
    if n < 10 then
      assert [DigitChar(n)][..0] == "";
      [DigitChar(n)]
    else
      var prefix := FormatUint(n / 10);
      DecimalValueSnoc(prefix, DigitChar(n % 10));
      prefix + [DigitChar(n % 10)]
  }

  /** Decimal rendering of an integer, with a `-` for negative numbers. */
  function FormatInt(v: int): string {
    if v < 0 then "-" + FormatUint(-v) else FormatUint(v)
  }

  /** Every unsigned 64-bit value survives formatting and parsing. */
  lemma ParseUintFormatUint(n: nat)
    requires n <= MaxUint64
    ensures ParseUint(FormatUint(n)) == Ok(n)
  {
  }

  /** Every signed 64-bit value survives formatting and parsing. */
  lemma ParseIntFormatInt(v: int)
    requires MinInt64 <= v <= MaxInt64
    ensures ParseInt(FormatInt(v)) == Ok(v)
  {
    var s := FormatInt(v);
    if v < 0 {
      assert Magnitude(s) == FormatUint(-v);
    } else {
      assert Magnitude(s) == FormatUint(v);
    }
  }

  /** The canonical spellings `true` and `false` read back as the booleans they name. */
  lemma ParseBoolFormats(b: bool)
    ensures ParseBool(if b then "true" else "false") == Ok(b)
  {
  }
}
