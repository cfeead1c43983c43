/** Small shared vocabulary: optional values, bytes, and sequence helpers. */
module Common {

  /** A value that may be absent (Python's None, C's NULL). */
  datatype Option<T> = None | Some(value: T)

  /** An unsigned 8-bit value (C's uint8_t, one element of a byte buffer). */
  type Byte = b: int | 0 <= b < 256

  /** ESP-IDF's `ESP_OK`. */
  const EspOk: int := 0

  /** ESP-IDF's `ESP_FAIL`. */
  const EspFail: int := -1

  /** ESP-IDF's `ESP_ERR_INVALID_ARG`. */
  const EspErrInvalidArg: int := 0x102

  /** ESP-IDF's `ESP_ERR_NOT_SUPPORTED`. */
  const EspErrNotSupported: int := 0x106

  /** Sum of a sequence of integers. */
  function Sum(s: seq<int>): int
  {
    if s == [] then 0 else Sum(s[..|s| - 1]) + s[|s| - 1]
  }

  /** The elements of `s` in the opposite order (Python's `s[::-1]`). */
  function Reverse<T>(s: seq<T>): (r: seq<T>)
    ensures |r| == |s|
    ensures forall i :: 0 <= i < |s| ==> r[i] == s[|s| - 1 - i]
  {
    if s == [] then [] else [s[|s| - 1]] + Reverse(s[..|s| - 1])
  }

  /** Whether `c` is an ASCII decimal digit. */
  predicate IsDigit(c: char)
  {
    '0' <= c <= '9'
  }

  /** The digit character of `d`. */
  function DigitChar(d: nat): (c: char)
    requires d < 10
    ensures IsDigit(c) && DigitValue(c) == d
  {
    (('0' as int) + d) as char
  }

  /** The value of a digit character. */
  function DigitValue(c: char): nat
    requires IsDigit(c)
  {
    (c as int) - ('0' as int)
  }

  /** The decimal notation of `n`, as Python's `str` writes it: no sign, no leading zero. */
  function DecimalString(n: nat): seq<char>
  {
    if n < 10 then [DigitChar(n)] else DecimalString(n / 10) + [DigitChar(n % 10)]
  }

  /** The value of a string of decimal digits. */
  function DigitsValue(s: seq<char>): nat
    requires forall i :: 0 <= i < |s| ==> IsDigit(s[i])
  {
    if s == [] then 0 else 10 * DigitsValue(s[..|s| - 1]) + DigitValue(s[|s| - 1])
  }

  /**
   * The number whose decimal notation is exactly `s`: None unless `s` is a
   * non-empty string of digits without a leading zero.
   */
  function ParseDecimal(s: seq<char>): Option<nat>
  {
    if s == [] || (exists i :: 0 <= i < |s| && !IsDigit(s[i])) || (|s| > 1 && s[0] == '0') then None
    else Some(DigitsValue(s))
  }

  /** A decimal notation is non-empty, all digits, and starts with a zero only when it is "0". */
  lemma {:induction false} DecimalStringShape(n: nat)
    ensures var s := DecimalString(n);
      && s != [] && (forall i :: 0 <= i < |s| ==> IsDigit(s[i]))
      && (|s| > 1 ==> s[0] != '0')
      && DigitsValue(s) == n
  {
    if n >= 10 {
      DecimalStringShape(n / 10);
      var s := DecimalString(n);
      assert s[..|s| - 1] == DecimalString(n / 10);
    }
  }

  /** Parsing the notation of a number gives the number back. */
  lemma DecimalRoundTrip(n: nat)
    ensures ParseDecimal(DecimalString(n)) == Some(n)
  {
    DecimalStringShape(n);
  }

  /** Digits with a nonzero first digit have a positive value. */
  lemma {:induction false} LeadingDigitPositive(s: seq<char>)
    requires s != [] && (forall i :: 0 <= i < |s| ==> IsDigit(s[i])) && s[0] != '0'
    ensures DigitsValue(s) >= 1
  {
    if |s| > 1 {
      LeadingDigitPositive(s[..|s| - 1]);
    }
  }

  /** Only the notation of a number parses to it: the two are inverse. */
  lemma {:induction false} DecimalCanonical(s: seq<char>, n: nat)
    requires ParseDecimal(s) == Some(n)
    ensures s == DecimalString(n)
  {
    var p := s[..|s| - 1];
    var d := DigitValue(s[|s| - 1]);
    if |s| == 1 {
      assert DigitsValue(p) == 0;
    } else {
      assert ParseDecimal(p) == Some(DigitsValue(p));
      DecimalCanonical(p, DigitsValue(p));
      LeadingDigitPositive(p);
      assert s == p + [DigitChar(d)];
    }
  }

  /** The number of decimal digits at the front of `s`. */
  function LeadingDigits(s: seq<char>): (k: nat)
    ensures k <= |s| && (forall i :: 0 <= i < k ==> IsDigit(s[i])) && (k < |s| ==> !IsDigit(s[k]))
  {
    if s == [] || !IsDigit(s[0]) then 0 else 1 + LeadingDigits(s[1..])
  }

  /** `LeadingDigits` is the one length whose prefix is all digits and is not followed by a digit. */
  lemma {:induction false} LeadingDigitsUnique(s: seq<char>, k: nat)
    requires k <= |s| && (forall i :: 0 <= i < k ==> IsDigit(s[i])) && (k < |s| ==> !IsDigit(s[k]))
    ensures LeadingDigits(s) == k
  {
    if k > 0 {
      LeadingDigitsUnique(s[1..], k - 1);
    }
  }
}
