/**
 * The small formatters of the website's telemetry helpers: the GPS date
 * `DDMMYY` rendered as an ISO date, the telemetry timestamp built from it,
 * and the linear temperature compensation of a cell voltage.
 */
module DateFormat {
  import opened Common

  /** 10 to the power `w`. */
  function Pow10(w: nat): (p: nat)
    ensures p >= 1
  {
    if w == 0 then 1 else 10 * Pow10(w - 1)
  }

  /** `k` zero characters. */
  function Zeros(k: nat): (r: seq<char>)
    ensures |r| == k && forall i :: 0 <= i < k ==> r[i] == '0'
  {
    if k == 0 then [] else Zeros(k - 1) + ['0']
  }

  /** Python's `f"{n:0{width}d}"`: the decimal notation, sign first, zero-filled to at least `width` characters. */
  function ZeroPad(n: int, width: nat): (r: seq<char>)
    ensures |r| >= width
  {
    if n >= 0 then
      var digits := DecimalString(n);
      if |digits| >= width then digits else Zeros(width - |digits|) + digits
    else
      var digits := DecimalString(-n);
      "-" + (if |digits| >= width - 1 then digits else Zeros(width - 1 - |digits|) + digits)
  }

  /**
   * `date_to_string(d)`: "0001-01-01" for 0; otherwise `d` zero-filled to
   * six characters `DDMMYY` and rearranged as "20YY-MM-DD" (any characters
   * past the sixth stay with the year).
   */
  function DateToString(d: int): (s: seq<char>)
    ensures |s| >= 10 && s[|s| - 3] == '-' && s[|s| - 6] == '-'
    ensures d != 0 ==> s[..2] == "20"
  {
    if d == 0 then "0001-01-01"
    else
      var full := ZeroPad(d, 6);
      "20" + full[4..] + "-" + full[2..4] + "-" + full[..2]
  }

  /** The last `w` decimal digits of `n`, most significant first. */
  function FixedDigits(n: nat, w: nat): (r: seq<char>)
    ensures |r| == w && forall i :: 0 <= i < w ==> IsDigit(r[i])
  {
    if w == 0 then [] else FixedDigits(n / 10, w - 1) + [DigitChar(n % 10)]
  }

  /** The digits of zero are zeros. */
  lemma {:induction false} FixedDigitsOfZero(w: nat)
    ensures FixedDigits(0, w) == Zeros(w)
  {
    if w > 0 {
      FixedDigitsOfZero(w - 1);
    }
  }

  /** The notation of a number below 10^w has at most `w` characters. */
  lemma {:induction false} DecimalLength(n: nat, w: nat)
    requires w >= 1 && n < Pow10(w)
    ensures |DecimalString(n)| <= w
  {
    if n >= 10 {
      DecimalLength(n / 10, w - 1);
    }
  }

  /** Zero-filling a number below 10^w to `w` characters writes its `w` digits. */
  lemma {:induction false} ZeroPadIsFixedDigits(n: nat, w: nat)
    requires w >= 1 && n < Pow10(w)
    ensures ZeroPad(n, w) == FixedDigits(n, w)
  {
    DecimalLength(n, w);
    var digits := DecimalString(n);
    if n < 10 {
      FixedDigitsOfZero(w - 1);
      assert FixedDigits(n, w) == FixedDigits(0, w - 1) + [DigitChar(n)];
    } else {
      ZeroPadIsFixedDigits(n / 10, w - 1);
      var head := DecimalString(n / 10);
      assert digits == head + [DigitChar(n % 10)];
      if |digits| < w {
        assert Zeros(w - |digits|) + digits == (Zeros(w - 1 - |head|) + head) + [DigitChar(n % 10)];
      }
    }
  }

  /** Dividing by ten twice is dividing by a hundred. */
  lemma DivTenTwice(n: nat)
    ensures n / 10 / 10 == n / 100
  {
  }

  /** The last two digits of a number are those of its remainder by a hundred. */
  lemma LastTwoDigits(n: nat)
    ensures FixedDigits(n % 100, 2) == FixedDigits(n, 2)
  {
    var m := n % 100;
    RemainderDigits(n);
    assert FixedDigits(m, 2) == [DigitChar(m / 10 % 10), DigitChar(m % 10)];
    assert FixedDigits(n, 2) == [DigitChar(n / 10 % 10), DigitChar(n % 10)];
  }

  /** The tens and units of `n % 100` are those of `n`. */
  lemma RemainderDigits(n: nat)
    ensures n % 100 / 10 % 10 == n / 10 % 10 && n % 100 % 10 == n % 10
  {
    var q, m := n / 100, n % 100;
    var a, b := m / 10, m % 10;
    assert m == 10 * a + b && a < 10;
    assert n == 10 * (10 * q + a) + b;
    assert n / 10 == 10 * q + a && n % 10 == b;
  }

  /** `a + 2` digits are the `a` digits of the hundreds followed by the last two. */
  lemma SplitLastTwo(n: nat, a: nat)
    ensures FixedDigits(n, a + 2) == FixedDigits(n / 100, a) + FixedDigits(n, 2)
  {
    DivTenTwice(n);
    assert FixedDigits(n, a + 2) == FixedDigits(n / 10 / 10, a) + [DigitChar(n / 10 % 10)] + [DigitChar(n % 10)];
  }

  /** The value of two digits is the number, when below a hundred. */
  lemma TwoDigitsValue(n: nat)
    requires n < 100
    ensures DigitsValue(FixedDigits(n, 2)) == n
  {
    var r := FixedDigits(n, 2);
    assert FixedDigits(n / 10, 1) == [DigitChar(n / 10 % 10)];
    assert r == [DigitChar(n / 10 % 10), DigitChar(n % 10)];
    assert r[..1] == [DigitChar(n / 10)];
    assert r[..1][..0] == [];
    assert DigitsValue(r[..1]) == n / 10;
  }

  /** The two digits of `n % 100`. */
  function TwoDigits(n: nat): seq<char>
  {
    FixedDigits(n % 100, 2)
  }

  /**
   * For a date `DDMMYY` of at most six digits other than 0, the result is
   * "20", the two digits of YY, "-", those of MM, "-", those of DD: ten
   * characters.
   */
  lemma DateLayout(d: nat)
    requires 0 < d < 1000000
    ensures DateToString(d) == "20" + TwoDigits(d) + "-" + TwoDigits(d / 100) + "-" + TwoDigits(d / 10000)
    ensures |DateToString(d)| == 10
  {
    assert Pow10(6) == 1000000;
    ZeroPadIsFixedDigits(d, 6);
    SplitLastTwo(d, 4);
    SplitLastTwo(d / 100, 2);
    DivTenTwice(d / 100);
    assert d / 100 / 100 == d / 10000;
    LastTwoDigits(d);
    LastTwoDigits(d / 100);
    LastTwoDigits(d / 10000);
    var full := FixedDigits(d, 6);
    assert full == FixedDigits(d / 10000, 2) + FixedDigits(d / 100, 2) + FixedDigits(d, 2);
    assert full[4..] == FixedDigits(d, 2);
    assert full[2..4] == FixedDigits(d / 100, 2);
    assert full[..2] == FixedDigits(d / 10000, 2);
  }

  /**
   * Reading the rendered date back: year, month and day fields are YY, MM and
   * DD of the input, so the date can be recovered from the string.
   */
  lemma DateReadsBack(d: nat)
    requires 0 < d < 1000000
    ensures var s := DateToString(d);
      && |s| == 10 && s[..2] == "20" && s[4] == '-' && s[7] == '-'
      && (forall i :: 2 <= i < 4 || 5 <= i < 7 || 8 <= i < 10 ==> IsDigit(s[i]))
      && DigitsValue(s[2..4]) == d % 100
      && DigitsValue(s[5..7]) == d / 100 % 100
      && DigitsValue(s[8..10]) == d / 10000 % 100
  {
    DateLayout(d);
    var s := DateToString(d);
    assert s[2..4] == TwoDigits(d);
    assert s[5..7] == TwoDigits(d / 100);
    assert s[8..10] == TwoDigits(d / 10000);
    TwoDigitsValue(d % 100);
    TwoDigitsValue(d / 100 % 100);
    TwoDigitsValue(d / 10000 % 100);
  }

  /** Whether every character is a digit or '-'. */
  ghost predicate DigitsOrDash(s: seq<char>)
  {
    forall i :: 0 <= i < |s| ==> IsDigit(s[i]) || s[i] == '-'
  }

  /** A zero-filled number is made of digits and a sign. */
  lemma ZeroPadDigitsOrDash(n: int, w: nat)
    ensures DigitsOrDash(ZeroPad(n, w))
  {
    DecimalStringShape(if n >= 0 then n else -n);
  }

  /** A rendered date holds no 'T'. */
  lemma DateHasNoT(d: int)
    ensures 'T' !in DateToString(d)
  {
    if d != 0 {
      var full := ZeroPad(d, 6);
      ZeroPadDigitsOrDash(d, 6);
      var s := DateToString(d);
      assert s == "20" + full[4..] + "-" + full[2..4] + "-" + full[..2];
      assert DigitsOrDash(s);
    }
  }

  /**
   * The telemetry timestamp: the date of `d`, "T", then the formatted time
   * of day (its float formatting is given as `time`).
   */
  function Timestamp(d: int, time: seq<char>): (s: seq<char>)
    ensures |s| >= 11 + |time| && s[|s| - |time| - 1] == 'T' && s[|s| - |time|..] == time
  {
    DateToString(d) + "T" + time
  }

  /** The timestamp splits at its first 'T' into the date string and the time string. */
  lemma TimestampSplits(d: int, time: seq<char>)
    ensures var s := Timestamp(d, time);
      var n := |DateToString(d)|;
      && s[..n] == DateToString(d) && s[n] == 'T' && s[n + 1..] == time
      && forall i :: 0 <= i < n ==> s[i] != 'T'
  {
    DateHasNoT(d);
    var date := DateToString(d);
    forall i | 0 <= i < |date|
      ensures Timestamp(d, time)[i] != 'T'
    {
      assert Timestamp(d, time)[i] == date[i];
    }
  }

  /**
   * `temperature_corrected_voltage`: below 25 °C the voltage is raised by
   * 1.5 mV per degree under 25; at 25 °C or above it is unchanged.
   */
  function CorrectedVoltage(voltage: real, tempC: real): (v: real)
    ensures v >= voltage && (v == voltage <==> tempC >= 25.0)
  {
    if tempC < 25.0 then voltage + (25.0 - tempC) * 0.0015 else voltage
  }

  /**
   * The correction never lowers a voltage, changes it exactly below 25 °C,
   * grows as the temperature falls, and is continuous at 25 °C.
   */
  lemma CorrectionShape(voltage: real, t1: real, t2: real)
    requires t1 <= t2
    ensures CorrectedVoltage(voltage, t1) >= CorrectedVoltage(voltage, t2) >= voltage
    ensures CorrectedVoltage(voltage, t2) == voltage <==> t2 >= 25.0
    ensures CorrectedVoltage(voltage, t1) - CorrectedVoltage(voltage, t2) <= (t2 - t1) * 0.0015
  {
  }
}
