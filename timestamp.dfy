/**
  The clock reading `save` stamps into a storage name, and Python's
  `datetime.strftime(now, "%d-%m-%Y-%H-%M-%S")` as a pure function of it.
  `Parse` reads a stamp back; it exists to show that the stamp loses
  nothing: formatting is injective on valid readings.
 */
module Timestamp {
  import opened Wrappers

  /** One reading of `datetime.now()`, down to the second (the format has
      no field for the microseconds, so they are not part of the reading). */
  datatype Clock = Clock(year: int, month: int, day: int, hour: int, minute: int, second: int)

  predicate IsLeapYear(year: int)
  {
    year % 4 == 0 && (year % 100 != 0 || year % 400 == 0)
  }

  function DaysInMonth(year: int, month: int): int
    requires 1 <= month <= 12
  {
    if month == 2 then (if IsLeapYear(year) then 29 else 28)
    else if month == 4 || month == 6 || month == 9 || month == 11 then 30
    else 31
  }

  /** The readings a `datetime` can hold: years 1 to 9999, a real calendar
      day, a 24-hour clock, and no leap second. */
  predicate Valid(c: Clock)
  {
    && 1 <= c.year <= 9999
    && 1 <= c.month <= 12
    && 1 <= c.day <= DaysInMonth(c.year, c.month)
    && 0 <= c.hour < 24
    && 0 <= c.minute < 60
    && 0 <= c.second < 60
  }

  function Pow10(n: nat): nat
  {
    if n == 0 then 1 else 10 * Pow10(n - 1)
  }

  predicate IsDigit(ch: char)
  {
    '0' <= ch <= '9'
  }

  predicate AllDigits(s: string)
  {
    forall i :: 0 <= i < |s| ==> IsDigit(s[i])
  }

  function DigitChar(d: int): char
    requires 0 <= d < 10
  {
    ('0' as int + d) as char
  }

  function DigitValue(ch: char): int
    requires IsDigit(ch)
  {
    ch as int - '0' as int
  }

  /** `n` in decimal, padded on the left with zeros to `width` digits, as
      the `%d`, `%m`, `%Y`, `%H`, `%M` and `%S` directives print it. */
  function ZeroPad(n: nat, width: nat): (r: string)
    requires n < Pow10(width)
    ensures |r| == width && AllDigits(r)
  {
    if width == 0 then ""
    else ZeroPad(n / 10, width - 1) + [DigitChar(n % 10)]
  }

  /** The number a string of decimal digits denotes. */
  function DecimalValue(s: string): nat
    requires AllDigits(s)
  {
    if s == [] then 0
    else DecimalValue(s[..|s| - 1]) * 10 + DigitValue(s[|s| - 1])
  }

  lemma {:induction false} DecimalValueOfZeroPad(n: nat, width: nat)
    requires n < Pow10(width)
    ensures DecimalValue(ZeroPad(n, width)) == n
  {
    if width > 0 {
      var s := ZeroPad(n, width);
      assert s[..|s| - 1] == ZeroPad(n / 10, width - 1);
      DecimalValueOfZeroPad(n / 10, width - 1);
    }
  }

  lemma {:induction false} ZeroPadOfDecimalValue(s: string)
    requires AllDigits(s)
    ensures DecimalValue(s) < Pow10(|s|)
    ensures ZeroPad(DecimalValue(s), |s|) == s
  {
    if s != [] {
      var init, last := s[..|s| - 1], s[|s| - 1];
      ZeroPadOfDecimalValue(init);
      var v, d := DecimalValue(init), DigitValue(last);
      assert (v * 10 + d) / 10 == v;
      assert (v * 10 + d) % 10 == d;
      assert DigitChar(d) == last;
      assert s == init + [last];
    }
  }

  /** The layout of a stamp: 19 characters, `-` at offsets 2, 5, 10, 13 and
      16 and a decimal digit everywhere else (DD-MM-YYYY-HH-MM-SS). */
  predicate WellFormed(s: string)
  {
    && |s| == 19
    && forall i :: 0 <= i < |s| ==>
         if i == 2 || i == 5 || i == 10 || i == 13 || i == 16 then s[i] == '-' else IsDigit(s[i])
  }

  /** `datetime.strftime(c, "%d-%m-%Y-%H-%M-%S")`. */
  function Format(c: Clock): (r: string)
    requires Valid(c)
    ensures WellFormed(r)
  {
    ZeroPad(c.day, 2) + "-" + ZeroPad(c.month, 2) + "-" + ZeroPad(c.year, 4) + "-"
      + ZeroPad(c.hour, 2) + "-" + ZeroPad(c.minute, 2) + "-" + ZeroPad(c.second, 2)
  }

  lemma WellFormedFields(s: string)
    requires WellFormed(s)
    ensures AllDigits(s[..2]) && AllDigits(s[3..5]) && AllDigits(s[6..10])
    ensures AllDigits(s[11..13]) && AllDigits(s[14..16]) && AllDigits(s[17..])
  {
  }

  /** Reads a stamp back into a clock reading; `None` when `s` does not
      have the layout or denotes no valid reading. */
  function Parse(s: string): (r: Option<Clock>)
    ensures r.Some? ==> Valid(r.value) && WellFormed(s)
  {
    if !WellFormed(s) then None
    else
      WellFormedFields(s);
      var c := Clock(DecimalValue(s[6..10]), DecimalValue(s[3..5]), DecimalValue(s[..2]),
                     DecimalValue(s[11..13]), DecimalValue(s[14..16]), DecimalValue(s[17..]));
      if Valid(c) then Some(c) else None
  }

  /** Every valid reading is recovered from its stamp. */
  lemma ParseFormat(c: Clock)
    requires Valid(c)
    ensures Parse(Format(c)) == Some(c)
  {
    var s := Format(c);
    assert s[..2] == ZeroPad(c.day, 2);
    assert s[3..5] == ZeroPad(c.month, 2);
    assert s[6..10] == ZeroPad(c.year, 4);
    assert s[11..13] == ZeroPad(c.hour, 2);
    assert s[14..16] == ZeroPad(c.minute, 2);
    assert s[17..] == ZeroPad(c.second, 2);
    DecimalValueOfZeroPad(c.day, 2);
    DecimalValueOfZeroPad(c.month, 2);
    DecimalValueOfZeroPad(c.year, 4);
    DecimalValueOfZeroPad(c.hour, 2);
    DecimalValueOfZeroPad(c.minute, 2);
    DecimalValueOfZeroPad(c.second, 2);
  }

  lemma StampSlices(s: string)
    requires |s| == 19
    requires s[2] == s[5] == s[10] == s[13] == s[16] == '-'
    ensures s == s[..2] + "-" + s[3..5] + "-" + s[6..10] + "-" + s[11..13] + "-" + s[14..16] + "-" + s[17..]
  {
  }

  /** Every stamp that parses is the stamp of what it parses to. */
  lemma FormatParse(s: string)
    requires Parse(s).Some?
    ensures Format(Parse(s).value) == s
  {
    var c := Parse(s).value;
    WellFormedFields(s);
    ZeroPadOfDecimalValue(s[..2]);
    ZeroPadOfDecimalValue(s[3..5]);
    ZeroPadOfDecimalValue(s[6..10]);
    ZeroPadOfDecimalValue(s[11..13]);
    ZeroPadOfDecimalValue(s[14..16]);
    ZeroPadOfDecimalValue(s[17..]);
    assert ZeroPad(c.day, 2) == s[..2];
    assert ZeroPad(c.month, 2) == s[3..5];
    assert ZeroPad(c.year, 4) == s[6..10];
    assert ZeroPad(c.hour, 2) == s[11..13];
    assert ZeroPad(c.minute, 2) == s[14..16];
    assert ZeroPad(c.second, 2) == s[17..];
    assert s[2] == '-' && s[5] == '-' && s[10] == '-' && s[13] == '-' && s[16] == '-';
    StampSlices(s);
  }

  /** Two different readings never give the same stamp, so two saves of the
      same name collide only within the same second. */
  lemma FormatInjective(c1: Clock, c2: Clock)
    requires Valid(c1) && Valid(c2)
    ensures Format(c1) == Format(c2) <==> c1 == c2
  {
    ParseFormat(c1);
    ParseFormat(c2);
  }
}
