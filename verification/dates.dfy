/**
 * The two-stage date-of-birth check of the use cases: the regular expression
 * `^\d{4}-\d{2}-\d{2}$` followed by Go's `time.Parse` with layout
 * "2006-01-02", together with the Gregorian calendar it enforces.
 */
module Dates {
  import opened Wrappers

  datatype Date = Date(year: int, month: int, day: int)

  /** RE2's `\d` and Go's `isDigit`: an ASCII decimal digit. */
  predicate IsDigit(c: char) {
    '0' <= c <= '9'
  }

  predicate AllDigits(s: string) {
    forall i :: 0 <= i < |s| ==> IsDigit(s[i])
  }

  function DigitValue(c: char): nat
    requires IsDigit(c)
  {
    c as int - '0' as int
  }

  function DigitChar(n: nat): (c: char)
    requires n < 10
    ensures IsDigit(c) && DigitValue(c) == n
  {
    ('0' as int + n) as char
  }

  /** Decimal value of a digit string, accumulated left to right as Go's `atoi` does. */
  function Number(s: string): nat
    requires AllDigits(s)
  {
    if s == [] then 0 else Number(s[..|s| - 1]) * 10 + DigitValue(s[|s| - 1])
  }

  function Pow10(n: nat): nat {
    if n == 0 then 1 else 10 * Pow10(n - 1)
  }

  /** The `width` low-order decimal digits of `n`, zero padded. */
  function Digits(n: nat, width: nat): (s: string)
    ensures |s| == width && AllDigits(s)
  {
    if width == 0 then [] else Digits(n / 10, width - 1) + [DigitChar(n % 10)]
  }

  lemma {:induction false} NumberOfDigits(n: nat, width: nat)
    requires n < Pow10(width)
    ensures Number(Digits(n, width)) == n
  {
    if width > 0 {
      var s := Digits(n, width);
      assert s[..|s| - 1] == Digits(n / 10, width - 1);
      NumberOfDigits(n / 10, width - 1);
    }
  }

  lemma {:induction false} DigitsOfNumber(s: string)
    requires AllDigits(s)
    ensures Number(s) < Pow10(|s|)
    ensures Digits(Number(s), |s|) == s
  {
    if s != [] {
      var init := s[..|s| - 1];
      DigitsOfNumber(init);
      var n := Number(s);
      assert n / 10 == Number(init) && n % 10 == DigitValue(s[|s| - 1]);
      assert s == init + [s[|s| - 1]];
    }
  }

  /** The value of a two-digit string, positionally. */
  lemma TwoDigits(s: string)
    requires |s| == 2 && AllDigits(s)
    ensures Number(s) == 10 * DigitValue(s[0]) + DigitValue(s[1])
  {
    var one := s[..1];
    assert one[..0] == [];
    assert Number(one) == DigitValue(s[0]);
  }

  /** The value of a four-digit string, positionally. */
  lemma FourDigits(s: string)
    requires |s| == 4 && AllDigits(s)
    ensures Number(s) == 1000 * DigitValue(s[0]) + 100 * DigitValue(s[1]) + 10 * DigitValue(s[2]) + DigitValue(s[3])
  {
    var one, two, three := s[..1], s[..2], s[..3];
    assert one[..0] == [] && two[..1] == one && three[..2] == two;
    assert Number(one) == DigitValue(s[0]);
    assert Number(two) == 10 * DigitValue(s[0]) + DigitValue(s[1]);
    assert Number(three) == 100 * DigitValue(s[0]) + 10 * DigitValue(s[1]) + DigitValue(s[2]);
  }

  /**
   * `^\d{4}-\d{2}-\d{2}$` as Go's regexp package reads it: `\d` is ASCII
   * only and `$` (without the multi-line flag) anchors at the end of the text.
   */
  predicate MatchesDobPattern(s: string): (b: bool)
    ensures b <==>
      && |s| == 10 && s[4] == '-' && s[7] == '-'
      && forall i :: 0 <= i < 10 && i != 4 && i != 7 ==> IsDigit(s[i])
  {
    && |s| == 10
    && AllDigits(s[0..4]) && s[4] == '-'
    && AllDigits(s[5..7]) && s[7] == '-'
    && AllDigits(s[8..10])
  }

  /** Go's `isLeap`: the Gregorian rule (only non-negative years reach it here). */
  predicate IsLeap(year: int) {
    year % 4 == 0 && (year % 100 != 0 || year % 400 == 0)
  }

  /** Go's `daysIn`: length of `month` in `year`. */
  function DaysIn(month: int, year: int): (n: int)
    requires 1 <= month <= 12
    ensures 28 <= n <= 31
    ensures n == 29 <==> month == 2 && IsLeap(year)
  {
    if month == 2 then (if IsLeap(year) then 29 else 28)
    else if month == 4 || month == 6 || month == 9 || month == 11 then 30
    else 31
  }

  /** A calendar date that the four-digit year of the layout can express. */
  predicate ValidDate(d: Date) {
    && 0 <= d.year <= 9999
    && 1 <= d.month <= 12
    && 1 <= d.day <= DaysIn(d.month, d.year)
  }

  /** The text of a date in layout "2006-01-02". */
  function FormatDate(d: Date): (s: string)
    requires ValidDate(d)
    ensures |s| == 10
  {
    Digits(d.year, 4) + "-" + Digits(d.month, 2) + "-" + Digits(d.day, 2)
  }

  /** A string that is the layout text of some real calendar date. */
  ghost predicate IsCalendarDate(s: string) {
    exists d :: ValidDate(d) && FormatDate(d) == s
  }

  /**
   * `time.Parse("2006-01-02", s)`: the year element takes four bytes that must
   * all be digits, each `-` must match literally, month and day take exactly
   * two digits, no text may follow, the month must lie in 1..12 and the day in
   * 1..DaysIn(month, year). `None` stands for any parse error.
   */
  function ParseDate(s: string): (r: Option<Date>)
    ensures r.Some? ==> MatchesDobPattern(s) && ValidDate(r.value)
    ensures r.Some? ==> r.value == Date(Number(s[0..4]), Number(s[5..7]), Number(s[8..10]))
    ensures r.None? && MatchesDobPattern(s) ==> !ValidDate(Date(Number(s[0..4]), Number(s[5..7]), Number(s[8..10])))
  {
    // "2006": four bytes, the first a digit, all of them read by atoi
    if |s| < 4 || !AllDigits(s[0..4]) then None
    // "-"
    else if |s| < 5 || s[4] != '-' then None
    // "01": exactly two digits
    else if |s| < 7 || !IsDigit(s[5]) || !IsDigit(s[6]) then None
    // "-"
    else if |s| < 8 || s[7] != '-' then None
    // "02": exactly two digits
    else if |s| < 10 || !IsDigit(s[8]) || !IsDigit(s[9]) then None
    // no text may follow the layout
    else if |s| > 10 then None
    else
      var year, month, day := Number(s[0..4]), Number(s[5..7]), Number(s[8..10]);
      DigitsOfNumber(s[0..4]);
      assert Pow10(4) == 10000;
      if month < 1 || 12 < month then None
      else if day < 1 || day > DaysIn(month, year) then None
      else Some(Date(year, month, day))
  }

  /** Parsing the text of a valid date gives the date back. */
  lemma ParseFormatRoundTrip(d: Date)
    requires ValidDate(d)
    ensures ParseDate(FormatDate(d)) == Some(d)
  {
    var s := FormatDate(d);
    assert Pow10(4) == 10000 && Pow10(2) == 100;
    NumberOfDigits(d.year, 4);
    NumberOfDigits(d.month, 2);
    NumberOfDigits(d.day, 2);
    assert s[0..4] == Digits(d.year, 4);
    assert s[5..7] == Digits(d.month, 2);
    assert s[8..10] == Digits(d.day, 2);
  }

  /** Whatever parses is a valid date whose text is exactly the input. */
  lemma FormatParseRoundTrip(s: string)
    requires ParseDate(s).Some?
    ensures ValidDate(ParseDate(s).value)
    ensures FormatDate(ParseDate(s).value) == s
  {
    var d := ParseDate(s).value;
    var y, m, dd := s[0..4], s[5..7], s[8..10];
    DigitsOfNumber(y);
    DigitsOfNumber(m);
    DigitsOfNumber(dd);
    assert s == y + "-" + m + "-" + dd;
  }

  /** The parse step accepts exactly the texts of real calendar dates. */
  lemma ParseAcceptsExactlyCalendarDates(s: string)
    ensures ParseDate(s).Some? <==> IsCalendarDate(s)
  {
    if ParseDate(s).Some? {
      FormatParseRoundTrip(s);
    }
    if IsCalendarDate(s) {
      var d :| ValidDate(d) && FormatDate(d) == s;
      ParseFormatRoundTrip(d);
    }
  }

  /** A leap day is accepted in a year divisible by 4 but not by 100. */
  lemma LeapDayAccepted()
    ensures ParseDate("2024-02-29") == Some(Date(2024, 2, 29))
  {
    var s := "2024-02-29";
    FourDigits(s[0..4]);
    TwoDigits(s[5..7]);
    TwoDigits(s[8..10]);
    assert Number(s[0..4]) == 2024 && Number(s[5..7]) == 2 && Number(s[8..10]) == 29;
  }

  /** A leap day is accepted in a year divisible by 400. */
  lemma CenturyLeapDayAccepted()
    ensures ParseDate("2000-02-29") == Some(Date(2000, 2, 29))
  {
    var s := "2000-02-29";
    FourDigits(s[0..4]);
    TwoDigits(s[5..7]);
    TwoDigits(s[8..10]);
  }

  /** A leap day is rejected in a common year and in a century year not divisible by 400. */
  lemma NonLeapDayRejected()
    ensures ParseDate("2023-02-29") == None
    ensures ParseDate("1900-02-29") == None
  {
    var common, century := "2023-02-29", "1900-02-29";
    FourDigits(common[0..4]);
    FourDigits(century[0..4]);
    TwoDigits(century[5..7]);
    TwoDigits(century[8..10]);
    assert Number(century[0..4]) == 1900 && !IsLeap(1900);
  }

  /** Months and days out of range are rejected even though the pattern matches. */
  lemma OutOfRangeRejected()
    ensures ParseDate("2024-13-01") == None && MatchesDobPattern("2024-13-01")
    ensures ParseDate("2023-13-40") == None
    ensures ParseDate("2024-04-31") == None
  {
  }
}
