/** Calendar dates as `datetime.date` treats them: the proleptic Gregorian calendar for the years 1 to
    9999, day ordinals (`toordinal`), weekdays, and the `%Y-%m-%d` text of `strftime` and `strptime`. */
module Dates {
  import opened Base
  import opened Text

  datatype Date = Date(year: nat, month: nat, day: nat)

  const MinYear := 1
  const MaxYear := 9999

  predicate IsLeap(y: int)
  {
    y % 4 == 0 && (y % 100 != 0 || y % 400 == 0)
  }

  function DaysInMonth(y: int, m: int): nat
    requires 1 <= m <= 12
  {
    if m == 2 then (if IsLeap(y) then 29 else 28)
    else if m == 4 || m == 6 || m == 9 || m == 11 then 30
    else 31
  }

  function DaysInYear(y: int): nat
  {
    if IsLeap(y) then 366 else 365
  }

  /** A date the `datetime.date` constructor accepts. */
  predicate Valid(d: Date)
  {
    MinYear <= d.year <= MaxYear && 1 <= d.month <= 12 && 1 <= d.day <= DaysInMonth(d.year, d.month)
  }

  /** Days in the years before year `y` (`_days_before_year`). */
  function DaysBeforeYear(y: int): int
    requires y >= 1
  {
    var y1 := y - 1;
    y1 * 365 + y1 / 4 - y1 / 100 + y1 / 400
  }

  /** Days in the months before month `m` of year `y` (`_days_before_month`: the table of a common year,
      one more from March on in a leap year). */
  function DaysBeforeMonth(y: int, m: int): nat
    requires 1 <= m <= 12
  {
    var table := [0, 31, 59, 90, 120, 151, 181, 212, 243, 273, 304, 334];
    table[m - 1] + (if m > 2 && IsLeap(y) then 1 else 0)
  }

  /** `date.toordinal()`: day 1 is the first of January of year 1. */
  function ToOrdinal(d: Date): int
    requires Valid(d)
  {
    DaysBeforeYear(d.year) + DaysBeforeMonth(d.year, d.month) + d.day
  }

  /** `date.weekday()`: Monday is 0 and Sunday is 6. */
  function Weekday(d: Date): (w: nat)
    requires Valid(d)
    ensures w < 7
  {
    (ToOrdinal(d) + 6) % 7
  }

  /** The following day, within the supported range. */
  function NextDay(d: Date): (e: Date)
    requires Valid(d) && d != Date(MaxYear, 12, 31)
    ensures Valid(e)
  {
    if d.day < DaysInMonth(d.year, d.month) then Date(d.year, d.month, d.day + 1)
    else if d.month < 12 then Date(d.year, d.month + 1, 1)
    else Date(d.year + 1, 1, 1)
  }

  /** A year's days come straight after the days before it. */
  lemma DaysBeforeYearStep(y: int)
    requires y >= 1
    ensures DaysBeforeYear(y + 1) == DaysBeforeYear(y) + DaysInYear(y)
  {
    DivStep4(y);
    DivStep100(y);
    DivStep400(y);
    var d4, d100, d400 := y / 4 - (y - 1) / 4, y / 100 - (y - 1) / 100, y / 400 - (y - 1) / 400;
    assert DaysBeforeYear(y + 1) == DaysBeforeYear(y) + 365 + d4 - d100 + d400;
    CenturyDivisible(y);
  }

  /** A multiple of 400 is a multiple of 100, and a multiple of 100 one of 4. */
  lemma CenturyDivisible(y: int)
    ensures y % 400 == 0 ==> y % 100 == 0
    ensures y % 100 == 0 ==> y % 4 == 0
  {
    if y % 400 == 0 {
      var k := y / 400;
      var t := 4 * k - y / 100;
      assert y == 400 * k;
      assert y % 100 == 100 * t;
    }
    if y % 100 == 0 {
      var k := y / 100;
      var t := 25 * k - y / 4;
      assert y == 100 * k;
      assert y % 4 == 4 * t;
    }
  }

  lemma DivStep4(y: int)
    ensures y / 4 == (y - 1) / 4 + (if y % 4 == 0 then 1 else 0)
  {
  }

  lemma DivStep100(y: int)
    ensures y / 100 == (y - 1) / 100 + (if y % 100 == 0 then 1 else 0)
  {
  }

  lemma DivStep400(y: int)
    ensures y / 400 == (y - 1) / 400 + (if y % 400 == 0 then 1 else 0)
  {
  }

  /** A month's days come straight after the days before it, and December ends the year. */
  lemma DaysBeforeMonthStep(y: int, m: int)
    requires 1 <= m <= 12
    ensures m < 12 ==> DaysBeforeMonth(y, m + 1) == DaysBeforeMonth(y, m) + DaysInMonth(y, m)
    ensures m == 12 ==> DaysBeforeMonth(y, m) + DaysInMonth(y, m) == DaysInYear(y)
  {
  }

  /** The ordinal counts days: the next day has the next ordinal. */
  lemma NextDayOrdinal(d: Date)
    requires Valid(d) && d != Date(MaxYear, 12, 31)
    ensures ToOrdinal(NextDay(d)) == ToOrdinal(d) + 1
  {
    DaysBeforeMonthStep(d.year, d.month);
    if d.day == DaysInMonth(d.year, d.month) && d.month == 12 {
      DaysBeforeYearStep(d.year);
    }
  }

  /** The weekdays cycle with period seven. */
  lemma NextDayWeekday(d: Date)
    requires Valid(d) && d != Date(MaxYear, 12, 31)
    ensures Weekday(NextDay(d)) == (Weekday(d) + 1) % 7
  {
    NextDayOrdinal(d);
    ModSuccessor(ToOrdinal(d) + 6);
  }

  lemma ModSuccessor(x: int)
    ensures (x + 1) % 7 == (x % 7 + 1) % 7
  {
  }

  /** Calendar order. */
  predicate Before(a: Date, b: Date)
  {
    a.year < b.year
    || (a.year == b.year && (a.month < b.month || (a.month == b.month && a.day < b.day)))
  }

  lemma {:induction false} DaysBeforeYearMonotone(y: int, z: int)
    requires 1 <= y <= z
    ensures DaysBeforeYear(y) + 365 * (z - y) <= DaysBeforeYear(z)
    decreases z - y
  {
    if y < z {
      DaysBeforeYearStep(y);
      DaysBeforeYearMonotone(y + 1, z);
    }
  }

  lemma {:induction false} DaysBeforeMonthMonotone(y: int, m: int, n: int)
    requires 1 <= m < n <= 12
    ensures DaysBeforeMonth(y, m) + DaysInMonth(y, m) <= DaysBeforeMonth(y, n)
    decreases n - m
  {
    DaysBeforeMonthStep(y, m);
    if m + 1 < n {
      DaysBeforeMonthMonotone(y, m + 1, n);
    }
  }

  /** Ordinals follow the calendar: an earlier date has a smaller ordinal, so the ordinal is one-to-one
      and the difference of two ordinals is negative exactly when the first date is the earlier one. */
  lemma OrdinalMonotone(a: Date, b: Date)
    requires Valid(a) && Valid(b) && Before(a, b)
    ensures ToOrdinal(a) < ToOrdinal(b)
  {
    if a.year < b.year {
      DaysBeforeYearStep(a.year);
      DaysBeforeYearMonotone(a.year + 1, b.year);
      YearEnd(a);
    } else if a.month < b.month {
      DaysBeforeMonthMonotone(a.year, a.month, b.month);
    }
  }

  /** Every date of a year lies within that year's days. */
  lemma YearEnd(d: Date)
    requires Valid(d)
    ensures DaysBeforeMonth(d.year, d.month) + d.day <= DaysInYear(d.year)
  {
    DaysBeforeMonthStep(d.year, d.month);
    if d.month < 12 {
      DaysBeforeMonthMonotone(d.year, d.month, 12);
      DaysBeforeMonthStep(d.year, 12);
    }
  }

  lemma OrdinalInjective(a: Date, b: Date)
    requires Valid(a) && Valid(b)
    ensures ToOrdinal(a) == ToOrdinal(b) ==> a == b
  {
    if Before(a, b) {
      OrdinalMonotone(a, b);
    } else if Before(b, a) {
      OrdinalMonotone(b, a);
    }
  }

  /** Ordinal 1 is 0001-01-01. */
  lemma Epoch()
    ensures ToOrdinal(Date(1, 1, 1)) == 1
  {
    assert DaysBeforeYear(1) == 0;
    assert DaysBeforeMonth(1, 1) == 0;
  }

  /** 2024-10-13 was a Sunday. */
  lemma KnownDays()
    ensures ToOrdinal(Date(2024, 10, 13)) == 739172
    ensures Weekday(Date(2024, 10, 13)) == 6
  {
    assert DaysBeforeYear(2024) == 738885;
    assert DaysBeforeMonth(2024, 10) == 274;
    var o := ToOrdinal(Date(2024, 10, 13));
    assert o == 739172;
    assert (o + 6) % 7 == 6;
  }

  // ---------------------------------------------------------------------------------------------------
  // Text

  /** Two decimal digits, zero-padded (`%m`, `%d`). */
  function TwoDigits(n: nat): (s: string)
    requires n < 100
    ensures |s| == 2 && AllDigits(s) && DecimalValue(s) == n
  {
    var s := [('0' as int + n / 10) as char, ('0' as int + n % 10) as char];
    assert s[..1] == [s[0]] && [s[0]][..0] == [];
    assert DecimalValue(s[..1]) == n / 10;
    s
  }

  /** Decimal digits without padding: `%Y` as a CPython that hands it to glibc's `strftime` writes
      it. CPython releases that pad `%Y` to four digits themselves (python/cpython issue 120713)
      write years below 1000 differently; the years 1000 to 9999 come out the same either way. */
  function DecimalText(n: nat): (s: string)
    ensures |s| >= 1 && AllDigits(s) && DecimalValue(s) == n
    ensures n < 10 ==> |s| == 1
    ensures 10 <= n < 100 ==> |s| == 2
    ensures 100 <= n < 1000 ==> |s| == 3
    ensures 1000 <= n < 10000 ==> |s| == 4
    decreases n
  {
    if n < 10 then
      var s := [('0' as int + n) as char];
      assert s[..0] == [];
      s
    else
      var s := DecimalText(n / 10) + [('0' as int + n % 10) as char];
      assert s[..|s| - 1] == DecimalText(n / 10);
      s
  }

  /** `date.strftime('%Y-%m-%d')`. */
  function FormatDate(d: Date): string
    requires Valid(d)
  {
    DecimalText(d.year) + "-" + TwoDigits(d.month) + "-" + TwoDigits(d.day)
  }

  predicate InRange(c: char, lo: char, hi: char)
  {
    lo <= c <= hi
  }

  /** What the month group of `strptime`'s pattern, `1[0-2]|0[1-9]|[1-9]`, followed by `-`, consumes
      at the start of `r`: the length of the month, or none. */
  function MonthLength(r: string): (n: Option<nat>)
    ensures n.Some? ==> 1 <= n.value < |r| && r[n.value] == '-' && AllDigits(r[..n.value])
  {
    if |r| >= 3 && r[0] == '1' && InRange(r[1], '0', '2') && r[2] == '-' then Some(2)
    else if |r| >= 3 && r[0] == '0' && InRange(r[1], '1', '9') && r[2] == '-' then Some(2)
    else if |r| >= 2 && InRange(r[0], '1', '9') && r[1] == '-' then Some(1)
    else None
  }

  /** What the day group, `3[01]|[12]\d|0[1-9]|[1-9]| [1-9]`, consumes at the start of `t`: the first
      alternative that matches wins, since nothing follows it in the pattern. */
  function DayLength(t: string): (n: Option<nat>)
    ensures n.Some? ==> 1 <= n.value <= |t|
  {
    if |t| >= 2 && t[0] == '3' && InRange(t[1], '0', '1') then Some(2)
    else if |t| >= 2 && InRange(t[0], '1', '2') && IsDigit(t[1]) then Some(2)
    else if |t| >= 2 && t[0] == '0' && InRange(t[1], '1', '9') then Some(2)
    else if |t| >= 1 && InRange(t[0], '1', '9') then Some(1)
    else if |t| >= 2 && t[0] == ' ' && InRange(t[1], '1', '9') then Some(2)
    else None
  }

  /** The value of a day group: `int()` ignores the leading blank of ` 5`. */
  function DayValue(t: string): nat
  {
    if |t| == 2 && t[0] == ' ' && IsDigit(t[1]) then t[1] as int - '0' as int
    else if AllDigits(t) then DecimalValue(t)
    else 0
  }

  /** A date if it is valid, otherwise the `ValueError` of the `date` constructor. */
  function Checked(d: Date): (r: Result<Date, Error>)
    ensures r.Ok? <==> Valid(d)
    ensures r.Ok? ==> r.value == d
    ensures r.Err? ==> r.error == ValueError
  {
    if Valid(d) then Ok(d) else Err(ValueError)
  }

  /** `datetime.strptime(s, '%Y-%m-%d').date()`: a four-digit year, `-`, a month, `-`, a day, and
      nothing after; then the result must be a valid date. Every failure is a `ValueError`. */
  function ParseDate(s: string): (r: Result<Date, Error>)
    ensures r.Ok? ==> Valid(r.value)
    ensures r.Err? ==> r.error == ValueError
  {
    if |s| < 5 || !AllDigits(s[..4]) || s[4] != '-' then Err(ValueError)
    else ParseMonthDay(DecimalValue(s[..4]), s[5..])
  }

  function ParseMonthDay(year: nat, r: string): (res: Result<Date, Error>)
    ensures res.Ok? ==> Valid(res.value)
    ensures res.Err? ==> res.error == ValueError
  {
    match MonthLength(r)
    case None => Err(ValueError)
    case Some(ml) =>
      var t := r[ml + 1..];
      if DayLength(t) != Some(|t|) then Err(ValueError)
      else Checked(Date(year, DecimalValue(r[..ml]), DayValue(t)))
  }

  /** Reading a text made of a year, a month and a day field. */
  lemma ParseFields(ys: string, ms: string, ds: string)
    requires |ys| == 4 && AllDigits(ys)
    requires MonthLength(ms + "-" + ds) == Some(|ms|)
    ensures ParseDate(ys + "-" + ms + "-" + ds)
      == if DayLength(ds) == Some(|ds|) then Checked(Date(DecimalValue(ys), DecimalValue(ms), DayValue(ds))) else Err(ValueError)
  {
    ParseYear(ys, ms + "-" + ds);
    FieldsAssoc(ys, ms, ds);
    ParseMonthDayFields(DecimalValue(ys), ms, ds);
  }

  lemma FieldsAssoc(ys: string, ms: string, ds: string)
    ensures ys + "-" + ms + "-" + ds == ys + "-" + (ms + "-" + ds)
  {
  }

  lemma ParseYear(ys: string, r: string)
    requires |ys| == 4 && AllDigits(ys)
    ensures ParseDate(ys + "-" + r) == ParseMonthDay(DecimalValue(ys), r)
  {
    var s := ys + "-" + r;
    assert s[..4] == ys;
    assert s[5..] == r;
  }

  lemma ParseMonthDayFields(year: nat, ms: string, ds: string)
    requires MonthLength(ms + "-" + ds) == Some(|ms|)
    ensures ParseMonthDay(year, ms + "-" + ds)
      == if DayLength(ds) == Some(|ds|) then Checked(Date(year, DecimalValue(ms), DayValue(ds))) else Err(ValueError)
  {
    var r := ms + "-" + ds;
    assert r[..|ms|] == ms && r[|ms| + 1..] == ds;
    ParseMonthDayAt(year, r, |ms|, ms, ds);
  }

  lemma ParseMonthDayAt(year: nat, r: string, ml: nat, ms: string, ds: string)
    requires MonthLength(r) == Some(ml) && ml + 1 <= |r| && r[..ml] == ms && r[ml + 1..] == ds
    ensures ParseMonthDay(year, r)
      == if DayLength(ds) == Some(|ds|) then Checked(Date(year, DecimalValue(ms), DayValue(ds))) else Err(ValueError)
  {
  }

  /** Dates of years 1000 to 9999 survive the round trip through their text. */
  lemma ParseFormat(d: Date)
    requires Valid(d) && d.year >= 1000
    ensures ParseDate(FormatDate(d)) == Ok(d)
  {
    var y, m, dd := DecimalText(d.year), TwoDigits(d.month), TwoDigits(d.day);
    assert FormatDate(d) == y + "-" + m + "-" + dd;
    var r := m + "-" + dd;
    assert r[2] == '-';
    assert MonthLength(r) == Some(2);
    assert DayLength(dd) == Some(2);
    ParseFields(y, m, dd);
  }

  // ---------------------------------------------------------------------------------------------------
  // Examples

  /** The digits of the example years and fields read back as their values. */
  lemma Year2024()
    ensures AllDigits("2024") && DecimalValue("2024") == 2024
  {
    assert "2024"[..3] == "202" && "202"[..2] == "20" && "20"[..1] == "2" && "2"[..0] == [];
  }

  lemma Year2023()
    ensures AllDigits("2023") && DecimalValue("2023") == 2023
  {
    assert "2023"[..3] == "202" && "202"[..2] == "20" && "20"[..1] == "2" && "2"[..0] == [];
  }

  lemma Year0000()
    ensures AllDigits("0000") && DecimalValue("0000") == 0
  {
    assert "0000"[..3] == "000" && "000"[..2] == "00" && "00"[..1] == "0" && "0"[..0] == [];
  }

  lemma TwoDigitValues()
    ensures DecimalValue("01") == 1 && DecimalValue("02") == 2 && DecimalValue("29") == 29
  {
    assert "01"[..1] == "0" && "02"[..1] == "0" && "29"[..1] == "2";
    assert "0"[..0] == [] && "2"[..0] == [];
  }

  /** A day the month does not have is rejected: 2024 is a leap year, 2023 is not. */
  lemma ParseRejectsFebruary30()
    ensures ParseDate("2024-02-30").Err?
  {
    Year2024();
    TwoDigitValues();
    assert MonthLength("02-30") == Some(2);
    ParseFields("2024", "02", "30");
    assert "2024" + "-" + "02" + "-" + "30" == "2024-02-30";
  }

  lemma ParseRejectsCommonLeapDay()
    ensures ParseDate("2023-02-29").Err?
  {
    Year2023();
    TwoDigitValues();
    assert MonthLength("02-29") == Some(2);
    ParseFields("2023", "02", "29");
    assert "2023" + "-" + "02" + "-" + "29" == "2023-02-29";
  }

  /** Months outside the pattern's alternatives are rejected. */
  lemma ParseRejectsMonths()
    ensures ParseDate("2024-13-01").Err?
    ensures ParseDate("2024-00-10").Err?
  {
    Year2024();
    assert "2024-13-01"[..4] == "2024" && "2024-13-01"[5..] == "13-01";
    assert "2024-00-10"[..4] == "2024" && "2024-00-10"[5..] == "00-10";
  }

  /** A day of 32 matches only its first digit, and a third day digit is left over: both leave
      unconverted data. */
  lemma ParseRejectsDay32()
    ensures ParseDate("2024-01-32").Err?
  {
    Year2024();
    assert MonthLength("01-32") == Some(2);
    ParseFields("2024", "01", "32");
    Day32Text();
  }

  lemma Day32Text()
    ensures "2024" + "-" + "01" + "-" + "32" == "2024-01-32"
  {
  }

  lemma ParseRejectsTrailingDigit()
    ensures ParseDate("2024-01-011").Err?
  {
    Year2024();
    assert MonthLength("01-011") == Some(2);
    ParseFields("2024", "01", "011");
    assert "2024" + "-" + "01" + "-" + "011" == "2024-01-011";
  }

  /** A year of other than four digits is rejected, and so is year zero. */
  lemma ParseRejectsShortYear()
    ensures ParseDate("24-01-01").Err?
  {
    assert "24-01-01"[..4] == "24-0";
    assert "24-0"[2] == '-';
  }

  lemma ParseRejectsYearZero()
    ensures ParseDate("0000-01-01").Err?
  {
    Year0000();
    TwoDigitValues();
    assert MonthLength("01-01") == Some(2);
    ParseFields("0000", "01", "01");
    assert "0000" + "-" + "01" + "-" + "01" == "0000-01-01";
  }

  /** Text that `strptime` accepts: a leap day, and one-digit fields. */
  lemma ParseAcceptsLeapDay()
    ensures ParseDate("2024-02-29") == Ok(Date(2024, 2, 29))
  {
    Year2024();
    TwoDigitValues();
    assert MonthLength("02-29") == Some(2);
    assert DayLength("29") == Some(2);
    ParseFields("2024", "02", "29");
    LeapDayText();
  }

  lemma LeapDayText()
    ensures "2024" + "-" + "02" + "-" + "29" == "2024-02-29"
  {
  }

  lemma ParseAcceptsShortFields()
    ensures ParseDate("2024-1-5") == Ok(Date(2024, 1, 5))
  {
    Year2024();
    assert MonthLength("1-5") == Some(1);
    assert DayLength("5") == Some(1);
    assert DecimalValue("1") == 1 by { assert "1"[..0] == []; }
    assert DecimalValue("5") == 5 by { assert "5"[..0] == []; }
    ParseFields("2024", "1", "5");
    assert "2024" + "-" + "1" + "-" + "5" == "2024-1-5";
  }
}
