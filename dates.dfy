/**
 * The date helpers of app.js (282-299) over the proleptic Gregorian
 * calendar that JavaScript's `Date` uses: `addDaysYmd`, `formatDateYmd`,
 * `toIsoUtc`, and the instant `new Date(...)` reads from the text
 * `toIsoUtc` builds.
 *
 * A calendar date is a `Civil` triple. Its day number counts days from
 * 1970-01-01 (`EpochDay`); stepping one day forward or back (`NextDay`,
 * `PrevDay`) moves that number by exactly one, and the day number is
 * one-to-one on valid dates, so "n days after" has a single answer.
 */
module Dates {
  import opened Common
  import opened Text

  datatype Civil = Civil(year: int, month: int, day: int)

  predicate IsLeapYear(y: int) {
    y % 4 == 0 && (y % 100 != 0 || y % 400 == 0)
  }

  function DaysInMonth(y: int, m: int): (n: int)
    requires 1 <= m <= 12
    ensures 28 <= n <= 31
  {
    if m == 2 then (if IsLeapYear(y) then 29 else 28)
    else if m == 4 || m == 6 || m == 9 || m == 11 then 30
    else 31
  }

  predicate Valid(c: Civil) {
    1 <= c.month <= 12 && 1 <= c.day <= DaysInMonth(c.year, c.month)
  }

  /** Days from 1 January of year `y` to the first of month `m`. */
  function DaysBeforeMonth(y: int, m: int): int
    requires 1 <= m <= 12
  {
    (if m > 2 && IsLeapYear(y) then 1 else 0) +
    (if m == 1 then 0 else if m == 2 then 31 else if m == 3 then 59
     else if m == 4 then 90 else if m == 5 then 120 else if m == 6 then 151
     else if m == 7 then 181 else if m == 8 then 212 else if m == 9 then 243
     else if m == 10 then 273 else if m == 11 then 304 else 334)
  }

  /** Leap years among 1..y, shifted by a constant for y < 1 (floor division). */
  function LeapYearsThrough(y: int): int {
    y / 4 - y / 100 + y / 400
  }

  /** Days from 1970-01-01 to 1 January of year `y`; negative before 1970. */
  function DaysBeforeYear(y: int): int {
    365 * (y - 1970) + LeapYearsThrough(y - 1) - LeapYearsThrough(1969)
  }

  /** The day number of a date: 0 for 1970-01-01. */
  function EpochDay(c: Civil): int
    requires 1 <= c.month <= 12
  {
    DaysBeforeYear(c.year) + DaysBeforeMonth(c.year, c.month) + c.day - 1
  }

  lemma FloorStep(y: int)
    ensures y / 4 - (y - 1) / 4 == (if y % 4 == 0 then 1 else 0)
    ensures y / 100 - (y - 1) / 100 == (if y % 100 == 0 then 1 else 0)
    ensures y / 400 - (y - 1) / 400 == (if y % 400 == 0 then 1 else 0)
  {
  }

  /** A year has 366 days when it is a leap year and 365 otherwise. */
  lemma YearLength(y: int)
    ensures DaysBeforeYear(y + 1) == DaysBeforeYear(y) + (if IsLeapYear(y) then 366 else 365)
  {
    FloorStep(y);
    DivisibilityChain(y);
    var leaps := LeapYearsThrough(y) - LeapYearsThrough(y - 1);
    assert DaysBeforeYear(y + 1) - DaysBeforeYear(y) == 365 + leaps;
    assert leaps == (y / 4 - (y - 1) / 4) - (y / 100 - (y - 1) / 100) + (y / 400 - (y - 1) / 400);
  }

  lemma DivisibilityChain(y: int)
    ensures y % 400 == 0 ==> y % 100 == 0
    ensures y % 100 == 0 ==> y % 4 == 0
  {
    if y % 400 == 0 {
      var k := 4 * (y / 400);
      assert y == 100 * k;
      assert y / 100 == k;
    }
    if y % 100 == 0 {
      var k := 25 * (y / 100);
      assert y == 4 * k;
      assert y / 4 == k;
    }
  }

  /** The next calendar date, rolling over month and year ends. */
  function NextDay(c: Civil): (r: Civil)
    requires Valid(c)
    ensures Valid(r) && EpochDay(r) == EpochDay(c) + 1
  {
    if c.day < DaysInMonth(c.year, c.month) then Civil(c.year, c.month, c.day + 1)
    else if c.month < 12 then Civil(c.year, c.month + 1, 1)
    else YearLength(c.year); Civil(c.year + 1, 1, 1)
  }

  /** The previous calendar date, rolling back over month and year starts. */
  function PrevDay(c: Civil): (r: Civil)
    requires Valid(c)
    ensures Valid(r) && EpochDay(r) == EpochDay(c) - 1
  {
    if c.day > 1 then Civil(c.year, c.month, c.day - 1)
    else if c.month > 1 then Civil(c.year, c.month - 1, DaysInMonth(c.year, c.month - 1))
    else YearLength(c.year - 1); Civil(c.year - 1, 12, 31)
  }

  /** `n` days after `c` (before it when `n` is negative), one day at a time. */
  function AddCivil(c: Civil, n: int): (r: Civil)
    requires Valid(c)
    ensures Valid(r) && EpochDay(r) == EpochDay(c) + n
    decreases if n < 0 then -n else n
  {
    if n == 0 then c
    else if n > 0 then AddCivil(NextDay(c), n - 1)
    else AddCivil(PrevDay(c), n + 1)
  }

  /** Every year has at least 365 days, so later years start later. */
  lemma {:induction false} DaysBeforeYearGrows(a: int, b: int)
    requires a <= b
    ensures DaysBeforeYear(a) + 365 * (b - a) <= DaysBeforeYear(b)
    decreases b - a
  {
    if a < b {
      DaysBeforeYearGrows(a, b - 1);
      YearLength(b - 1);
    }
  }

  /** A date's day number lies inside its year. */
  lemma DayInYear(c: Civil)
    requires Valid(c)
    ensures DaysBeforeYear(c.year) <= EpochDay(c) < DaysBeforeYear(c.year + 1)
  {
    YearLength(c.year);
  }

  /** `a` comes before `b` on the calendar. */
  predicate Before(a: Civil, b: Civil) {
    || a.year < b.year
    || (a.year == b.year && a.month < b.month)
    || (a.year == b.year && a.month == b.month && a.day < b.day)
  }

  /** The day number grows with the calendar order. */
  lemma EpochDayMonotone(a: Civil, b: Civil)
    requires Valid(a) && Valid(b) && Before(a, b)
    ensures EpochDay(a) < EpochDay(b)
  {
    if a.year < b.year {
      DayInYear(a);
      DayInYear(b);
      DaysBeforeYearGrows(a.year + 1, b.year);
    } else if a.month < b.month {
      assert DaysBeforeMonth(a.year, a.month) + DaysInMonth(a.year, a.month)
          <= DaysBeforeMonth(a.year, b.month);
    }
  }

  /** Two valid dates share a day number exactly when they are the same date. */
  lemma EpochDayInjective(a: Civil, b: Civil)
    requires Valid(a) && Valid(b)
    ensures EpochDay(a) == EpochDay(b) <==> a == b
  {
    if Before(a, b) {
      EpochDayMonotone(a, b);
    } else if Before(b, a) {
      EpochDayMonotone(b, a);
    }
  }

  /** `AddCivil(c, n)` is the one valid date whose day number is `n` more than `c`'s. */
  lemma AddCivilIsUnique(c: Civil, n: int, target: Civil)
    requires Valid(c) && Valid(target)
    ensures AddCivil(c, n) == target <==> EpochDay(target) == EpochDay(c) + n
  {
    EpochDayInjective(AddCivil(c, n), target);
  }

  // ---------------------------------------------------------------------
  // Decimal fields

  predicate IsDigit(ch: char) {
    '0' <= ch <= '9'
  }

  predicate AllDigits(s: string) {
    forall k :: 0 <= k < |s| ==> IsDigit(s[k])
  }

  /** A non-empty run of decimal digits: what `Number` turns into an integer here. */
  predicate IsDecimal(s: string) {
    s != [] && AllDigits(s)
  }

  function DigitsValue(s: string): nat
    requires AllDigits(s)
  {
    if s == [] then 0 else 10 * DigitsValue(s[..|s| - 1]) + (s[|s| - 1] as int - '0' as int)
  }

  function DigitChar(d: nat): (ch: char)
    requires d < 10
    ensures IsDigit(ch)
  {
    ('0' as int + d) as char
  }

  /** `n` in decimal, padded with zeros on the left to at least `width` digits. */
  function Digits(n: nat, width: nat): (r: string)
    ensures AllDigits(r) && |r| >= width
    decreases n, width
  {
    if n == 0 && width == 0 then []
    else Digits(n / 10, if width == 0 then 0 else width - 1) + [DigitChar(n % 10)]
  }

  /** Printing the value of a digit string at its own width gives the string back. */
  lemma {:induction false} DigitsRoundTrip(s: string)
    requires AllDigits(s)
    ensures Digits(DigitsValue(s), |s|) == s
  {
    if s != [] {
      var init, last := s[..|s| - 1], s[|s| - 1];
      DigitsRoundTrip(init);
      var v := DigitsValue(s);
      assert v / 10 == DigitsValue(init) && v % 10 == last as int - '0' as int;
      assert s == init + [last];
    }
  }

  function Pow10(k: nat): (p: nat)
    ensures p >= 1
  {
    if k == 0 then 1 else 10 * Pow10(k - 1)
  }

  lemma {:induction false} DigitsValueBound(s: string)
    requires AllDigits(s)
    ensures DigitsValue(s) < Pow10(|s|)
  {
    if s != [] {
      DigitsValueBound(s[..|s| - 1]);
    }
  }

  /** Reading back a printed number gives the number. */
  lemma {:induction false} DigitsValueOfDigits(n: nat, width: nat)
    ensures DigitsValue(Digits(n, width)) == n
    decreases n, width
  {
    if !(n == 0 && width == 0) {
      var init := Digits(n / 10, if width == 0 then 0 else width - 1);
      var s := init + [DigitChar(n % 10)];
      DigitsValueOfDigits(n / 10, if width == 0 then 0 else width - 1);
      assert s[..|s| - 1] == init;
    }
  }

  /** A number below `10^width` is printed in exactly `width` digits. */
  lemma {:induction false} DigitsLength(n: nat, width: nat)
    requires n < Pow10(width)
    ensures |Digits(n, width)| == width
    decreases n, width
  {
    if !(n == 0 && width == 0) {
      DigitsLength(n / 10, width - 1);
    }
  }

  // ---------------------------------------------------------------------
  // `ymd.split("-")`

  /** `s.split(sep)` for a one-character separator. */
  function Split(s: string, sep: char): (parts: seq<string>)
    ensures |parts| >= 1
  {
    if s == [] then [[]]
    else
      var rest := Split(s[1..], sep);
      if s[0] == sep then [[]] + rest else [[s[0]] + rest[0]] + rest[1..]
  }

  lemma {:induction false} SplitWithout(a: string, sep: char)
    requires sep !in a
    ensures Split(a, sep) == [a]
  {
    if a != [] {
      assert sep !in a[1..];
      SplitWithout(a[1..], sep);
      assert [a[0]] + a[1..] == a;
    }
  }

  lemma {:induction false} SplitAt(a: string, sep: char, b: string)
    requires sep !in a
    ensures Split(a + [sep] + b, sep) == [a] + Split(b, sep)
  {
    var s := a + [sep] + b;
    if a == [] {
      assert s[0] == sep && s[1..] == b;
    } else {
      assert s[0] == a[0] && s[1..] == a[1..] + [sep] + b;
      assert sep !in a[1..];
      SplitAt(a[1..], sep, b);
      assert [a[0]] + a[1..] == a;
    }
  }

  // ---------------------------------------------------------------------
  // `addDaysYmd` (app.js:286-291)

  /** The three fields `ymd.split("-").map(Number)` reads, when they are decimal. */
  function ParseYmd(ymd: string): (r: Option<(nat, nat, nat)>)
    ensures '-' !in ymd ==> r.None?
    ensures r.Some? ==>
      '-' in ymd && IsDecimal(ymd[..FirstIndex(ymd, '-')])
      && r.value.0 == DigitsValue(ymd[..FirstIndex(ymd, '-')])
  {
    var parts := Split(ymd, '-');
    assert '-' !in ymd ==> |parts| == 1 by {
      if '-' !in ymd {
        SplitWithout(ymd, '-');
      }
    }
    assert '-' in ymd ==> parts[0] == ymd[..FirstIndex(ymd, '-')] by {
      if '-' in ymd {
        var k := FirstIndex(ymd, '-');
        assert ymd == ymd[..k] + ['-'] + ymd[k + 1..];
        SplitAt(ymd[..k], '-', ymd[k + 1..]);
      }
    }
    if |parts| >= 3 && IsDecimal(parts[0]) && IsDecimal(parts[1]) && IsDecimal(parts[2])
    then Some((DigitsValue(parts[0]), DigitsValue(parts[1]), DigitsValue(parts[2])))
    else None
  }

  /**
   * The date `Date.UTC(year, month - 1, day)` stands for: a year from 0 to 99
   * means 1900 to 1999, a month outside 1..12 carries into the year, and a
   * day outside the month carries into the neighbouring months.
   */
  function UtcDate(year: nat, month: nat, day: nat): (c: Civil)
    ensures Valid(c)
    ensures EpochDay(c) == EpochDay(UtcMonthStart(year, month)) + day - 1
  {
    AddCivil(UtcMonthStart(year, month), day - 1)
  }

  /** The first day of the month `Date.UTC(year, month - 1, 1)` lands in. */
  function UtcMonthStart(year: nat, month: nat): (c: Civil)
    ensures Valid(c) && c.day == 1
    ensures 12 * c.year + c.month - 1 == 12 * (if year <= 99 then 1900 + year else year) + month - 1
  {
    var y := if year <= 99 then 1900 + year else year;
    var m0 := month - 1;
    Civil(y + m0 / 12, m0 % 12 + 1, 1)
  }

  /** A year from 0 to 99 names the same date as that year of the twentieth century. */
  lemma UtcTwoDigitYears(year: nat, month: nat, day: nat)
    requires year <= 99
    ensures UtcDate(year, month, day) == UtcDate(1900 + year, month, day)
  {
    assert UtcMonthStart(year, month) == UtcMonthStart(1900 + year, month);
  }

  /** A `Date` holds at most 8.64e15 ms either side of 1970, i.e. 10^8 days. */
  const MaxEpochDay: int := 100000000

  predicate InDateRange(e: int) {
    -MaxEpochDay <= e <= MaxEpochDay
  }

  /** The year as `toISOString` prints it: four digits, or a sign and six digits. */
  function YearText(y: int): (r: string)
    ensures 0 <= y <= 9999 ==> |r| == 4 && AllDigits(r) && DigitsValue(r) == y
    ensures !(0 <= y <= 9999) ==>
      |r| >= 7 && r[0] == (if y < 0 then '-' else '+')
      && AllDigits(r[1..]) && DigitsValue(r[1..]) == (if y < 0 then -y else y)
  {
    if 0 <= y <= 9999 then
      DigitsValueOfDigits(y, 4);
      DigitsLength(y, 4);
      Digits(y, 4)
    else
      var a := if y < 0 then -y else y;
      DigitsValueOfDigits(a, 6);
      var r := (if y < 0 then "-" else "+") + Digits(a, 6);
      assert r[1..] == Digits(a, 6);
      r
  }

  /** `date.toISOString().split("T")[0]`. */
  function IsoDate(c: Civil): (r: string)
    requires Valid(c)
    ensures 0 <= c.year <= 9999 ==> IsFullDate(r) && DateOf(r) == c
  {
    if 0 <= c.year <= 9999 then PrintedFullDate(c); IsoFields(c)
    else IsoFields(c)
  }

  function IsoFields(c: Civil): string
    requires Valid(c)
  {
    YearText(c.year) + "-" + Digits(c.month, 2) + "-" + Digits(c.day, 2)
  }

  lemma PrintedFullDate(c: Civil)
    requires Valid(c) && 0 <= c.year <= 9999
    ensures IsFullDate(IsoFields(c)) && DateOf(IsoFields(c)) == c
  {
    var y, m, d := YearText(c.year), Digits(c.month, 2), Digits(c.day, 2);
    assert Pow10(2) == 100;
    DigitsLength(c.month, 2);
    DigitsLength(c.day, 2);
    DigitsValueOfDigits(c.month, 2);
    DigitsValueOfDigits(c.day, 2);
    DateFields(y, m, d);
  }

  /** Where the three fields of a joined `y-m-d` text stand. */
  lemma DateFields(y: string, m: string, d: string)
    requires |y| == 4 && |m| == 2 && |d| == 2
    ensures var r := y + "-" + m + "-" + d;
      |r| == 10 && r[..4] == y && r[4] == '-' && r[5..7] == m && r[7] == '-' && r[8..] == d
  {
  }


  /**
   * `addDaysYmd(ymd, days)`. `None` is the `RangeError` `toISOString` throws
   * on an invalid date: a field that is not a number, or a start or result
   * outside the range a `Date` can hold.
   */
  function AddDaysYmd(ymd: string, days: int): (r: Option<string>)
    ensures r.Some? ==> ParseYmd(ymd).Some?
  {
    match ParseYmd(ymd)
    case None => None
    case Some((y, m, d)) =>
      var start := UtcDate(y, m, d);
      if InDateRange(EpochDay(start)) && InDateRange(EpochDay(start) + days)
      then Some(IsoDate(AddCivil(start, days)))
      else None
  }

  /** RFC 3339 (section 5.6) `full-date`: `YYYY-MM-DD` naming a real calendar date. */
  predicate IsFullDate(s: string) {
    && |s| == 10 && s[4] == '-' && s[7] == '-'
    && AllDigits(s[..4]) && AllDigits(s[5..7]) && AllDigits(s[8..])
    && Valid(Civil(DigitsValue(s[..4]), DigitsValue(s[5..7]), DigitsValue(s[8..])))
  }

  function DateOf(s: string): (c: Civil)
    requires IsFullDate(s)
    ensures Valid(c)
  {
    Civil(DigitsValue(s[..4]), DigitsValue(s[5..7]), DigitsValue(s[8..]))
  }

  lemma ParseFullDate(s: string)
    requires IsFullDate(s)
    ensures ParseYmd(s) == Some((DigitsValue(s[..4]), DigitsValue(s[5..7]), DigitsValue(s[8..])))
  {
    var y, m, d := s[..4], s[5..7], s[8..];
    assert s == y + ['-'] + (m + ['-'] + d);
    assert '-' !in y && '-' !in m && '-' !in d by {
      assert forall k :: 0 <= k < 4 ==> IsDigit(y[k]);
      assert forall k :: 0 <= k < 2 ==> IsDigit(m[k]) && IsDigit(d[k]);
    }
    SplitAt(y, '-', m + ['-'] + d);
    SplitAt(m, '-', d);
    SplitWithout(d, '-');
  }

  /** A full date's ISO text is the date text itself (years 0..9999 print as four digits). */
  lemma IsoDateOfFullDate(s: string)
    requires IsFullDate(s)
    ensures IsoDate(DateOf(s)) == s
  {
    var y, m, d := s[..4], s[5..7], s[8..];
    DigitsValueBound(y);
    assert Pow10(4) == 10000;
    DigitsRoundTrip(y);
    DigitsRoundTrip(m);
    DigitsRoundTrip(d);
    assert YearText(DigitsValue(y)) == y;
    assert IsoDate(DateOf(s)) == y + "-" + m + "-" + d;
    assert s == y + "-" + m + "-" + d;
  }

  /** Years 100..9999 lie well inside the range a `Date` holds. */
  lemma FourDigitYearsInRange(c: Civil)
    requires Valid(c) && 100 <= c.year <= 9999
    ensures InDateRange(EpochDay(c))
    ensures -1000000 <= EpochDay(c) <= 3000000
  {
    DayInYear(c);
    DaysBeforeYearGrows(100, c.year);
    DaysBeforeYearGrows(c.year + 1, 10000);
  }

  lemma FullDateYear(s: string)
    requires IsFullDate(s)
    ensures DateOf(s).year <= 9999
  {
    DigitsValueBound(s[..4]);
    assert Pow10(4) == 10000;
  }

  /** For a date with a year of 100 or more, `Date.UTC` reads back that same date. */
  lemma UtcDateOfValid(c: Civil)
    requires Valid(c) && c.year >= 100
    ensures UtcDate(c.year, c.month, c.day) == c
  {
    var first := UtcMonthStart(c.year, c.month);
    assert (c.month - 1) / 12 == 0 && (c.month - 1) % 12 + 1 == c.month;
    assert first == Civil(c.year, c.month, 1);
    assert EpochDay(c) == EpochDay(first) + (c.day - 1);
    AddCivilIsUnique(first, c.day - 1, c);
  }

  /** What `AddDaysYmd` computes once the fields have been read. */
  lemma AddDaysYmdFrom(ymd: string, days: int, y: nat, m: nat, d: nat)
    requires ParseYmd(ymd) == Some((y, m, d))
    ensures var start := UtcDate(y, m, d);
      AddDaysYmd(ymd, days)
      == if InDateRange(EpochDay(start)) && InDateRange(EpochDay(start) + days)
         then Some(IsoDate(AddCivil(start, days))) else None
  {
  }

  /**
   * `addDaysYmd(d, n)` is the date `n` days after `d`: for a full date with
   * a year of 100 or more, and any valid `target` whose day number is `n`
   * more than `d`'s, the result is `target` printed, unless `target` is
   * beyond the range of a `Date`.
   */
  lemma AddDaysYmdIsDayCount(ymd: string, days: int, target: Civil)
    requires IsFullDate(ymd) && DateOf(ymd).year >= 100
    requires Valid(target) && EpochDay(target) == EpochDay(DateOf(ymd)) + days
    ensures AddDaysYmd(ymd, days) == if InDateRange(EpochDay(target)) then Some(IsoDate(target)) else None
  {
    var c := DateOf(ymd);
    ParseFullDate(ymd);
    AddDaysYmdFrom(ymd, days, c.year, c.month, c.day);
    UtcDateOfValid(c);
    FullDateYear(ymd);
    FourDigitYearsInRange(c);
    AddCivilIsUnique(c, days, target);
  }

  /**
   * For a full date with a year of 100 or more, `addDaysYmd` never throws
   * when moving by up to a million days: it returns the date that many days
   * later.
   */
  lemma AddDaysYmdNear(ymd: string, days: int)
    requires IsFullDate(ymd) && DateOf(ymd).year >= 100
    requires -1000000 <= days <= 1000000
    ensures AddDaysYmd(ymd, days) == Some(IsoDate(AddCivil(DateOf(ymd), days)))
  {
    FullDateYear(ymd);
    FourDigitYearsInRange(DateOf(ymd));
    AddDaysYmdIsDayCount(ymd, days, AddCivil(DateOf(ymd), days));
  }

  /** Adding zero days to a full date (year 100 or later) gives it back unchanged. */
  lemma AddDaysYmdZero(ymd: string)
    requires IsFullDate(ymd) && DateOf(ymd).year >= 100
    ensures AddDaysYmd(ymd, 0) == Some(ymd)
  {
    AddDaysYmdIsDayCount(ymd, 0, DateOf(ymd));
    FullDateYear(ymd);
    FourDigitYearsInRange(DateOf(ymd));
    IsoDateOfFullDate(ymd);
  }

  /**
   * `Date.UTC` reads a two-digit year as 19xx, so `addDaysYmd` moves a date in
   * the years 0..99 into the twentieth century even when adding no days.
   */
  lemma AddDaysYmdCenturyShift()
    ensures AddDaysYmd("0050-06-01", 0) == Some("1950-06-01")
  {
    var c := Civil(1950, 6, 1);
    ParseYmdExample();
    AddDaysYmdFrom("0050-06-01", 0, 50, 6, 1);
    assert UtcMonthStart(50, 6) == c;
    assert UtcDate(50, 6, 1) == AddCivil(c, 0) == c;
    FourDigitYearsInRange(c);
    IsoDateExample();
  }

  lemma ParseYmdExample()
    ensures ParseYmd("0050-06-01") == Some((50, 6, 1))
  {
    var s := "0050-06-01";
    assert s[..4] == "0050" && s[5..7] == "06" && s[8..] == "01";
    assert DigitsValue("0050") == 50 by {
      assert "0"[..0] == [] && DigitsValue("0") == 0;
      assert "00"[..1] == "0" && DigitsValue("00") == 0;
      assert "005"[..2] == "00" && DigitsValue("005") == 5;
      assert "0050"[..3] == "005";
    }
    assert DigitsValue("06") == 6 && DigitsValue("01") == 1 by {
      assert "0"[..0] == [] && DigitsValue("0") == 0;
      assert "06"[..1] == "0" && "01"[..1] == "0";
    }
    assert Valid(Civil(50, 6, 1));
    assert IsFullDate(s);
    ParseFullDate(s);
  }

  lemma IsoDateExample()
    ensures IsoDate(Civil(1950, 6, 1)) == "1950-06-01"
  {
    var c := Civil(1950, 6, 1);
    assert Valid(c);
    PrintedYear1950();
    PrintedJuneFirst();
    assert YearText(1950) == "1950";
    assert IsoFields(c) == "1950" + "-" + "06" + "-" + "01";
  }

  lemma PrintedYear1950()
    ensures Digits(1950, 4) == "1950"
  {
    assert Digits(0, 0) == [];
    assert Digits(1, 1) == "1";
    assert Digits(19, 2) == "19";
    assert Digits(195, 3) == "195";
  }

  lemma PrintedJuneFirst()
    ensures Digits(6, 2) == "06" && Digits(1, 2) == "01"
  {
    assert Digits(0, 0) == [] && Digits(0, 1) == "0";
  }

  // ---------------------------------------------------------------------
  // `formatDateYmd` (app.js:282-284)

  /** `dateStr.replaceAll("-", "")`. */
  function FormatDateYmd(s: string): (r: string)
    ensures '-' !in r
  {
    ReplaceAll(s, '-', "")
  }

  /** A full date loses exactly its two dashes: `YYYYMMDD`, eight digits. */
  lemma FormatDateYmdOfFullDate(s: string)
    requires IsFullDate(s)
    ensures FormatDateYmd(s) == s[..4] + s[5..7] + s[8..]
    ensures |FormatDateYmd(s)| == 8 && AllDigits(FormatDateYmd(s))
  {
    var y, m, d := s[..4], s[5..7], s[8..];
    assert s == y + "-" + m + "-" + d;
    DigitsHaveNoDash(y);
    DigitsHaveNoDash(m);
    DigitsHaveNoDash(d);
    DropDashes(y, m, d);
    var r := y + m + d;
    assert forall k :: 0 <= k < 8 ==> r[k] == if k < 4 then y[k] else if k < 6 then m[k - 4] else d[k - 6];
  }

  lemma DigitsHaveNoDash(s: string)
    requires AllDigits(s)
    ensures '-' !in s
  {
    forall k | 0 <= k < |s| ensures s[k] != '-' {
      assert IsDigit(s[k]);
    }
  }

  /** Dropping the dashes of `y-m-d` when the fields hold none. */
  lemma DropDashes(y: string, m: string, d: string)
    requires '-' !in y && '-' !in m && '-' !in d
    ensures ReplaceAll(y + "-" + m + "-" + d, '-', "") == y + m + d
  {
    var a := y + "-";
    var b := a + m;
    var c := b + "-";
    ReplaceAllHit('-', "");
    ReplaceAllAbsent(y, '-', "");
    ReplaceAllAbsent(m, '-', "");
    ReplaceAllAbsent(d, '-', "");
    ReplaceAllAppend(y, "-", '-', "");
    assert ReplaceAll(a, '-', "") == y;
    ReplaceAllAppend(a, m, '-', "");
    assert ReplaceAll(b, '-', "") == y + m;
    ReplaceAllAppend(b, "-", '-', "");
    assert ReplaceAll(c, '-', "") == y + m;
    ReplaceAllAppend(c, d, '-', "");
  }

  // ---------------------------------------------------------------------
  // `toIsoUtc` (app.js:297-299) and the instant `new Date(...)` reads

  /** `${noaaDateTime.replace(" ", "T")}:00Z` */
  function ToIsoUtc(t: string): (r: string)
    ensures ' ' !in t ==> r == t + ":00Z"
  {
    ReplaceFirst(t, ' ', "T") + ":00Z"
  }

  /** Two decimal digits whose value is below `bound`. */
  predicate IsField(s: string, bound: nat) {
    |s| == 2 && AllDigits(s) && DigitsValue(s) < bound
  }

  /** The prediction time NOAA returns with `time_zone=gmt`: `YYYY-MM-DD HH:MM`. */
  predicate IsNoaaDateTime(t: string) {
    && |t| == 16 && IsFullDate(t[..10]) && t[10] == ' ' && t[13] == ':'
    && IsField(t[11..13], 24) && IsField(t[14..], 60)
  }

  /** RFC 3339 (section 5.6) `date-time` with whole seconds and the offset `Z`. */
  predicate IsUtcDateTime(s: string) {
    && |s| == 20 && IsFullDate(s[..10]) && s[10] == 'T' && s[13] == ':' && s[16] == ':'
    && s[19] == 'Z' && IsField(s[11..13], 24) && IsField(s[14..16], 60) && IsField(s[17..19], 60)
  }

  /** A NOAA time becomes the RFC 3339 UTC date-time of the same minute, at second 00. */
  lemma ToIsoUtcOfNoaa(t: string)
    requires IsNoaaDateTime(t)
    ensures ToIsoUtc(t) == t[..10] + "T" + t[11..] + ":00Z"
    ensures IsUtcDateTime(ToIsoUtc(t))
  {
    assert ' ' !in t[..10] by {
      assert forall k :: 0 <= k < 10 ==> t[..10][k] == t[k];
      assert forall k :: 0 <= k < 4 ==> IsDigit(t[..10][..4][k]);
      assert forall k :: 0 <= k < 2 ==> IsDigit(t[..10][5..7][k]) && IsDigit(t[..10][8..][k]);
    }
    assert FirstIndex(t, ' ') == 10;
    var r := ToIsoUtc(t);
    var tail := "T" + t[11..] + ":00Z";
    assert r == t[..10] + tail;
    TimeFields(t[..10], tail);
    assert tail[1..3] == t[11..13] && tail[4..6] == t[14..] && tail[7..9] == "00";
    assert tail[0] == 'T' && tail[3] == ':' && tail[6] == ':' && tail[9] == 'Z';
    ZeroZero();
  }

  /**
   * The one form of ECMAScript's date time string format that `new Date(...)`
   * is given here: an RFC 3339 UTC date-time with whole seconds, or the same
   * with hour 24 at minute and second 00, which ECMAScript reads as the end
   * of the day.
   */
  predicate IsDateTimeString(s: string) {
    || IsUtcDateTime(s)
    || (|s| == 20 && IsFullDate(s[..10]) && s[10..] == "T24:00:00Z")
  }

  /**
   * Milliseconds since 1970-01-01T00:00:00Z of a date-time text, or `None`
   * where `new Date(...)` gives an invalid date.
   */
  function InstantOf(s: string): (ms: Option<int>)
    ensures ms.Some? <==> IsDateTimeString(s)
  {
    if IsDateTimeString(s) then
      assert AllDigits(s[11..13]) && AllDigits(s[14..16]) && AllDigits(s[17..19]) by {
        if !IsUtcDateTime(s) {
          var tail := s[10..];
          assert s[11..13] == tail[1..3] && s[14..16] == tail[4..6] && s[17..19] == tail[7..9];
        }
      }
      var day := EpochDay(DateOf(s[..10]));
      var h, mi, sec := DigitsValue(s[11..13]), DigitsValue(s[14..16]), DigitsValue(s[17..19]);
      Some((((day * 24 + h) * 60 + mi) * 60 + sec) * 1000)
    else None
  }

  /** The instant of a NOAA `YYYY-MM-DD HH:MM` time read as UTC, in milliseconds since 1970. */
  function NoaaInstant(t: string): int
    requires IsNoaaDateTime(t)
  {
    ((EpochDay(DateOf(t[..10])) * 24 + DigitsValue(t[11..13])) * 60 + DigitsValue(t[14..])) * 60000
  }

  /** Every NOAA time converts to a valid instant: the minute it names, in UTC. */
  lemma InstantOfNoaa(t: string)
    requires IsNoaaDateTime(t)
    ensures InstantOf(ToIsoUtc(t)) == Some(NoaaInstant(t))
  {
    ToIsoUtcOfNoaa(t);
    var r := ToIsoUtc(t);
    assert r[..10] == t[..10] && r[11..13] == t[11..13] && r[14..16] == t[14..] && r[17..19] == "00";
    assert DigitsValue("00") == 0 by {
      assert "00"[..1] == "0" && "0"[..0] == [];
    }
  }

  /** Midnight of a date is its day number in whole days of milliseconds. */
  const DayMs := 86400000

  /** Where the fields of `d + tail` stand, for a ten-character date and time. */
  lemma TimeFields(d: string, tail: string)
    requires |d| == 10 && |tail| == 10
    ensures var s := d + tail;
      |s| == 20 && s[..10] == d && s[10..] == tail && s[10] == tail[0] && s[13] == tail[3]
      && s[16] == tail[6] && s[19] == tail[9]
      && s[11..13] == tail[1..3] && s[14..16] == tail[4..6] && s[17..19] == tail[7..9]
  {
  }

  lemma ZeroZero()
    ensures "00"[..1] == "0" && AllDigits("00") && DigitsValue("00") == 0
  {
    assert "0"[..0] == [];
  }

  /** Hour 00 of a date is the start of its day. */
  lemma MidnightInstant(d: string)
    requires IsFullDate(d)
    ensures InstantOf(d + "T00:00:00Z") == Some(EpochDay(DateOf(d)) * DayMs)
  {
    var tail := "T00:00:00Z";
    TimeFields(d, tail);
    assert tail[1..3] == "00" && tail[4..6] == "00" && tail[7..9] == "00";
    ZeroZero();
    assert IsUtcDateTime(d + tail);
  }

  /** Hour 24 of a day is the instant at which the next day begins: midnight of the next date. */
  lemma EndOfDayIsNextMidnight(d: string)
    requires IsFullDate(d)
    ensures InstantOf(d + "T24:00:00Z") == Some(EpochDay(NextDay(DateOf(d))) * DayMs)
  {
    var tail := "T24:00:00Z";
    TimeFields(d, tail);
    assert tail[1..3] == "24" && tail[4..6] == "00" && tail[7..9] == "00";
    ZeroZero();
    assert DigitsValue("24") == 24 by {
      assert "24"[..1] == "2" && "2"[..0] == [];
    }
    var a := d + tail;
    assert IsDateTimeString(a);
    var day := EpochDay(DateOf(d));
    assert InstantOf(a) == Some((((day * 24 + 24) * 60 + 0) * 60 + 0) * 1000);
  }
}
