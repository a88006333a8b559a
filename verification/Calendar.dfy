/** The calendar of `timestamp_label` in src/logs.rs: from seconds since 1970 to
    a Gregorian date and time. */
module Calendar {

  datatype Date = Date(year: int, month: int, day: int)

  datatype Time = Time(hour: int, minute: int, second: int)

  // ----- The conversion

  /** Days since 1970-01-01 to a date, without tables. */
  function Civil(days: nat): Date {
    var z := days + 719468;
    var era := z / 146097;
    var dayOfEra := z - era * 146097;
    var yearPart := YearPart(dayOfEra);
    var dayOfYear := dayOfEra - (365 * yearPart + yearPart / 4 - yearPart / 100);
    var monthPart := (5 * dayOfYear + 2) / 153;
    var day := dayOfYear - (153 * monthPart + 2) / 5 + 1;
    var month := monthPart + if monthPart < 10 then 3 else -9;
    Date(yearPart + era * 400 + (if month <= 2 then 1 else 0), month, day)
  }

  function YearPart(dayOfEra: int): int { Squeezed(dayOfEra) / 365 }

  /** The day of the era without its leap days. */
  function Squeezed(dayOfEra: int): int { dayOfEra - dayOfEra / 1460 + dayOfEra / 36524 - dayOfEra / 146096 }

  function TimeOf(seconds: nat): Time {
    var daySeconds := seconds % 86400;
    Time(daySeconds / 3600, daySeconds % 3600 / 60, daySeconds % 60)
  }

  // ----- The calendar

  predicate IsLeap(year: int) { year % 4 == 0 && (year % 100 != 0 || year % 400 == 0) }

  function MonthLength(year: int, month: int): int {
    if month == 2 then if IsLeap(year) then 29 else 28
    else if month == 4 || month == 6 || month == 9 || month == 11 then 30
    else 31
  }

  function YearLength(year: int): int { if IsLeap(year) then 366 else 365 }

  predicate IsDate(date: Date) { 1 <= date.month <= 12 && 1 <= date.day <= MonthLength(date.year, date.month) }

  /** The days from 1970-01-01 to the first of January of `year`. */
  function DaysBeforeYear(year: int): int
    requires year >= 1970
    decreases year
  {
    if year == 1970 then 0 else DaysBeforeYear(year - 1) + YearLength(year - 1)
  }

  function DaysBeforeMonth(year: int, month: int): int
    requires 1 <= month <= 13
    decreases month
  {
    if month == 1 then 0 else DaysBeforeMonth(year, month - 1) + MonthLength(year, month - 1)
  }

  /** The number of a date, counted day by day from 1970-01-01. */
  function DayNumber(date: Date): int
    requires date.year >= 1970 && 1 <= date.month <= 12
  {
    DaysBeforeYear(date.year) + DaysBeforeMonth(date.year, date.month) + date.day - 1
  }

  function Tomorrow(date: Date): Date {
    if date.day < MonthLength(date.year, date.month) then Date(date.year, date.month, date.day + 1)
    else if date.month < 12 then Date(date.year, date.month + 1, 1)
    else Date(date.year + 1, 1, 1)
  }

  // ----- Years

  lemma {:induction false} YearsClosed(year: int)
    requires year >= 1970
    ensures DaysBeforeYear(year) == 365 * (year - 1970) + (year - 1) / 4 - (year - 1) / 100 + (year - 1) / 400 - 477
    decreases year
  {
    if year > 1970 {
      YearsClosed(year - 1);
      LeapStep(year - 1);
    }
  }

  lemma LeapStep(y: int)
    ensures y / 4 - y / 100 + y / 400 == (y - 1) / 4 - (y - 1) / 100 + (y - 1) / 400 + (if IsLeap(y) then 1 else 0)
  {
    Quarter(y);
    Century(y);
    Era(y);
    assert y == 100 * (y / 100) + y % 100;
    if y % 100 == 0 {
      Is4(y, 25 * (y / 100));
    }
    assert y == 400 * (y / 400) + y % 400;
    if y % 400 == 0 {
      Is100(y, 4 * (y / 400));
    }
  }

  lemma Quarter(y: int)
    ensures y / 4 == (y - 1) / 4 + (if y % 4 == 0 then 1 else 0)
  {
  }

  lemma Century(y: int)
    ensures y / 100 == (y - 1) / 100 + (if y % 100 == 0 then 1 else 0)
  {
  }

  lemma Era(y: int)
    ensures y / 400 == (y - 1) / 400 + (if y % 400 == 0 then 1 else 0)
  {
  }

  lemma Is4(y: int, q: int)
    requires y == 4 * q
    ensures y % 4 == 0
  {
  }

  lemma Is100(y: int, q: int)
    requires y == 100 * q
    ensures y % 100 == 0
  {
  }

  /** The days from the first of March of year 0 of an era to that of its year `k`. */
  function YearStart(k: int): int { 365 * k + k / 4 - k / 100 + k / 400 }

  lemma SqueezedStart(k: int)
    requires 0 <= k < 400
    ensures Squeezed(YearStart(k)) == 365 * k
    ensures YearStart(k) / 1460 == k / 4 && (k > 0 ==> YearStart(k) % 1460 != 0)
  {
    var c, m := k / 100, k % 100;
    var q, j := m / 4, m % 4;
    Quotients(k, c, q, j);
    assert YearStart(k) == 36500 * c + 365 * m + 25 * c + q - c;
    By1460(YearStart(k), 25 * c + q, 365 * j + 24 * c + q);
    By36524(YearStart(k), c, 365 * m + q);
  }

  lemma Quotients(k: int, c: int, q: int, j: int)
    requires 0 <= k < 400 && k == 100 * c + 4 * q + j && 0 <= j < 4 && 0 <= 4 * q + j < 100
    ensures k / 4 == 25 * c + q && k / 100 == c && k / 400 == 0
  {
  }

  lemma By1460(x: int, q: int, r: int)
    requires x == 1460 * q + r && 0 <= r < 1460
    ensures x / 1460 == q && x % 1460 == r
  {
  }

  lemma By36524(x: int, q: int, r: int)
    requires x == 36524 * q + r && 0 <= r < 36524
    ensures x / 36524 == q
  {
  }

  lemma {:induction false} SqueezedGrows(a: int, b: int)
    requires 0 <= a <= b
    ensures Squeezed(a) <= Squeezed(b)
    decreases b - a
  {
    hide Squeezed;
    if a < b {
      SqueezedGrows(a, b - 1);
      SqueezedStep(b);
    }
  }

  /** Where a quotient of 146096 grows, one of 36524 does too. */
  lemma SqueezedStep(b: int)
    requires b > 0
    ensures Squeezed(b - 1) <= Squeezed(b)
  {
    Step1460(b);
    Step36524(b);
    Step146096(b);
    assert b == 146096 * (b / 146096) + b % 146096;
    if b % 146096 == 0 {
      Is36524(b, 4 * (b / 146096));
    }
  }

  lemma Step1460(b: int)
    ensures b / 1460 == (b - 1) / 1460 + (if b % 1460 == 0 then 1 else 0)
  {
  }

  lemma Step36524(b: int)
    ensures b / 36524 == (b - 1) / 36524 + (if b % 36524 == 0 then 1 else 0)
  {
  }

  lemma Step146096(b: int)
    ensures b / 146096 == (b - 1) / 146096 + (if b % 146096 == 0 then 1 else 0)
  {
  }

  lemma Is36524(b: int, q: int)
    requires b == 36524 * q
    ensures b % 36524 == 0
  {
  }

  /** The year of the era that holds a day. */
  function YearWith(dayOfEra: int, k: int): (year: int)
    requires 0 <= k < 400 && YearStart(k) <= dayOfEra < 146097
    ensures k <= year < 400 && YearStart(year) <= dayOfEra < YearStart(year + 1)
    decreases 400 - k
  {
    if dayOfEra < YearStart(k + 1) then k else YearWith(dayOfEra, k + 1)
  }

  /** The division by squeezed years finds that year. */
  lemma YearPartIsRight(dayOfEra: int)
    requires 0 <= dayOfEra < 146097
    ensures YearPart(dayOfEra) == YearWith(dayOfEra, 0)
  {
    hide Squeezed, YearStart;
    EraStart(0);
    var k := YearWith(dayOfEra, 0);
    EraStart(k);
    SqueezedStart(k);
    SqueezedGrows(YearStart(k), dayOfEra);
    if k < 399 {
      SqueezedStart(k + 1);
      SqueezedGrows(dayOfEra, YearStart(k + 1) - 1);
      SqueezedLast(YearStart(k + 1));
    } else {
      SqueezedGrows(dayOfEra, 146096);
    }
    By365(Squeezed(dayOfEra), k);
  }

  lemma EraStart(k: int)
    requires 0 <= k < 400
    ensures 0 <= YearStart(k) && YearStart(0) == 0 && (k > 0 ==> YearStart(k) > 0) && YearStart(400) == 146097
    ensures k < 399 ==> YearStart(k + 1) < 146096
    ensures Squeezed(146096) == 145999
  {
  }

  lemma By365(x: int, q: int)
    requires 365 * q <= x < 365 * (q + 1)
    ensures x / 365 == q
  {
  }

  lemma SqueezedLast(day: int)
    requires 0 < day < 146096 && day % 1460 != 0
    ensures Squeezed(day - 1) < Squeezed(day)
  {
  }

  // ----- Months

  /** The first day of a month in a year that starts in March. */
  function MonthStart(monthPart: int): int { (153 * monthPart + 2) / 5 }

  lemma MonthPartIsRight(dayOfYear: int)
    requires 0 <= dayOfYear < 366
    ensures var m := (5 * dayOfYear + 2) / 153; 0 <= m < 12 && MonthStart(m) <= dayOfYear < MonthStart(m + 1)
  {
  }

  /** The months from March on, in days. */
  lemma MonthStarts()
    ensures MonthStart(0) == 0 && MonthStart(1) == 31 && MonthStart(2) == 61 && MonthStart(3) == 92
    ensures MonthStart(4) == 122
    ensures MonthStart(5) == 153 && MonthStart(6) == 184 && MonthStart(7) == 214 && MonthStart(8) == 245
    ensures MonthStart(9) == 275
    ensures MonthStart(10) == 306 && MonthStart(11) == 337 && MonthStart(12) == 367
  {
  }

  lemma MonthsFromMarch(year: int, m: int)
    requires 0 <= m < 12
    ensures var month := m + if m < 10 then 3 else -9;
            var y := if m < 10 then year else year + 1;
            && 1 <= month <= 12
            && (m < 10 ==> DaysBeforeMonth(y, month) == 59 + (if IsLeap(year) then 1 else 0) + MonthStart(m))
            && (m >= 10 ==> DaysBeforeMonth(y, month) == MonthStart(m) - 306)
            && (m < 11 ==> MonthLength(y, month) == MonthStart(m + 1) - MonthStart(m))
            && (m == 11 ==> MonthLength(y, month) == if IsLeap(year + 1) then 29 else 28)
  {
    MonthStarts();
    Januaries(year);
    Januaries(year + 1);
    if m >= 10 {
      assert m == 10 || m == 11;
    }
  }

  lemma Januaries(y: int)
    ensures DaysBeforeMonth(y, 1) == 0 && DaysBeforeMonth(y, 2) == 31
    ensures var l := if IsLeap(y) then 1 else 0;
            && DaysBeforeMonth(y, 3) == 59 + l && DaysBeforeMonth(y, 4) == 90 + l && DaysBeforeMonth(y, 5) == 120 + l
            && DaysBeforeMonth(y, 6) == 151 + l && DaysBeforeMonth(y, 7) == 181 + l && DaysBeforeMonth(y, 8) == 212 + l
            && DaysBeforeMonth(y, 9) == 243 + l && DaysBeforeMonth(y, 10) == 273 + l
                && DaysBeforeMonth(y, 11) == 304 + l
            && DaysBeforeMonth(y, 12) == 334 + l && DaysBeforeMonth(y, 13) == YearLength(y)
  {
  }

  // ----- The theorem

  lemma EraShift(era: int, k: int)
    requires 0 <= k <= 400
    ensures YearStart(400 * era + k) == 146097 * era + YearStart(k)
  {
    ShiftQuotients(era, k);
  }

  lemma ShiftQuotients(era: int, k: int)
    requires 0 <= k <= 400
    ensures (400 * era + k) / 4 == 100 * era + k / 4
    ensures (400 * era + k) / 100 == 4 * era + k / 100
    ensures (400 * era + k) / 400 == era + k / 400
  {
  }

  lemma {:induction false} YearStartsGrow(a: int, b: int)
    requires a <= b
    ensures YearStart(a) <= YearStart(b)
    decreases b - a
  {
  }

  /** The parts of a day number: its year from March, and its day in that year. */
  lemma Parts(days: nat) returns (year: int, dayOfYear: int)
    ensures days + 719468 == YearStart(year) + dayOfYear && 0 <= dayOfYear < YearStart(year + 1) - YearStart(year)
    ensures year >= 1969 && (year == 1969 ==> dayOfYear >= 306)
    ensures var m := (5 * dayOfYear + 2) / 153;
            var month := m + if m < 10 then 3 else -9;
            Civil(days) == Date(year + (if month <= 2 then 1 else 0), month, dayOfYear - MonthStart(m) + 1)
  {
    hide YearPart, YearStart, YearWith;
    var era := (days + 719468) / 146097;
    var dayOfEra := days + 719468 - era * 146097;
    ZeroStart();
    YearPartIsRight(dayOfEra);
    var k := YearWith(dayOfEra, 0);
    year, dayOfYear := 400 * era + k, dayOfEra - YearStart(k);
    EraShift(era, k);
    EraShift(era, k + 1);
    FirstYears(k);
    if year < 1969 {
      YearStartsGrow(year + 1, 1969);
    }
  }

  lemma ZeroStart()
    ensures YearStart(0) == 0 && YearStart(1969) == 719162
  {
  }

  lemma FirstYears(k: int)
    requires 0 <= k < 400
    ensures YearStart(k) == 365 * k + k / 4 - k / 100
  {
  }

  lemma YearOffsets(year: int)
    ensures year >= 1970 ==> DaysBeforeYear(year) + 59 + (if IsLeap(year) then 1 else 0) == YearStart(year) - 719468
    ensures year >= 1969 ==> DaysBeforeYear(year + 1) == YearStart(year) + 306 - 719468
  {
    LeapStep(year);
    if year >= 1970 {
      YearsClosed(year);
    }
    if year >= 1969 {
      YearsClosed(year + 1);
    }
  }

  lemma YearGap(year: int)
    ensures YearStart(year + 1) - YearStart(year) == 365 + (if IsLeap(year + 1) then 1 else 0)
  {
    LeapStep(year + 1);
  }

  lemma MonthsInYear(m: int)
    requires 0 <= m < 10
    ensures MonthStart(m + 1) <= 306
  {
  }

  /** The date is a date of the Gregorian calendar, and counting the days to it from
      1970-01-01 gives the day number that it was made from. */
  lemma CivilIsExact(days: nat)
    ensures Civil(days).year >= 1970 && IsDate(Civil(days))
    ensures DayNumber(Civil(days)) == days
  {
    hide YearPart, YearStart, MonthStart, IsDate, DayNumber;
    var year, dayOfYear := Parts(days);
    YearGap(year);
    MonthPartIsRight(dayOfYear);
    DateIsExact(year, dayOfYear, (5 * dayOfYear + 2) / 153);
  }

  lemma DateIsExact(year: int, dayOfYear: int, m: int)
    requires 0 <= m < 12 && MonthStart(m) <= dayOfYear < MonthStart(m + 1)
    requires dayOfYear < YearStart(year + 1) - YearStart(year) && year >= 1969 && (year == 1969 ==> dayOfYear >= 306)
    ensures var month := m + if m < 10 then 3 else -9;
            var date := Date(year + (if month <= 2 then 1 else 0), month, dayOfYear - MonthStart(m) + 1);
            date.year >= 1970 && IsDate(date) && DayNumber(date) == YearStart(year) + dayOfYear - 719468
  {
    hide YearStart, MonthStart, DaysBeforeMonth, DaysBeforeYear, IsLeap, MonthLength;
    MonthStarts();
    MonthsFromMarch(year, m);
    YearOffsets(year);
    YearGap(year);
    if m < 10 {
      MonthsInYear(m);
    }
  }

  /** The day after a date has the next number. */
  lemma TomorrowIsNext(date: Date)
    requires IsDate(date) && date.year >= 1970
    ensures IsDate(Tomorrow(date)) && DayNumber(Tomorrow(date)) == DayNumber(date) + 1
  {
    Januaries(date.year);
  }

  lemma {:induction false} YearsGrow(a: int, b: int)
    requires 1970 <= a < b
    ensures DaysBeforeYear(a) + YearLength(a) <= DaysBeforeYear(b)
    decreases b - a
  {
    if a + 1 < b {
      YearsGrow(a, b - 1);
    }
  }

  lemma {:induction false} MonthsGrow(year: int, a: int, b: int)
    requires 1 <= a < b <= 13
    ensures DaysBeforeMonth(year, a) + MonthLength(year, a) <= DaysBeforeMonth(year, b)
    decreases b - a
  {
    if a + 1 < b {
      MonthsGrow(year, a, b - 1);
    }
  }

  predicate Earlier(a: Date, b: Date) {
    a.year < b.year || (a.year == b.year && (a.month < b.month || (a.month == b.month && a.day < b.day)))
  }

  /** Earlier dates have smaller numbers, so different dates have different numbers. */
  lemma EarlierIsSmaller(a: Date, b: Date)
    requires IsDate(a) && IsDate(b) && 1970 <= a.year && 1970 <= b.year && Earlier(a, b)
    ensures DayNumber(a) < DayNumber(b)
  {
    hide MonthLength;
    if a.year < b.year {
      YearsGrow(a.year, b.year);
      MonthsGrow(a.year, a.month, 13);
      Januaries(a.year);
      if b.month > 1 {
        MonthsGrow(b.year, 1, b.month);
      }
      MonthIsLong(b.year, 1);
    } else if a.month < b.month {
      MonthsGrow(a.year, a.month, b.month);
    }
  }

  lemma MonthIsLong(year: int, month: int)
    ensures MonthLength(year, month) >= 28
  {
  }

  /** Consecutive days give consecutive dates. */
  lemma ConsecutiveDates(days: nat)
    ensures Civil(days + 1) == Tomorrow(Civil(days))
  {
    hide Civil, Tomorrow, DayNumber, IsDate;
    CivilIsExact(days);
    CivilIsExact(days + 1);
    TomorrowIsNext(Civil(days));
    var a, b := Civil(days + 1), Tomorrow(Civil(days));
    TomorrowYear(Civil(days));
    if Earlier(a, b) {
      EarlierIsSmaller(a, b);
    } else if Earlier(b, a) {
      EarlierIsSmaller(b, a);
    }
  }

  lemma TomorrowYear(date: Date)
    requires date.year >= 1970
    ensures Tomorrow(date).year >= 1970
  {
  }

  /** The time of the day and the day make up the seconds again. */
  lemma TimeIsExact(seconds: nat)
    ensures var t := TimeOf(seconds);
            && 0 <= t.hour < 24 && 0 <= t.minute < 60 && 0 <= t.second < 60
            && (((seconds / 86400) * 24 + t.hour) * 60 + t.minute) * 60 + t.second == seconds
  {
    var r := seconds % 86400;
    assert r == 3600 * (r / 3600) + r % 3600;
    assert r % 3600 == 60 * (r % 3600 / 60) + r % 3600 % 60;
    assert r % 3600 % 60 == r % 60 by {
      Minutes(r);
    }
  }

  lemma Minutes(r: int)
    requires 0 <= r
    ensures r % 3600 % 60 == r % 60
  {
  }
}
