/**
 The civil-date arithmetic of the ACME module (Hinnant's algorithm), checked against a
 Gregorian calendar that only knows month lengths, leap years and "the next day".
 */
module CivilDate {

  datatype Date = Date(year: int, month: int, day: int)

  // ----- The reference calendar -----

  predicate IsLeap(y: int) {
    y % 4 == 0 && (y % 100 != 0 || y % 400 == 0)
  }

  function DaysInMonth(y: int, m: int): int
    requires 1 <= m <= 12
  {
    if m == 2 then (if IsLeap(y) then 29 else 28)
    else if m == 4 || m == 6 || m == 9 || m == 11 then 30
    else 31
  }

  predicate ValidDate(d: Date) {
    1 <= d.month <= 12 && 1 <= d.day <= DaysInMonth(d.year, d.month)
  }

  function NextDay(d: Date): (n: Date)
    requires ValidDate(d)
    ensures ValidDate(n) && Before(d, n)
  {
    if d.day < DaysInMonth(d.year, d.month) then Date(d.year, d.month, d.day + 1)
    else if d.month < 12 then Date(d.year, d.month + 1, 1)
    else Date(d.year + 1, 1, 1)
  }

  /** The date `n` days after `d`, one day at a time. */
  function Advance(d: Date, n: nat): (r: Date)
    requires ValidDate(d)
    ensures ValidDate(r)
    decreases n
  {
    if n == 0 then d else Advance(NextDay(d), n - 1)
  }

  /** Calendar order. */
  predicate Before(a: Date, b: Date) {
    a.year < b.year ||
    (a.year == b.year && (a.month < b.month || (a.month == b.month && a.day < b.day)))
  }

  function YearLength(y: int): int { if IsLeap(y) then 366 else 365 }

  /** Days from the first day of year 0 to the first day of year `y`, counted year by year. */
  function DaysBeforeYear(y: int): int
    decreases if y < 0 then -y else y
  {
    if y == 0 then 0
    else if y > 0 then DaysBeforeYear(y - 1) + YearLength(y - 1)
    else DaysBeforeYear(y + 1) - YearLength(y)
  }

  function DaysBeforeMonth(y: int, m: int): int
    requires 1 <= m <= 12
  {
    if m == 1 then 0 else DaysBeforeMonth(y, m - 1) + DaysInMonth(y, m - 1)
  }

  /** Days since 0000-01-01, counted year by year and month by month. */
  function CountedDays(d: Date): int
    requires ValidDate(d)
  {
    DaysBeforeYear(d.year) + DaysBeforeMonth(d.year, d.month) + d.day - 1
  }

  // ----- The algorithm -----

  /** Integer division as Rust performs it: rounded towards zero. */
  function TruncDiv(a: int, b: int): int
    requires b > 0
  {
    if a >= 0 then a / b else -((-a) / b)
  }

  /** `days_from_civil`; months and days are not validated by the caller, so none are refused here. */
  function DaysFromCivil(year: int, month: nat, day: nat): int {
    var y := if month <= 2 then year - 1 else year;
    var era := TruncDiv(if y >= 0 then y else y - 399, 400);
    var yoe := y - era * 400;
    var doy := if month > 2 then (153 * (month - 3) + 2) / 5 + day - 1
               else (153 * (month + 9) + 2) / 5 + day - 1;
    var doe := yoe * 365 + yoe / 4 - yoe / 100 + doy;
    era * 146097 + doe
  }

  // ----- Proof -----

  /** The year part of the algorithm, in closed form with floored quotients. */
  lemma ClosedForm(year: int, month: nat, day: nat)
    ensures var y := if month <= 2 then year - 1 else year;
            DaysFromCivil(year, month, day) ==
            365 * y + y / 4 - y / 100 + y / 400 +
            (if month > 2 then (153 * (month - 3) + 2) / 5 else (153 * (month + 9) + 2) / 5) + day - 1
  {
    var y := if month <= 2 then year - 1 else year;
    EraIsFloored(y);
    EraParts(y);
  }

  lemma EraIsFloored(y: int)
    ensures TruncDiv(if y >= 0 then y else y - 399, 400) == y / 400
  {}

  lemma EraParts(y: int)
    ensures var era := y / 400; var yoe := y - era * 400;
            0 <= yoe < 400 && y / 4 == era * 100 + yoe / 4 && y / 100 == era * 4 + yoe / 100
  {}

  lemma {:induction false} YearsClosedForm(y: int)
    ensures DaysBeforeYear(y) == 365 * y + (y - 1) / 4 - (y - 1) / 100 + (y - 1) / 400 + 1
    decreases if y < 0 then -y else y
  {
    if y > 0 {
      YearsClosedForm(y - 1);
      LeapStep(y - 1);
    } else if y < 0 {
      YearsClosedForm(y + 1);
      LeapStep(y);
    }
  }

  /** Over one year the three leap-day quotients together grow by one exactly in leap years. */
  lemma LeapStep(y: int)
    ensures (y / 4 - y / 100 + y / 400) - ((y - 1) / 4 - (y - 1) / 100 + (y - 1) / 400)
            == (if IsLeap(y) then 1 else 0)
  {
    Step4(y);
    Step100(y);
    Step400(y);
    CenturiesDivideByFour(y);
    ErasDivideByHundred(y);
  }

  lemma CenturiesDivideByFour(y: int)
    ensures y % 100 == 0 ==> y % 4 == 0
  {}

  lemma ErasDivideByHundred(y: int)
    ensures y % 400 == 0 ==> y % 100 == 0
  {}

  lemma Step4(y: int)
    ensures y / 4 - (y - 1) / 4 == (if y % 4 == 0 then 1 else 0)
  {}

  lemma Step100(y: int)
    ensures y / 100 - (y - 1) / 100 == (if y % 100 == 0 then 1 else 0)
  {}

  lemma Step400(y: int)
    ensures y / 400 - (y - 1) / 400 == (if y % 400 == 0 then 1 else 0)
  {}

  /** The `153` formula agrees with adding up month lengths from March on. */
  lemma MonthsClosedForm(y: int, m: int)
    requires 1 <= m <= 12
    ensures m > 2 ==> DaysBeforeMonth(y, m) == (153 * (m - 3) + 2) / 5 + (if IsLeap(y) then 60 else 59)
    ensures m <= 2 ==> DaysBeforeMonth(y, m) == (153 * (m + 9) + 2) / 5 - 306
  {
    if m > 1 {
      MonthsClosedForm(y, m - 1);
    }
  }

  /** For every valid date the algorithm equals the day-by-day count (shifted to 0000-03-01). */
  lemma CivilAgreesWithCount(d: Date)
    requires ValidDate(d)
    ensures DaysFromCivil(d.year, d.month, d.day) == CountedDays(d) - 60
  {
    hide DaysFromCivil, DaysBeforeYear, DaysBeforeMonth;
    ClosedForm(d.year, d.month, d.day);
    YearsClosedForm(d.year);
    MonthsClosedForm(d.year, d.month);
    LeapStep(d.year);
  }

  lemma CountStepsByOne(d: Date)
    requires ValidDate(d)
    ensures CountedDays(NextDay(d)) == CountedDays(d) + 1
  {
    if d.month == 12 && d.day == 31 {
      MonthsClosedForm(d.year, 12);
      assert DaysBeforeMonth(d.year, 12) + 31 == YearLength(d.year);
      assert DaysBeforeMonth(d.year + 1, 1) == 0;
    }
  }

  lemma NextDayIsPlusOne(d: Date)
    requires ValidDate(d)
    ensures var n := NextDay(d);
            DaysFromCivil(n.year, n.month, n.day) == DaysFromCivil(d.year, d.month, d.day) + 1
  {
    hide DaysFromCivil, CountedDays;
    CivilAgreesWithCount(d);
    CivilAgreesWithCount(NextDay(d));
    CountStepsByOne(d);
  }

  lemma {:induction false} AdvanceAdds(d: Date, n: nat)
    requires ValidDate(d)
    ensures var r := Advance(d, n);
            DaysFromCivil(r.year, r.month, r.day) == DaysFromCivil(d.year, d.month, d.day) + n
    decreases n
  {
    hide DaysFromCivil;
    if n > 0 {
      NextDayIsPlusOne(d);
      AdvanceAdds(NextDay(d), n - 1);
    }
  }

  lemma MonthsFitInYear(y: int, m: int, m': int)
    requires 1 <= m < m' <= 12
    ensures DaysBeforeMonth(y, m) + DaysInMonth(y, m) <= DaysBeforeMonth(y, m')
    decreases m'
  {
    if m + 1 < m' {
      MonthsFitInYear(y, m, m' - 1);
    }
  }

  lemma EarlierDateIsSmaller(a: Date, b: Date)
    requires ValidDate(a) && ValidDate(b) && Before(a, b)
    ensures DaysFromCivil(a.year, a.month, a.day) < DaysFromCivil(b.year, b.month, b.day)
  {
    if a.year == b.year {
      CivilAgreesWithCount(a);
      CivilAgreesWithCount(b);
      if a.month < b.month {
        MonthsFitInYear(a.year, a.month, b.month);
      }
    } else {
      EarlierYearIsSmaller(a, b);
    }
  }

  lemma DayOfYear(d: Date)
    requires ValidDate(d)
    ensures DaysBeforeYear(d.year) <= CountedDays(d) < DaysBeforeYear(d.year + 1)
  {
    MonthsClosedForm(d.year, d.month);
  }

  lemma {:induction false} YearsGrow(y: int, y': int)
    requires y <= y'
    ensures DaysBeforeYear(y) <= DaysBeforeYear(y')
    decreases y' - y
  {
    if y < y' {
      YearsGrow(y, y' - 1);
      DayOfYear(Date(y' - 1, 1, 1));
    }
  }

  lemma EarlierYearIsSmaller(a: Date, b: Date)
    requires ValidDate(a) && ValidDate(b) && a.year < b.year
    ensures DaysFromCivil(a.year, a.month, a.day) < DaysFromCivil(b.year, b.month, b.day)
  {
    hide DaysFromCivil, CountedDays, DaysBeforeYear;
    CivilAgreesWithCount(a);
    CivilAgreesWithCount(b);
    DayOfYear(a);
    DayOfYear(b);
    YearsGrow(a.year + 1, b.year);
  }

  /** The algorithm orders valid dates exactly as the calendar does. */
  lemma OrderAgrees(a: Date, b: Date)
    requires ValidDate(a) && ValidDate(b)
    ensures Before(a, b) <==>
            DaysFromCivil(a.year, a.month, a.day) < DaysFromCivil(b.year, b.month, b.day)
  {
    if Before(a, b) {
      EarlierDateIsSmaller(a, b);
    } else if a != b {
      EarlierDateIsSmaller(b, a);
    }
  }

  /** The difference of two results is the number of days one has to step through the calendar. */
  lemma DifferenceIsDistance(a: Date, b: Date)
    requires ValidDate(a) && ValidDate(b) && (a == b || Before(a, b))
    ensures var n := DaysFromCivil(b.year, b.month, b.day) - DaysFromCivil(a.year, a.month, a.day);
            n >= 0 && Advance(a, n) == b
  {
    if Before(a, b) {
      EarlierDateIsSmaller(a, b);
    }
    var n := DaysFromCivil(b.year, b.month, b.day) - DaysFromCivil(a.year, a.month, a.day);
    AdvanceAdds(a, n);
    OrderAgrees(Advance(a, n), b);
    OrderAgrees(b, Advance(a, n));
  }

  /** The signed value of a 64-bit word. */
  function Signed(word: int): int { if word < 0x8000_0000_0000_0000 then word else word - 0x1_0000_0000_0000_0000 }

  /**
   For every value two or four decimal digits can hold: the unsigned 64-bit day of the year stays in
   range except at day 0 of month 3, where it wraps below zero; even then the wrapped sum, taken as
   a signed word, is the day of the era; and the signed results stay far from overflow, also
   when multiplied out to seconds.
   */
  lemma UnsignedIntermediates(year: int, month: nat, day: nat)
    requires 0 <= year <= 9999 && month <= 99 && day <= 99
    ensures var y := if month <= 2 then year - 1 else year;
            var era := TruncDiv(if y >= 0 then y else y - 399, 400);
            var yoe := y - era * 400;
            var doy := (if month > 2 then (153 * (month - 3) + 2) / 5 else (153 * (month + 9) + 2) / 5) + day - 1;
            var doe := yoe * 365 + yoe / 4 - yoe / 100 + doy;
            && 0 <= yoe < 400
            && (doy >= 0 <==> !(month == 3 && day == 0)) && doy < 4000
            && Signed((yoe * 365 + yoe / 4 - yoe / 100 + doy % 0x1_0000_0000_0000_0000) % 0x1_0000_0000_0000_0000) == doe
            && -1 <= doe < 151_000
            && DaysFromCivil(year, month, day) == era * 146097 + doe
            && -200_000 < DaysFromCivil(year, month, day) < 4_000_000
  {
    var y := if month <= 2 then year - 1 else year;
    var era := TruncDiv(if y >= 0 then y else y - 399, 400);
    EraIsFloored(y);
    var yoe := y - era * 400;
    var doy := (if month > 2 then (153 * (month - 3) + 2) / 5 else (153 * (month + 9) + 2) / 5) + day - 1;
    WrapCancels(yoe * 365 + yoe / 4 - yoe / 100, doy);
  }

  lemma WrapCancels(a: nat, b: int)
    requires a < 0x1_0000_0000 && -1 <= b < 0x1_0000_0000
    ensures Signed((a + b % 0x1_0000_0000_0000_0000) % 0x1_0000_0000_0000_0000) == a + b
  {
    if b == -1 {
      assert b % 0x1_0000_0000_0000_0000 == 0xFFFF_FFFF_FFFF_FFFF;
    }
  }
}
