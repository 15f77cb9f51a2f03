/** Calendar days as integer day numbers, and the calendar parts that the
    feature pipeline derives from a date (day of week, month, day of month,
    first and last day of the month), under proleptic Gregorian rules.
    Day 0 is 0001-01-01, a Monday. */
module Calendar {

  /** A calendar date, counted in days since 0001-01-01. */
  type Day = nat

  /** A date as year, month (1..12) and day of month. */
  datatype Civil = Civil(year: int, month: int, day: int)

  predicate IsLeap(y: int) {
    y % 4 == 0 && (y % 100 != 0 || y % 400 == 0)
  }

  function DaysInMonth(y: int, m: int): int
    requires 1 <= m <= 12
  {
    if m == 2 then (if IsLeap(y) then 29 else 28)
    else if m == 4 || m == 6 || m == 9 || m == 11 then 30
    else 31
  }

  predicate ValidCivil(c: Civil) {
    1 <= c.year && 1 <= c.month <= 12 && 1 <= c.day <= DaysInMonth(c.year, c.month)
  }

  function DaysInYear(y: int): int {
    if IsLeap(y) then 366 else 365
  }

  /** Days in months 1 .. m-1 of a common year. */
  function CommonDaysBefore(m: int): nat
    requires 1 <= m <= 12
  {
    if m == 1 then 0 else if m == 2 then 31 else if m == 3 then 59
    else if m == 4 then 90 else if m == 5 then 120 else if m == 6 then 151
    else if m == 7 then 181 else if m == 8 then 212 else if m == 9 then 243
    else if m == 10 then 273 else if m == 11 then 304 else 334
  }

  /** Days in months 1 .. m-1 of year y; month m still fits in the year. */
  function DaysBeforeMonth(y: int, m: int): (r: nat)
    requires 1 <= m <= 12
    ensures r + DaysInMonth(y, m) <= DaysInYear(y)
    ensures m == 12 ==> r + DaysInMonth(y, m) == DaysInYear(y)
  {
    CommonDaysBefore(m) + if m > 2 && IsLeap(y) then 1 else 0
  }

  /** The months of a year follow one another without gaps. */
  lemma MonthStep(y: int, m: int)
    requires 1 <= m < 12
    ensures DaysBeforeMonth(y, m + 1) == DaysBeforeMonth(y, m) + DaysInMonth(y, m)
  {
  }

  /** Days in the years 1 .. y-1. */
  function DaysBeforeYear(y: int): (r: nat)
    requires y >= 1
  {
    if y == 1 then 0 else DaysBeforeYear(y - 1) + DaysInYear(y - 1)
  }

  /** The day number of a valid calendar date. */
  function ToDay(c: Civil): Day
    requires ValidCivil(c)
  {
    DaysBeforeYear(c.year) + DaysBeforeMonth(c.year, c.month) + c.day - 1
  }

  /** The date n days into year y, counting from the first of month m. */
  function MonthFrom(n: nat, y: int, m: int): (c: Civil)
    requires 1 <= m <= 12 && DaysBeforeMonth(y, m) + n < DaysInYear(y)
    ensures c.year == y && m <= c.month <= 12
    ensures 1 <= c.day <= DaysInMonth(y, c.month)
    decreases 12 - m
  {
    if n < DaysInMonth(y, m) then Civil(y, m, n + 1)
    else
      MonthStep(y, m);
      MonthFrom(n - DaysInMonth(y, m), y, m + 1)
  }

  /** The date n days after January 1st of year y. */
  function CivilFrom(n: nat, y: int): (c: Civil)
    requires y >= 1
    ensures ValidCivil(c) && c.year >= y
  {
    if n < DaysInYear(y) then MonthFrom(n, y, 1)
    else CivilFrom(n - DaysInYear(y), y + 1)
  }

  /** The calendar date of day number n. */
  function FromDay(n: Day): (c: Civil)
    ensures ValidCivil(c)
  {
    CivilFrom(n, 1)
  }

  /** pandas `dayofweek`: Monday is 0, Sunday is 6. */
  function DayOfWeek(n: Day): (w: int)
    ensures 0 <= w <= 6
  {
    n % 7
  }

  predicate IsMonthStart(n: Day) {
    FromDay(n).day == 1
  }

  predicate IsMonthEnd(n: Day) {
    var c := FromDay(n);
    c.day == DaysInMonth(c.year, c.month)
  }

  // ---------------------------------------------------------------------
  // Proofs about the conversion

  lemma {:induction false} DaysBeforeYearMonotone(y0: int, y: int)
    requires 1 <= y0 <= y
    ensures DaysBeforeYear(y) >= DaysBeforeYear(y0)
    decreases y - y0
  {
    if y0 < y {
      DaysBeforeYearMonotone(y0 + 1, y);
    }
  }

  lemma {:induction false} MonthFromToDay(n: nat, y: int, m: int)
    requires 1 <= m <= 12 && DaysBeforeMonth(y, m) + n < DaysInYear(y)
    ensures var c := MonthFrom(n, y, m);
      DaysBeforeMonth(y, c.month) + c.day - 1 == DaysBeforeMonth(y, m) + n
    decreases 12 - m
  {
    if n >= DaysInMonth(y, m) {
      MonthStep(y, m);
      MonthFromToDay(n - DaysInMonth(y, m), y, m + 1);
    }
  }

  lemma {:induction false} CivilFromToDay(n: nat, y: int)
    requires y >= 1
    ensures ToDay(CivilFrom(n, y)) == DaysBeforeYear(y) + n
    decreases n
  {
    if n < DaysInYear(y) {
      MonthFromToDay(n, y, 1);
    } else {
      CivilFromToDay(n - DaysInYear(y), y + 1);
      assert DaysBeforeYear(y + 1) == DaysBeforeYear(y) + DaysInYear(y);
    }
  }

  /** Every day number names the date it was computed from. */
  lemma FromDayToDay(n: Day)
    ensures ToDay(FromDay(n)) == n
  {
    CivilFromToDay(n, 1);
  }

  lemma {:induction false} ToDayMonthFrom(y: int, m0: int, m: int, d: int)
    requires 1 <= m0 <= m <= 12 && 1 <= d <= DaysInMonth(y, m)
    ensures DaysBeforeMonth(y, m0) <= DaysBeforeMonth(y, m)
    ensures DaysBeforeMonth(y, m) + d - 1 < DaysInYear(y)
    ensures MonthFrom(DaysBeforeMonth(y, m) - DaysBeforeMonth(y, m0) + d - 1, y, m0) == Civil(y, m, d)
    decreases m - m0
  {
    if m0 < m {
      ToDayMonthFrom(y, m0 + 1, m, d);
      MonthStep(y, m0);
    }
  }

  lemma CivilFromInYear(c: Civil)
    requires ValidCivil(c)
    ensures DaysBeforeMonth(c.year, c.month) + c.day - 1 < DaysInYear(c.year)
    ensures CivilFrom(DaysBeforeMonth(c.year, c.month) + c.day - 1, c.year) == c
  {
    ToDayMonthFrom(c.year, 1, c.month, c.day);
  }

  lemma CivilFromNextYear(n: nat, y: int)
    requires y >= 1
    ensures CivilFrom(n + DaysInYear(y), y) == CivilFrom(n, y + 1)
  {
  }

  /** Counting from an earlier year reaches the same date. */
  lemma {:induction false} CivilFromShift(k: nat, y0: int, y: int)
    requires 1 <= y0 <= y
    ensures DaysBeforeYear(y) >= DaysBeforeYear(y0)
    ensures CivilFrom(DaysBeforeYear(y) - DaysBeforeYear(y0) + k, y0) == CivilFrom(k, y)
    decreases y - y0
  {
    DaysBeforeYearMonotone(y0, y);
    if y0 < y {
      DaysBeforeYearMonotone(y0 + 1, y);
      CivilFromShift(k, y0 + 1, y);
      var n' := DaysBeforeYear(y) - DaysBeforeYear(y0 + 1) + k;
      assert DaysBeforeYear(y) - DaysBeforeYear(y0) + k == n' + DaysInYear(y0);
      CivilFromNextYear(n', y0);
    }
  }

  /** Every valid calendar date is recovered from its day number. */
  lemma ToDayFromDay(c: Civil)
    requires ValidCivil(c)
    ensures FromDay(ToDay(c)) == c
  {
    CivilFromInYear(c);
    CivilFromShift(DaysBeforeMonth(c.year, c.month) + c.day - 1, 1, c.year);
    assert DaysBeforeYear(1) == 0;
  }

  /** The date after c, by the calendar rules alone. */
  function NextCivil(c: Civil): (c': Civil)
    requires ValidCivil(c)
    ensures ValidCivil(c') && ToDay(c') == ToDay(c) + 1
    ensures c'.day == 1 <==> c.day == DaysInMonth(c.year, c.month)
  {
    if c.day < DaysInMonth(c.year, c.month) then Civil(c.year, c.month, c.day + 1)
    else if c.month < 12 then
      MonthStep(c.year, c.month);
      Civil(c.year, c.month + 1, 1)
    else
      assert DaysBeforeYear(c.year + 1) == DaysBeforeYear(c.year) + DaysInYear(c.year);
      Civil(c.year + 1, 1, 1)
  }

  /** The day after n is the first of a month exactly when n is the last
      day of its month (Gregorian month lengths, leap Februaries included). */
  lemma MonthEndBeforeMonthStart(n: Day)
    ensures IsMonthEnd(n) <==> IsMonthStart(n + 1)
  {
    var c := FromDay(n);
    FromDayToDay(n);
    var next := NextCivil(c);
    ToDayFromDay(next);
  }

  /** Going from q-1 to q, the quotient by d grows by one exactly when d
      divides q (for the three divisors of the leap-year rule). */
  lemma DivStep(q: int, d: int)
    requires q >= 1 && (d == 4 || d == 100 || d == 400)
    ensures q / d - (q - 1) / d == if q % d == 0 then 1 else 0
  {
    if d == 4 {
      assert q / 4 - (q - 1) / 4 == if q % 4 == 0 then 1 else 0;
    } else if d == 100 {
      assert q / 100 - (q - 1) / 100 == if q % 100 == 0 then 1 else 0;
    } else {
      assert q / 400 - (q - 1) / 400 == if q % 400 == 0 then 1 else 0;
    }
  }

  lemma LeapCount(q: int)
    requires q >= 1
    ensures q / 4 - (q - 1) / 4 - (q / 100 - (q - 1) / 100) + (q / 400 - (q - 1) / 400)
            == if IsLeap(q) then 1 else 0
  {
    DivStep(q, 4);
    DivStep(q, 100);
    DivStep(q, 400);
    if q % 100 == 0 {
      var k := q / 100;
      assert q == 4 * (25 * k);
    }
    if q % 400 == 0 {
      var k := q / 400;
      assert q == 100 * (4 * k);
    }
  }

  /** The usual closed form: 365 days a year, plus one for every fourth
      year, less every hundredth, plus every four hundredth. */
  lemma {:induction false} DaysBeforeYearClosedForm(y: int)
    requires y >= 1
    ensures DaysBeforeYear(y) == 365 * (y - 1) + (y - 1) / 4 - (y - 1) / 100 + (y - 1) / 400
  {
    if y > 1 {
      DaysBeforeYearClosedForm(y - 1);
      LeapCount(y - 1);
    }
  }

  /** Anchor: 2024-01-01 is day 738885 and a Monday. The date and the day
      number are parameters fixed by the precondition, so that the solver
      does not unroll `CivilFrom` on a literal argument. */
  lemma NewYear2024(c: Civil, n: Day)
    requires c == Civil(2024, 1, 1) && n == 738885
    ensures ValidCivil(c) && ToDay(c) == n && DayOfWeek(n) == 0
    ensures FromDay(n) == c
  {
    DaysBeforeYearClosedForm(c.year);
    ToDayFromDay(c);
  }
}
