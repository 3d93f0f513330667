/**
  Proleptic Gregorian calendar over integer day numbers.

  A date is represented by its day number: day 0 is 1 January 1970, and one
  day is one unit, so "seven days earlier" is `d - 7`.  `FromCivil` and
  `ToCivil` convert between day numbers and (year, month, day) triples and
  are proved to be inverse to each other.
 */
module Calendar {

  /** A civil date; `month` is 1..12 and `day` is 1..DaysInMonth. */
  datatype Date = Date(year: int, month: int, day: int)

  predicate IsLeapYear(y: int) {
    y % 4 == 0 && (y % 100 != 0 || y % 400 == 0)
  }

  function DaysInYear(y: int): int {
    if IsLeapYear(y) then 366 else 365
  }

  function DaysInMonth(y: int, m: int): int
    requires 1 <= m <= 12
  {
    if m == 2 then (if IsLeapYear(y) then 29 else 28)
    else if m == 4 || m == 6 || m == 9 || m == 11 then 30
    else 31
  }

  predicate ValidDate(c: Date) {
    1 <= c.month <= 12 && 1 <= c.day <= DaysInMonth(c.year, c.month)
  }

  /** Number of leap years among 1..x, counted with floor division (also meaningful for x < 0). */
  function LeapsThrough(x: int): int {
    x / 4 - x / 100 + x / 400
  }

  /** Day number of 1 January of year `y`. */
  function YearStart(y: int): int {
    365 * (y - 1970) + LeapsThrough(y - 1) - LeapsThrough(1969)
  }

  /** Days in the months of year `y` before month `m` (m = 13 gives the whole year). */
  function DaysBeforeMonth(y: int, m: int): int
    requires 1 <= m <= 13
  {
    var base :=
      if m == 1 then 0 else if m == 2 then 31 else if m == 3 then 59
      else if m == 4 then 90 else if m == 5 then 120 else if m == 6 then 151
      else if m == 7 then 181 else if m == 8 then 212 else if m == 9 then 243
      else if m == 10 then 273 else if m == 11 then 304 else if m == 12 then 334
      else 365;
    if m > 2 && IsLeapYear(y) then base + 1 else base
  }

  lemma DaysBeforeMonthStep(y: int, m: int)
    requires 1 <= m <= 12
    ensures DaysBeforeMonth(y, m + 1) == DaysBeforeMonth(y, m) + DaysInMonth(y, m)
    ensures DaysBeforeMonth(y, 1) == 0 && DaysBeforeMonth(y, 13) == DaysInYear(y)
  {
  }

  lemma DaysBeforeMonthMonotone(y: int, m1: int, m2: int)
    requires 1 <= m1 < m2 <= 13
    ensures DaysBeforeMonth(y, m1 + 1) <= DaysBeforeMonth(y, m2)
  {
  }

  /** floor(x / k) - floor((x - 1) / k) is 1 exactly when k divides x (for the three leap-year moduli). */
  lemma FloorDivStep(x: int, k: int)
    requires k == 4 || k == 100 || k == 400
    ensures x / k - (x - 1) / k == if x % k == 0 then 1 else 0
  {
    if k == 4 {
      assert x / 4 - (x - 1) / 4 == if x % 4 == 0 then 1 else 0;
    } else if k == 100 {
      assert x / 100 - (x - 1) / 100 == if x % 100 == 0 then 1 else 0;
    } else {
      assert x / 400 - (x - 1) / 400 == if x % 400 == 0 then 1 else 0;
    }
  }

  lemma DividesTransfer(y: int)
    ensures y % 400 == 0 ==> y % 100 == 0
    ensures y % 100 == 0 ==> y % 4 == 0
  {
    if y % 400 == 0 {
      MultipleDivides(y / 400, 4, 100);
    }
    if y % 100 == 0 {
      MultipleDivides(y / 100, 25, 4);
    }
  }

  /** A multiple of a * k is a multiple of k. */
  lemma MultipleDivides(q: int, a: int, k: int)
    requires (a == 4 && k == 100) || (a == 25 && k == 4)
    ensures (q * (a * k)) % k == 0
  {
    var m := a * q;
    assert q * (a * k) == k * m;
  }

  /** Consecutive 1 January day numbers are one year length apart. */
  lemma {:induction false} YearLength(y: int)
    ensures YearStart(y + 1) - YearStart(y) == DaysInYear(y)
  {
    FloorDivStep(y, 4);
    FloorDivStep(y, 100);
    FloorDivStep(y, 400);
    DividesTransfer(y);
  }

  lemma {:induction false} YearStartMonotone(y1: int, y2: int)
    requires y1 < y2
    ensures YearStart(y1 + 1) <= YearStart(y2)
    decreases y2 - y1
  {
    if y1 + 1 < y2 {
      YearStartMonotone(y1 + 1, y2);
      YearLength(y1 + 1);
    }
  }

  /** Searches upwards from year `y` for the year containing day `d`. */
  function YearUp(y: int, d: int): (r: int)
    requires YearStart(y) <= d
    ensures YearStart(r) <= d < YearStart(r + 1)
    decreases d - YearStart(y)
  {
    YearLength(y);
    if d < YearStart(y + 1) then y else YearUp(y + 1, d)
  }

  /** Searches downwards from year `y` for the year containing day `d`. */
  function YearDown(y: int, d: int): (r: int)
    requires d < YearStart(y + 1)
    ensures YearStart(r) <= d < YearStart(r + 1)
    decreases YearStart(y + 1) - d
  {
    YearLength(y);
    if YearStart(y) <= d then y else YearDown(y - 1, d)
  }

  /** The year that contains day `d`. */
  function YearOf(d: int): (y: int)
    ensures YearStart(y) <= d < YearStart(y + 1)
  {
    YearLength(1969);
    if 0 <= d then YearUp(1970, d) else YearDown(1969, d)
  }

  /** Only one year contains a given day, so YearOf is determined by the year bounds. */
  lemma YearOfUnique(y: int, d: int)
    requires YearStart(y) <= d < YearStart(y + 1)
    ensures YearOf(d) == y
  {
    var r := YearOf(d);
    if r < y {
      YearStartMonotone(r, y);
    } else if y < r {
      YearStartMonotone(y, r);
    }
  }

  /** Searches downwards from month `m` for the month containing day-of-year `doy`. */
  function MonthFrom(y: int, m: int, doy: int): (r: int)
    requires 1 <= m <= 12 && 0 <= doy
    ensures 1 <= r <= m
    ensures DaysBeforeMonth(y, r) <= doy
    ensures r < m ==> doy < DaysBeforeMonth(y, r + 1)
    decreases m
  {
    if DaysBeforeMonth(y, m) <= doy then m else MonthFrom(y, m - 1, doy)
  }

  /** Converts a day number to its civil date. */
  function ToCivil(d: int): (c: Date)
    ensures ValidDate(c)
    ensures YearStart(c.year) + DaysBeforeMonth(c.year, c.month) + c.day - 1 == d
  {
    var y := YearOf(d);
    var doy := d - YearStart(y);
    YearLength(y);
    DaysBeforeMonthStep(y, 12);
    var m := MonthFrom(y, 12, doy);
    DaysBeforeMonthStep(y, m);
    Date(y, m, doy - DaysBeforeMonth(y, m) + 1)
  }

  /** Converts a valid civil date to its day number. */
  function FromCivil(c: Date): int
    requires ValidDate(c)
  {
    YearStart(c.year) + DaysBeforeMonth(c.year, c.month) + c.day - 1
  }

  lemma CivilRoundTripFromDays(d: int)
    ensures FromCivil(ToCivil(d)) == d
  {
  }

  lemma CivilRoundTripFromDate(c: Date)
    requires ValidDate(c)
    ensures ToCivil(FromCivil(c)) == c
  {
    var d := FromCivil(c);
    DaysBeforeMonthStep(c.year, c.month);
    if c.month < 12 {
      DaysBeforeMonthMonotone(c.year, c.month, 13);
    }
    assert DaysBeforeMonth(c.year, c.month + 1) <= DaysInYear(c.year);
    YearLength(c.year);
    YearOfUnique(c.year, d);
    var r := ToCivil(d);
    assert r.year == c.year;
    if r.month < c.month {
      DaysBeforeMonthMonotone(c.year, r.month, c.month);
    } else if c.month < r.month {
      DaysBeforeMonthMonotone(c.year, c.month, r.month);
      DaysBeforeMonthStep(c.year, r.month);
    }
  }
}
