/** Proleptic Gregorian calendar arithmetic on day numbers (day 0 is
    1970-01-01): the conversions pandas performs when it subtracts
    `DateOffset(years=1)` from a timestamp and when it reports the weekday
    of a date. */
module Calendar {
  import opened Common

  predicate IsLeap(y: int)
  {
    y % 4 == 0 && (y % 100 != 0 || y % 400 == 0)
  }

  function DaysInMonth(y: int, m: int): (n: int)
    requires 1 <= m <= 12
    ensures 28 <= n <= 31
    ensures n == 29 <==> m == 2 && IsLeap(y)
  {
    if m == 2 then (if IsLeap(y) then 29 else 28)
    else if m == 4 || m == 6 || m == 9 || m == 11 then 30
    else 31
  }

  datatype Civil = Civil(year: int, month: int, day: int)
  {
    predicate Valid()
    {
      1 <= month <= 12 && 1 <= day <= DaysInMonth(year, month)
    }
  }

  /** Leap years among the years before `y` (counted from year 1, extended
      to all integers by floor division). */
  function LeapsBefore(y: int): int
  {
    (y - 1) / 4 - (y - 1) / 100 + (y - 1) / 400
  }

  /** The day number of January 1 of year `y`. */
  function YearStart(y: int): int
  {
    365 * (y - 1970) + LeapsBefore(y) - LeapsBefore(1970)
  }

  lemma YearLength(y: int)
    ensures YearStart(y + 1) - YearStart(y) == if IsLeap(y) then 366 else 365
  {
    var d4, d100, d400 := y / 4 - (y - 1) / 4, y / 100 - (y - 1) / 100, y / 400 - (y - 1) / 400;
    assert d4 == (if y % 4 == 0 then 1 else 0) by { FloorStep4(y); }
    assert d100 == (if y % 100 == 0 then 1 else 0) by { FloorStep100(y); }
    assert d400 == (if y % 400 == 0 then 1 else 0) by { FloorStep400(y); }
    if y % 400 == 0 {
      CenturyDivides(y);
    } else if y % 100 == 0 {
      LeapDivides(y);
    }
    assert LeapsBefore(y + 1) - LeapsBefore(y) == d4 - d100 + d400;
  }

  /** A multiple of 400 is a multiple of 100 and of 4. */
  lemma CenturyDivides(y: int)
    requires y % 400 == 0
    ensures y % 100 == 0 && y % 4 == 0
  {
    var q := y / 400;
    assert y == 100 * (4 * q);
    assert y == 4 * (100 * q);
  }

  /** A multiple of 100 is a multiple of 4. */
  lemma LeapDivides(y: int)
    requires y % 100 == 0
    ensures y % 4 == 0
  {
    var q := y / 100;
    assert y == 4 * (25 * q);
  }

  lemma FloorStep4(y: int)
    ensures y / 4 - (y - 1) / 4 == if y % 4 == 0 then 1 else 0
  {
  }

  lemma FloorStep100(y: int)
    ensures y / 100 - (y - 1) / 100 == if y % 100 == 0 then 1 else 0
  {
  }

  lemma FloorStep400(y: int)
    ensures y / 400 - (y - 1) / 400 == if y % 400 == 0 then 1 else 0
  {
  }

  /** Two consecutive years are never both leap years. */
  lemma NotBothLeap(y: int)
    ensures !(IsLeap(y - 1) && IsLeap(y))
  {
  }

  lemma {:induction false} YearStartMonotone(a: int, b: int)
    requires a <= b
    ensures YearStart(a) + 365 * (b - a) <= YearStart(b)
    decreases b - a
  {
    if a < b {
      YearLength(a);
      YearStartMonotone(a + 1, b);
    }
  }

  /** Days of year `y` before the first of month `m`. */
  function MonthStart(y: int, m: int): (n: int)
    requires 1 <= m <= 12
    ensures m == 1 ==> n == 0
    ensures m > 1 ==> n == MonthStart(y, m - 1) + DaysInMonth(y, m - 1)
  {
    var table := [0, 31, 59, 90, 120, 151, 181, 212, 243, 273, 304, 334];
    table[m - 1] + (if m > 2 && IsLeap(y) then 1 else 0)
  }

  lemma MonthStartBounds(y: int, m: int)
    requires 1 <= m <= 12
    ensures 0 <= MonthStart(y, m)
    ensures MonthStart(y, m) + DaysInMonth(y, m) == if m == 12 then YearStart(y + 1) - YearStart(y) else MonthStart(y, m + 1)
  {
    YearLength(y);
  }

  function DaysFromCivil(c: Civil): (z: Day)
    requires c.Valid()
    ensures YearStart(c.year) <= z < YearStart(c.year + 1)
  {
    MonthStartBounds(c.year, c.month);
    MonthStartMonotone(c.year, c.month);
    YearStart(c.year) + MonthStart(c.year, c.month) + c.day - 1
  }

  lemma MonthStartMonotone(y: int, m: int)
    requires 1 <= m <= 12
    ensures MonthStart(y, m) + DaysInMonth(y, m) <= YearStart(y + 1) - YearStart(y)
  {
    YearLength(y);
  }

  /** The year whose days include `z`, searched upwards from year `y`. */
  function YearUp(z: Day, y: int): (r: int)
    requires YearStart(y) <= z
    ensures YearStart(r) <= z < YearStart(r + 1)
    decreases z - YearStart(y)
  {
    YearLength(y);
    if z < YearStart(y + 1) then y else YearUp(z, y + 1)
  }

  /** The year whose days include `z`, searched downwards from year `y`. */
  function YearDown(z: Day, y: int): (r: int)
    requires z < YearStart(y + 1)
    ensures YearStart(r) <= z < YearStart(r + 1)
    decreases YearStart(y + 1) - z
  {
    YearLength(y);
    if YearStart(y) <= z then y else YearDown(z, y - 1)
  }

  /** The year whose days include `z`. */
  function YearOf(z: Day): (r: int)
    ensures YearStart(r) <= z < YearStart(r + 1)
  {
    if YearStart(1970) <= z then YearUp(z, 1970) else YearDown(z, 1969)
  }

  /** The month of year `y` holding day `doy` of that year (counted from 0),
      searched downwards from month `m`. */
  function MonthFrom(y: int, doy: int, m: int): (r: int)
    requires 1 <= m <= 12 && 0 <= doy < MonthStart(y, m) + DaysInMonth(y, m)
    ensures 1 <= r <= m
    ensures MonthStart(y, r) <= doy < MonthStart(y, r) + DaysInMonth(y, r)
  {
    if MonthStart(y, m) <= doy then m else MonthFrom(y, doy, m - 1)
  }

  function CivilFromDays(z: Day): (c: Civil)
    ensures c.Valid()
    ensures DaysFromCivil(c) == z
  {
    var y := YearOf(z);
    MonthStartBounds(y, 12);
    var m := MonthFrom(y, z - YearStart(y), 12);
    Civil(y, m, z - YearStart(y) - MonthStart(y, m) + 1)
  }

  /** The year containing a day is unique. */
  lemma YearUnique(z: Day, a: int, b: int)
    requires YearStart(a) <= z < YearStart(a + 1)
    requires YearStart(b) <= z < YearStart(b + 1)
    ensures a == b
  {
    if a < b {
      YearStartMonotone(a + 1, b);
    } else if b < a {
      YearStartMonotone(b + 1, a);
    }
  }

  lemma {:induction false} MonthUnique(y: int, doy: int, a: int, b: int)
    requires 1 <= a <= b <= 12
    requires MonthStart(y, a) <= doy < MonthStart(y, a) + DaysInMonth(y, a)
    requires MonthStart(y, b) <= doy
    ensures a == b
    decreases b - a
  {
    if a < b {
      MonthStartGrows(y, a + 1, b);
    }
  }

  lemma {:induction false} MonthStartGrows(y: int, a: int, b: int)
    requires 1 <= a <= b <= 12
    ensures MonthStart(y, a) <= MonthStart(y, b)
    decreases b - a
  {
    if a < b {
      MonthStartGrows(y, a, b - 1);
    }
  }

  /** Day numbers and valid calendar dates correspond one to one. */
  lemma CivilRoundTrip(c: Civil)
    requires c.Valid()
    ensures CivilFromDays(DaysFromCivil(c)) == c
  {
    var z := DaysFromCivil(c);
    var r := CivilFromDays(z);
    YearUnique(z, r.year, c.year);
    var doy := z - YearStart(c.year);
    if r.month <= c.month {
      MonthUnique(c.year, doy, r.month, c.month);
    } else {
      MonthUnique(c.year, doy, c.month, r.month);
    }
  }

  /** The same month and day a year earlier, February 29 becoming
      February 28. */
  function YearBack(c: Civil): (b: Civil)
    requires c.Valid()
    ensures b.Valid() && b.year == c.year - 1 && b.month == c.month
    ensures b.day == c.day || (c.month == 2 && c.day == 29 && b.day == 28)
  {
    var last := DaysInMonth(c.year - 1, c.month);
    Civil(c.year - 1, c.month, if c.day <= last then c.day else last)
  }

  /** A year back is 365 or 366 days back. */
  lemma YearBackDistance(c: Civil)
    requires c.Valid()
    ensures 365 <= DaysFromCivil(c) - DaysFromCivil(YearBack(c)) <= 366
  {
    var y, m := c.year, c.month;
    var b := YearBack(c);
    YearLength(y - 1);
    NotBothLeap(y);
    var yearDiff := YearStart(y) - YearStart(y - 1);
    var monthDiff := MonthStart(y, m) - MonthStart(y - 1, m);
    assert yearDiff == if IsLeap(y - 1) then 366 else 365;
    assert monthDiff == if m <= 2 then 0 else (if IsLeap(y) then 1 else 0) - (if IsLeap(y - 1) then 1 else 0);
    assert DaysFromCivil(c) - DaysFromCivil(b) == yearDiff + monthDiff + c.day - b.day;
  }

  /** `ts - DateOffset(years=1)` on a day number. */
  function OneYearBefore(z: Day): (w: Day)
    ensures CivilFromDays(w) == YearBack(CivilFromDays(z))
    ensures 365 <= z - w <= 366
  {
    YearBackDistance(CivilFromDays(z));
    CivilRoundTrip(YearBack(CivilFromDays(z)));
    DaysFromCivil(YearBack(CivilFromDays(z)))
  }

  /** `dayofweek`: Monday is 0 and Sunday is 6; 1970-01-01 was a Thursday. */
  function Weekday(z: Day): (w: int)
    ensures 0 <= w < 7
  {
    (z + 3) % 7
  }

  /** Consecutive days have consecutive weekdays, Sunday followed by
      Monday, and the weekday repeats every seven days. */
  lemma WeekdayNext(z: Day)
    ensures Weekday(z + 1) == (Weekday(z) + 1) % 7
    ensures Weekday(z + 7) == Weekday(z)
  {
  }
}
