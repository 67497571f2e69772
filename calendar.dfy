/**
 * Whole-day arithmetic of the proleptic Gregorian calendar, as the ECMAScript
 * `Date` object does it in local time with the time of day set to midnight.
 * Days are numbered from 0 = 1 January of year 1, which is a Monday.
 */
module Calendar {
  import opened Types

  predicate IsLeapYear(y: int) {
    y % 4 == 0 && (y % 100 != 0 || y % 400 == 0)
  }

  /** The day number of 1 January of year `y`. */
  function JanFirst(y: int): int {
    var p := y - 1;
    365 * p + p / 4 - p / 100 + p / 400
  }

  /** Stepping `p` by one raises `p / k` by one exactly when `k` divides the new value. */
  lemma DivStep(p: int, k: int)
    requires k > 0
    ensures (p + 1) / k - p / k == if (p + 1) % k == 0 then 1 else 0
  {
    var q, r := p / k, p % k;
    assert p == k * q + r && 0 <= r < k;
    if r == k - 1 {
      assert p + 1 == k * (q + 1);
      DivExact(p + 1, k, q + 1, 0);
    } else {
      assert p + 1 == k * q + (r + 1);
      DivExact(p + 1, k, q, r + 1);
    }
  }

  lemma DivExact(a: int, k: int, q: int, r: int)
    requires k > 0 && a == k * q + r && 0 <= r < k
    ensures a / k == q && a % k == r
  {
    var q0, r0 := a / k, a % k;
    assert a == k * q0 + r0 && 0 <= r0 < k;
    if q0 > q {
      assert k * (q0 - q) >= k by { MulAtLeast(k, q0 - q); }
    } else if q0 < q {
      assert k * (q - q0) >= k by { MulAtLeast(k, q - q0); }
    }
  }

  lemma MulAtLeast(k: int, m: int)
    requires k > 0 && m >= 1
    ensures k * m >= k
  {
  }

  /** A year has 366 days when it is a leap year and 365 otherwise. */
  lemma YearLength(y: int)
    ensures JanFirst(y + 1) - JanFirst(y) == if IsLeapYear(y) then 366 else 365
  {
    DivStep(y - 1, 4);
    DivStep(y - 1, 100);
    DivStep(y - 1, 400);
  }

  /** The year containing day `t`, searched for from year `g`. */
  function YearSearch(t: int, g: int): (y: int)
    ensures JanFirst(y) <= t < JanFirst(y + 1)
    decreases (if t < JanFirst(g) then JanFirst(g) - t else 0),
              (if t >= JanFirst(g + 1) then t - JanFirst(g) else 0)
  {
    YearLength(g - 1);
    YearLength(g);
    YearLength(g + 1);
    if t < JanFirst(g) then YearSearch(t, g - 1)
    else if t >= JanFirst(g + 1) then YearSearch(t, g + 1)
    else g
  }

  /** `getFullYear()`: the year that contains day `t`. */
  function YearOfDay(t: int): (y: int)
    ensures JanFirst(y) <= t < JanFirst(y + 1)
  {
    YearSearch(t, t * 400 / 146097 + 1)
  }

  /** 1 January grows with the year. */
  lemma {:induction false} JanFirstMonotonic(a: int, b: int)
    requires a <= b
    ensures JanFirst(a) <= JanFirst(b)
    decreases b - a
  {
    if a < b {
      YearLength(a);
      JanFirstMonotonic(a + 1, b);
    }
  }

  /** Only one year contains a given day. */
  lemma YearOfDayUnique(t: int, y: int)
    requires JanFirst(y) <= t < JanFirst(y + 1)
    ensures YearOfDay(t) == y
  {
    var r := YearOfDay(t);
    if r < y {
      JanFirstMonotonic(r + 1, y);
    } else if r > y {
      JanFirstMonotonic(y + 1, r);
    }
  }

  function DaysBeforeMonth(y: int, m: int): int
    requires 1 <= m <= 12
  {
    var before :=
      if m == 1 then 0 else if m == 2 then 31 else if m == 3 then 59
      else if m == 4 then 90 else if m == 5 then 120 else if m == 6 then 151
      else if m == 7 then 181 else if m == 8 then 212 else if m == 9 then 243
      else if m == 10 then 273 else if m == 11 then 304 else 334;
    before + (if m > 2 && IsLeapYear(y) then 1 else 0)
  }

  function DaysInMonth(y: int, m: int): int
    requires 1 <= m <= 12
  {
    if m == 2 then (if IsLeapYear(y) then 29 else 28)
    else if m == 4 || m == 6 || m == 9 || m == 11 then 30
    else 31
  }

  predicate IsValidDate(d: Date) {
    1 <= d.month <= 12 && 1 <= d.day <= DaysInMonth(d.year, d.month)
  }

  /**
   * The day number of a date. As in ECMAScript's MakeDay, a month outside 1..12
   * carries into the year and a day outside the month carries into the next or
   * previous months.
   */
  function DayNumber(d: Date): int {
    MonthStart(d.year, d.month) + d.day - 1
  }

  /** The day number of the day before the first of the month, months normalised into the year. */
  function MonthStart(year: int, month: int): int {
    var y := year + (month - 1) / 12;
    var m := (month - 1) % 12 + 1;
    JanFirst(y) + DaysBeforeMonth(y, m)
  }

  /** Days past the end of a month carry over: adding to the day adds to the day number. */
  lemma DayNumberAddDays(d: Date, k: int)
    ensures DayNumber(Date(d.year, d.month, d.day + k)) == DayNumber(d) + k
  {
  }

  /** A valid date lies in its own year, and on consecutive days within it. */
  lemma DayNumberOfValidDate(d: Date)
    requires IsValidDate(d)
    ensures JanFirst(d.year) <= DayNumber(d) < JanFirst(d.year + 1)
    ensures YearOfDay(DayNumber(d)) == d.year
    ensures DayNumber(d) == JanFirst(d.year) + DaysBeforeMonth(d.year, d.month) + d.day - 1
  {
    assert (d.month - 1) / 12 == 0 && (d.month - 1) % 12 + 1 == d.month;
    assert MonthStart(d.year, d.month) == JanFirst(d.year) + DaysBeforeMonth(d.year, d.month);
    YearLength(d.year);
    MonthFitsInYear(d.year, d.month);
    YearOfDayUnique(DayNumber(d), d.year);
  }

  lemma MonthFitsInYear(y: int, m: int)
    requires 1 <= m <= 12
    ensures 0 <= DaysBeforeMonth(y, m)
    ensures DaysBeforeMonth(y, m) + DaysInMonth(y, m) <= if IsLeapYear(y) then 366 else 365
  {
  }

  /** `getDay()`: 0 for Sunday, 1 for Monday, ..., 6 for Saturday. */
  function JsWeekday(n: int): (w: int)
    ensures 0 <= w < 7
  {
    (n + 1) % 7
  }

  /** The ECMAScript epoch, 1 January 1970, is a Thursday. */
  lemma EpochIsThursday()
    ensures DayNumber(Date(1970, 1, 1)) == 719162
    ensures JsWeekday(DayNumber(Date(1970, 1, 1))) == 4
  {
  }
}
