/**
 * The proleptic Gregorian calendar in UTC, on integers.
 *
 * A timestamp is a count of seconds since 1970-01-01 00:00:00 UTC; a day
 * number is a count of days since 1970-01-01.  This is the part of Python's
 * `datetime` that monoversion.py relies on: `datetime.fromtimestamp(ts, UTC)`,
 * `weekday()`, subtracting whole days, truncating the time of day, `.year`,
 * `.timestamp()` and the `struct tm` handed to the C library's `strftime`.
 */
module Calendar {

  const SecondsPerDay: int := 86400
  const DaysPerWeek: int := 7
  const SecondsPerWeek: int := DaysPerWeek * SecondsPerDay

  /** Python's `datetime.MINYEAR` and `datetime.MAXYEAR`. */
  const MinYear: int := 1
  const MaxYear: int := 9999

  /** The day a timestamp falls on.  Dafny's `/` floors for a positive
      divisor, as the conversion of a negative timestamp to a date does. */
  function DayOf(ts: int): int {
    ts / SecondsPerDay
  }

  /** A timestamp lies in the 86400 seconds of its day, negative ones
      included. */
  lemma DayOfBounds(ts: int)
    ensures DayOf(ts) * SecondsPerDay <= ts < DayOf(ts) * SecondsPerDay + SecondsPerDay
  {
  }

  /** Python's `weekday()`: Monday is 0 and Sunday is 6.  Day 0, 1970-01-01,
      was a Thursday. */
  function Weekday(day: int): (wd: int)
    ensures 0 <= wd < DaysPerWeek
    ensures (day - wd) % DaysPerWeek == 4
  {
    (day + 3) % DaysPerWeek
  }

  predicate IsLeapYear(y: int) {
    y % 4 == 0 && (y % 100 != 0 || y % 400 == 0)
  }

  function YearLength(y: int): (n: int)
    ensures 365 <= n <= 366
  {
    if IsLeapYear(y) then 366 else 365
  }

  /** The day number of January 1 of year y: the lengths of the years from
      1970 up to y, or minus those from y up to 1970. */
  function YearStart(y: int): int
    decreases if y < 1970 then 1970 - y else y - 1970
  {
    if y < 1970 then YearStart(y + 1) - YearLength(y)
    else if y == 1970 then 0
    else YearStart(y - 1) + YearLength(y - 1)
  }

  /** The first and the last day Python's `datetime` can represent:
      0001-01-01 and 9999-12-31. */
  const MinDay: int := -719162
  const MaxDay: int := 2932896

  /** Each year is as long as the leap-year rule says. */
  lemma YearStartStep(y: int)
    ensures YearStart(y + 1) == YearStart(y) + YearLength(y)
  {
  }

  /** The number of leap years among the years 1 .. y-1 (negative below 1). */
  function LeapYearsBefore(y: int): int {
    (y - 1) / 4 - (y - 1) / 100 + (y - 1) / 400
  }

  /** Year y adds one leap year to the count exactly when it is a leap year. */
  lemma LeapYearsBeforeStep(y: int)
    ensures LeapYearsBefore(y + 1) == LeapYearsBefore(y) + YearLength(y) - 365
  {
    MultipleStep4(y);
    MultipleStep100(y);
    MultipleStep400(y);
    DivisibilityChain(y);
    var before, after := LeapYearsBefore(y), LeapYearsBefore(y + 1);
    assert after - before == (y / 4 - (y - 1) / 4) - (y / 100 - (y - 1) / 100) + (y / 400 - (y - 1) / 400);
  }

  /** A multiple of 400 is one of 100, and a multiple of 100 one of 4. */
  lemma DivisibilityChain(y: int)
    ensures y % 400 == 0 ==> y % 100 == 0
    ensures y % 100 == 0 ==> y % 4 == 0
  {
    if y % 400 == 0 {
      HundredsOf(4 * (y / 400));
    }
    if y % 100 == 0 {
      FoursOf(25 * (y / 100));
    }
  }

  lemma HundredsOf(k: int)
    ensures (100 * k) % 100 == 0
  {
  }

  lemma FoursOf(k: int)
    ensures (4 * k) % 4 == 0
  {
  }

  // Going from y - 1 to y passes one more multiple of n exactly when y is one.

  lemma MultipleStep4(y: int)
    ensures y / 4 - (y - 1) / 4 == if y % 4 == 0 then 1 else 0
  {
    var q, r := (y - 1) / 4, (y - 1) % 4;
    assert y == 4 * q + (r + 1);
  }

  lemma MultipleStep100(y: int)
    ensures y / 100 - (y - 1) / 100 == if y % 100 == 0 then 1 else 0
  {
    var q, r := (y - 1) / 100, (y - 1) % 100;
    assert y == 100 * q + (r + 1);
  }

  lemma MultipleStep400(y: int)
    ensures y / 400 - (y - 1) / 400 == if y % 400 == 0 then 1 else 0
  {
    var q, r := (y - 1) / 400, (y - 1) % 400;
    assert y == 400 * q + (r + 1);
  }

  /** The closed form of YearStart: 365 days a year plus one per leap year. */
  lemma {:induction false} YearStartClosedForm(y: int)
    ensures YearStart(y) == 365 * (y - 1970) + LeapYearsBefore(y) - LeapYearsBefore(1970)
    decreases if y < 1970 then 1970 - y else y - 1970
  {
    if y < 1970 {
      YearStartClosedForm(y + 1);
      LeapYearsBeforeStep(y);
    } else if y > 1970 {
      YearStartClosedForm(y - 1);
      LeapYearsBeforeStep(y - 1);
    }
  }

  /** Between January 1 of year a and January 1 of year b there are at least
      365 and at most 366 days per year. */
  lemma {:induction false} YearStartBounds(a: int, b: int)
    requires a <= b
    ensures YearStart(a) + 365 * (b - a) <= YearStart(b) <= YearStart(a) + 366 * (b - a)
    decreases b - a
  {
    if a < b {
      YearStartBounds(a, b - 1);
      YearStartStep(b - 1);
    }
  }

  /** The year that contains day d, searched upwards from year y. */
  function FindYear(y: int, d: int): (r: int)
    requires YearStart(y) <= d
    ensures y <= r
    ensures YearStart(r) <= d < YearStart(r + 1)
    decreases d - YearStart(y)
  {
    YearStartStep(y);
    if d < YearStart(y + 1) then y else FindYear(y + 1, d)
  }

  /** The Gregorian year of day d (Python's `.year`), searched from a year
      known to start no later than d. */
  function YearOf(d: int): (y: int)
    ensures YearStart(y) <= d < YearStart(y + 1)
  {
    if d < 0 then
      var k := d / 365;
      YearStartBounds(1970 + k, 1970);
      FindYear(1970 + k, d)
    else
      var k := d / 366;
      YearStartBounds(1970, 1970 + k);
      FindYear(1970 + k, d)
  }

  /** No other year contains day d. */
  lemma YearOfUnique(d: int, y: int)
    requires YearStart(y) <= d < YearStart(y + 1)
    ensures YearOf(d) == y
  {
    var r := YearOf(d);
    if r < y {
      YearStartBounds(r + 1, y);
    } else if y < r {
      YearStartBounds(y + 1, r);
    }
  }

  /** The days Python's `datetime` can represent. */
  predicate InRange(d: int) {
    MinDay <= d <= MaxDay
  }

  /** They are the first and last days of the years 1 and 9999. */
  lemma RangeEnds()
    ensures YearStart(MinYear) == MinDay
    ensures YearStart(MaxYear + 1) == MaxDay + 1
  {
    YearStartClosedForm(MinYear);
    YearStartClosedForm(MaxYear + 1);
  }

  /** The representable days are those of the years 1 to 9999. */
  lemma InRangeYear(d: int)
    ensures InRange(d) <==> MinYear <= YearOf(d) <= MaxYear
  {
    var y := YearOf(d);
    RangeEnds();
    if y < MinYear {
      YearStartBounds(y + 1, MinYear);
    } else if y <= MaxYear {
      YearStartBounds(MinYear, y);
      YearStartBounds(y + 1, MaxYear + 1);
    } else {
      YearStartBounds(MaxYear + 1, y);
    }
  }

  /** The Monday on or before day d. */
  function MondayOfDay(d: int): int {
    d - Weekday(d)
  }

  /** monoversion.py's `monday_date`, as a timestamp: the date of ts, minus
      `weekday()` days, with the time of day set to 00:00:00. */
  function MondayOf(ts: int): int {
    MondayOfDay(DayOf(ts)) * SecondsPerDay
  }

  /** A timestamp that is the start of a Monday. */
  predicate IsMondayMidnight(t: int) {
    t % SecondsPerDay == 0 && Weekday(t / SecondsPerDay) == 0
  }

  /** MondayOf(ts) is a Monday midnight no later than ts, and ts lies in the
      seven days that follow it. */
  lemma MondayOfBounds(ts: int)
    ensures IsMondayMidnight(MondayOf(ts))
    ensures MondayOf(ts) <= ts < MondayOf(ts) + SecondsPerWeek
  {
    var d := DayOf(ts);
    var m := MondayOfDay(d);
    assert MondayOf(ts) / SecondsPerDay == m;
    assert d * SecondsPerDay <= ts < (d + 1) * SecondsPerDay;
  }

  /** Those properties determine MondayOf(ts): no other Monday midnight has
      ts in the week it starts. */
  lemma MondayOfUnique(ts: int, t: int)
    ensures (IsMondayMidnight(t) && t <= ts < t + SecondsPerWeek) <==> t == MondayOf(ts)
  {
    MondayOfBounds(ts);
    if IsMondayMidnight(t) && t <= ts < t + SecondsPerWeek {
      var m := MondayOf(ts);
      var a, b := t / SecondsPerDay, m / SecondsPerDay;
      assert t == a * SecondsPerDay && m == b * SecondsPerDay;
      assert (a + 3) % 7 == 0 && (b + 3) % 7 == 0;
      assert a - 7 < b < a + 7;
      assert (a - b) % 7 == 0;
    }
  }

  /** At Monday 00:00:00 the week starts at ts itself, never at the previous
      Monday. */
  lemma MondayOfMondayMidnight(ts: int)
    requires IsMondayMidnight(ts)
    ensures MondayOf(ts) == ts
  {
    MondayOfUnique(ts, ts);
  }

  lemma MondayOfIdempotent(ts: int)
    ensures MondayOf(MondayOf(ts)) == MondayOf(ts)
  {
    MondayOfBounds(ts);
    MondayOfMondayMidnight(MondayOf(ts));
  }

  /** Every timestamp in the week that MondayOf(ts) starts has that Monday. */
  lemma MondayOfSameWeek(ts: int, other: int)
    requires MondayOf(ts) <= other < MondayOf(ts) + SecondsPerWeek
    ensures MondayOf(other) == MondayOf(ts)
  {
    MondayOfBounds(ts);
    MondayOfUnique(other, MondayOf(ts));
  }

  /** 0001-01-01 was a Monday. */
  lemma MinDayIsMonday()
    ensures Weekday(MinDay) == 0
  {
  }

  /** Subtracting `weekday()` days from a representable date stays
      representable: the date never moves below 0001-01-01, a Monday, and
      never past the date itself. */
  lemma MondayOfDayInRange(d: int)
    requires InRange(d)
    ensures InRange(MondayOfDay(d))
    ensures MondayOfDay(d) <= d
  {
    var n := d - MinDay;
    assert Weekday(d) == n % 7 by {
      assert d + 3 == n + 7 * (-102737);
      assert (n + 7 * (-102737)) % 7 == n % 7;
    }
  }

  /** The fields of C's `struct tm` that `strftime('%V')` reads, as Python
      fills them for a date: the year, the day of the year counted from 0,
      and the day of the week with Sunday as 0. */
  datatype Tm = Tm(year: int, yday: int, wday: int)

  function TimeTuple(d: int): (t: Tm)
    ensures 0 <= t.yday < YearLength(t.year)
    ensures 0 <= t.wday < DaysPerWeek && t.wday == (Weekday(d) + 1) % DaysPerWeek
    ensures t.year == YearOf(d) && d == YearStart(t.year) + t.yday
  {
    var y := YearOf(d);
    YearStartStep(y);
    Tm(y, d - YearStart(y), (Weekday(d) + 1) % DaysPerWeek)
  }
}
