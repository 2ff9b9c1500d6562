/**
 * ISO 8601 week numbers (ISO 8601:2004, section 4.1.4): weeks start on
 * Monday, each week belongs to the calendar year that holds its Thursday, and
 * week 1 is the week that holds the year's first Thursday.
 *
 * IsoWeekNumber is that definition.  StrftimeWeek is how the C library's
 * `strftime` computes `%V` from a `struct tm` (the GNU C library's algorithm,
 * which Python's `datetime.strftime` calls).  StrftimeWeekIsIso proves the
 * two agree on every representable date, across year ends included.
 */
module IsoWeek {
  import opened Calendar

  /** The Thursday of the Monday-started week that holds day d. */
  function ThursdayOf(d: int): int {
    MondayOfDay(d) + 3
  }

  /** The year a week belongs to: the Gregorian year of its Thursday. */
  function IsoWeekYear(d: int): int
  {
    YearOf(ThursdayOf(d))
  }

  /** The ISO week number of day d: 1 plus the number of whole weeks between
      its year's first Thursday and the Thursday of its own week. */
  function IsoWeekNumber(d: int): (w: int)
    ensures 1 <= w <= 53
  {
    var y := IsoWeekYear(d);
    YearStartStep(y);
    (ThursdayOf(d) - YearStart(y)) / DaysPerWeek + 1
  }

  /** The Monday that starts week 1 of year y: that of the week holding
      January 4. */
  function WeekOneMonday(y: int): int {
    MondayOfDay(YearStart(y) + 3)
  }

  /** A Thursday lies in year z or later exactly when its week starts no
      earlier than week 1 of z. */
  lemma ThursdayNotBefore(d: int, z: int)
    ensures YearStart(z) <= ThursdayOf(d) <==> WeekOneMonday(z) <= d
  {
    var ys := YearStart(z);
    MondayShape(d);
    MondayShape(ys + 3);
    ThursdaysAlign(ThursdayOf(d), WeekOneMonday(z) + 3, ys);
    MondayNotAfter(d, WeekOneMonday(z));
  }

  /** The Monday of x's week is a Monday, and its Thursday, a multiple of 7,
      is within three days of x. */
  lemma MondayShape(x: int)
    ensures Weekday(MondayOfDay(x)) == 0
    ensures (MondayOfDay(x) + 3) % 7 == 0
    ensures x - 3 <= MondayOfDay(x) + 3 <= x + 3
  {
  }

  /** th is at or after ys exactly when it is at or after t1, the first
      Thursday (multiple of 7) at or after ys. */
  lemma ThursdaysAlign(th: int, t1: int, ys: int)
    requires th % 7 == 0 && t1 % 7 == 0
    requires ys <= t1 <= ys + 6
    ensures ys <= th <==> t1 <= th
  {
    var a, b := th / 7, t1 / 7;
    assert th == 7 * a && t1 == 7 * b;
  }

  /** A Monday w is on or before d exactly when it is on or before d's own
      Monday. */
  lemma MondayNotAfter(d: int, w: int)
    requires Weekday(w) == 0
    ensures w <= d <==> w <= MondayOfDay(d)
  {
  }

  /** Week-year z is the one whose week 1 starts on or before d and whose
      successor's week 1 starts after d; the week number counts weeks from
      that week 1. */
  lemma IsoWeekFromWeekOne(d: int, z: int)
    ensures IsoWeekYear(d) == z <==> WeekOneMonday(z) <= d < WeekOneMonday(z + 1)
    ensures IsoWeekYear(d) == z ==> IsoWeekNumber(d) == (d - WeekOneMonday(z)) / DaysPerWeek + 1
  {
    IsoWeekYearBetween(d, z);
    if IsoWeekYear(d) == z {
      assert YearStart(z) <= ThursdayOf(d);
      WeeksBetween(d, YearStart(z));
    }
  }

  lemma IsoWeekYearBetween(d: int, z: int)
    ensures IsoWeekYear(d) == z <==> WeekOneMonday(z) <= d < WeekOneMonday(z + 1)
  {
    ThursdayNotBefore(d, z);
    ThursdayNotBefore(d, z + 1);
    if WeekOneMonday(z) <= d < WeekOneMonday(z + 1) {
      YearOfUnique(ThursdayOf(d), z);
    }
  }

  /** Counted from a year that starts on ys and holds the Thursday of d's week,
      the whole weeks up to that Thursday are the whole weeks from the Monday
      of week 1 up to d. */
  lemma WeeksBetween(d: int, ys: int)
    requires ys <= ThursdayOf(d)
    ensures (ThursdayOf(d) - ys) / 7 == (d - MondayOfDay(ys + 3)) / 7
  {
    var th, t1 := ThursdayOf(d), MondayOfDay(ys + 3) + 3;
    MondayShape(d);
    MondayShape(ys + 3);
    ThursdaysAlign(th, t1, ys);
    var k := (th - t1) / 7;
    assert th - t1 == 7 * k;
    assert th - ys == 7 * k + (t1 - ys);
    assert d - MondayOfDay(ys + 3) == 7 * k + Weekday(d);
  }

  /** January 4 is always in week 1 of its own year. */
  lemma JanuaryFourthInWeekOne(y: int)
    ensures IsoWeekYear(YearStart(y) + 3) == y
    ensures IsoWeekNumber(YearStart(y) + 3) == 1
  {
    var d := YearStart(y) + 3;
    YearStartStep(y);
    IsoWeekFromWeekOne(d, y);
  }

  /** Week 1 is the week that holds its year's first Thursday: the week's
      Thursday is one of the first seven days of the year. */
  lemma WeekOneHoldsFirstThursday(d: int)
    ensures IsoWeekNumber(d) == 1 <==> ThursdayOf(d) - YearStart(IsoWeekYear(d)) < DaysPerWeek
  {
  }

  /** The week after a week is the next week of the same year, or week 1 of
      the next year. */
  lemma IsoWeekNext(d: int)
    ensures IsoWeekYear(d + 7) == IsoWeekYear(d) ==> IsoWeekNumber(d + 7) == IsoWeekNumber(d) + 1
    ensures IsoWeekYear(d + 7) != IsoWeekYear(d) ==>
              IsoWeekYear(d + 7) == IsoWeekYear(d) + 1 && IsoWeekNumber(d + 7) == 1
  {
    var y := IsoWeekYear(d);
    IsoWeekFromWeekOne(d, y);
    if d + 7 < WeekOneMonday(y + 1) {
      IsoWeekFromWeekOne(d + 7, y);
    } else {
      WeekOnesApart(y + 1);
      IsoWeekFromWeekOne(d + 7, y + 1);
    }
  }

  /** Week 1 of a year starts 52 or 53 weeks after week 1 of the year
      before. */
  lemma WeekOnesApart(y: int)
    ensures WeekOneMonday(y) + 364 <= WeekOneMonday(y + 1)
  {
    YearStartStep(y);
    WeekOneNearYearStart(y);
    WeekOneNearYearStart(y + 1);
    MondayShape(YearStart(y) + 3);
    MondayShape(YearStart(y + 1) + 3);
  }

  /** The ISO week-year of a Monday is its Gregorian year or the next one; it
      is the next one only for a Monday on December 29, 30 or 31, and that
      Monday starts week 1. */
  lemma MondayWeekYear(m: int)
    requires Weekday(m) == 0
    ensures IsoWeekYear(m) == YearOf(m) || IsoWeekYear(m) == YearOf(m) + 1
    ensures IsoWeekYear(m) == YearOf(m) + 1 <==> YearStart(YearOf(m) + 1) - 3 <= m
    ensures IsoWeekYear(m) == YearOf(m) + 1 ==> IsoWeekNumber(m) == 1
  {
    var y := YearOf(m);
    assert ThursdayOf(m) == m + 3;
    YearStartStep(y);
    if YearStart(y + 1) <= m + 3 {
      YearStartStep(y + 1);
      YearOfUnique(m + 3, y + 1);
    } else {
      YearOfUnique(m + 3, y);
    }
  }

  // The GNU C library's `%V`.  Its `%` is C's, which truncates; the operand
  // is kept non-negative by adding a multiple of 7, so Dafny's `%` agrees.

  const YdayMinimum: int := -366
  const IsoWeekStartWday: int := 1  // Monday, with Sunday as 0
  const IsoWeek1Wday: int := 4      // Thursday
  const BigEnoughMultipleOf7: int := (-YdayMinimum / 7 + 2) * 7

  /** The number of days from the Monday of week 1 of the year to the day of
      the year yday that falls on weekday wday. */
  function IsoWeekDays(yday: int, wday: int): int
    requires YdayMinimum <= yday && 0 <= wday < DaysPerWeek
  {
    yday
    - (yday - wday + IsoWeek1Wday + BigEnoughMultipleOf7) % 7
    + IsoWeek1Wday - IsoWeekStartWday
  }

  /** `strftime('%V')`: count from week 1 of the tm's year, or of the previous
      year when the day lies before that, or of the next year when the day
      lies in or after the next year's week 1. */
  function StrftimeWeek(t: Tm): int
    requires 0 <= t.yday < YearLength(t.year) && 0 <= t.wday < DaysPerWeek
  {
    var days := IsoWeekDays(t.yday, t.wday);
    if days < 0 then
      IsoWeekDays(t.yday + YearLength(t.year - 1), t.wday) / 7 + 1
    else
      var next := IsoWeekDays(t.yday - YearLength(t.year), t.wday);
      if 0 <= next then next / 7 + 1 else days / 7 + 1
  }

  /** Measured from January 1 of a year, which falls on day ys, IsoWeekDays is
      the distance from the Monday of that year's week 1. */
  lemma IsoWeekDaysAt(d: int, ys: int)
    requires YdayMinimum <= d - ys
    ensures IsoWeekDays(d - ys, (Weekday(d) + 1) % DaysPerWeek) == d - MondayOfDay(ys + 3)
  {
    var wd := (d + 4) % 7;
    var k := (d + 4) / 7;
    assert (Weekday(d) + 1) % 7 == wd;
    assert d - ys - wd + IsoWeek1Wday + BigEnoughMultipleOf7 == -ys + 7 * (k + 54);
    ModMultiple(-ys, k + 54);
    ModMultiple(ys + 6 - 7, 1);
    ResiduesSum(ys);
  }

  /** Adding a multiple of 7 leaves the remainder alone. */
  lemma ModMultiple(a: int, k: int)
    ensures (a + 7 * k) % 7 == a % 7
  {
    var q, r := a / 7, a % 7;
    assert a + 7 * k == 7 * (q + k) + r;
  }

  /** The remainders of ys + 6 and of -ys add up to 6. */
  lemma ResiduesSum(ys: int)
    ensures (ys + 6) % 7 + (-ys) % 7 == 6
  {
    var q, r := ys / 7, ys % 7;
    assert ys == 7 * q + r;
    if r == 0 {
      ModMultiple(6, q);
      ModMultiple(0, -q);
    } else {
      ModMultiple(r + 6, q);
      ModMultiple(7 - r, -q - 1);
    }
  }

  /** Week 1 of a year starts at most three days before or after its
      January 1. */
  lemma WeekOneNearYearStart(y: int)
    ensures YearStart(y) - 3 <= WeekOneMonday(y) <= YearStart(y) + 3
  {
  }

  /** `strftime('%V')` gives the ISO 8601 week number of every date. */
  lemma StrftimeWeekIsIso(d: int)
    ensures StrftimeWeek(TimeTuple(d)) == IsoWeekNumber(d)
  {
    var y := YearOf(d);
    var w0, w1, w2 := WeekOneMonday(y - 1), WeekOneMonday(y), WeekOneMonday(y + 1);
    StrftimeWeekFromWeekOnes(d);
    if d < w1 {
      assert w0 <= d by {
        YearStartStep(y - 1);
        WeekOneNearYearStart(y - 1);
      }
      IsoWeekFromWeekOne(d, y - 1);
    } else if w2 <= d {
      assert d < WeekOneMonday(y + 2) by {
        YearStartStep(y);
        YearStartStep(y + 1);
        WeekOneNearYearStart(y + 2);
      }
      IsoWeekFromWeekOne(d, y + 1);
    } else {
      IsoWeekFromWeekOne(d, y);
    }
  }

  /** `strftime('%V')` counts weeks from week 1 of the previous year before
      week 1 of the day's own year, from week 1 of the next year once that has
      begun, and from week 1 of the own year in between. */
  lemma StrftimeWeekFromWeekOnes(d: int)
    ensures var t := TimeTuple(d);
            var w0, w1, w2 := WeekOneMonday(t.year - 1), WeekOneMonday(t.year), WeekOneMonday(t.year + 1);
            StrftimeWeek(t) ==
              if d < w1 then (d - w0) / 7 + 1
              else if w2 <= d then (d - w2) / 7 + 1
              else (d - w1) / 7 + 1
  {
    var t := TimeTuple(d);
    var y := t.year;
    YearStartStep(y - 1);
    YearStartStep(y);
    StrftimeFromYearStarts(t, d, YearStart(y - 1), YearStart(y), YearStart(y + 1),
                           WeekOneMonday(y - 1), WeekOneMonday(y), WeekOneMonday(y + 1));
  }

  /** The same, for a tm of a year that starts on day ys1, after a year that
      starts on ys0 and before one that starts on ys2, whose weeks 1 start on
      w0, w1 and w2. */
  lemma StrftimeFromYearStarts(t: Tm, d: int, ys0: int, ys1: int, ys2: int, w0: int, w1: int, w2: int)
    requires 0 <= t.yday < YearLength(t.year) && 0 <= t.wday < DaysPerWeek
    requires t.yday == d - ys1 && t.wday == (Weekday(d) + 1) % DaysPerWeek
    requires ys1 == ys0 + YearLength(t.year - 1) && ys2 == ys1 + YearLength(t.year)
    requires w0 == MondayOfDay(ys0 + 3) && w1 == MondayOfDay(ys1 + 3) && w2 == MondayOfDay(ys2 + 3)
    ensures StrftimeWeek(t) ==
              if d < w1 then (d - w0) / 7 + 1
              else if w2 <= d then (d - w2) / 7 + 1
              else (d - w1) / 7 + 1
  {
    IsoWeekDaysAt(d, ys0);
    IsoWeekDaysAt(d, ys1);
    IsoWeekDaysAt(d, ys2);
    StrftimeOfDays(t, d, w0, w1, w2);
  }

  /** `strftime('%V')` of a tm whose three day counts are known. */
  lemma StrftimeOfDays(t: Tm, d: int, w0: int, w1: int, w2: int)
    requires 0 <= t.yday < YearLength(t.year) && 0 <= t.wday < DaysPerWeek
    requires IsoWeekDays(t.yday, t.wday) == d - w1
    requires IsoWeekDays(t.yday + YearLength(t.year - 1), t.wday) == d - w0
    requires IsoWeekDays(t.yday - YearLength(t.year), t.wday) == d - w2
    ensures StrftimeWeek(t) ==
              if d < w1 then (d - w0) / 7 + 1
              else if w2 <= d then (d - w2) / 7 + 1
              else (d - w1) / 7 + 1
  {
    StrftimeWeekCases(t);
  }

  /** The three branches of `strftime('%V')`, with the days counted from
      week 1 of the tm's year, of the previous year and of the next year. */
  lemma StrftimeWeekCases(t: Tm)
    requires 0 <= t.yday < YearLength(t.year) && 0 <= t.wday < DaysPerWeek
    ensures var here := IsoWeekDays(t.yday, t.wday);
            var before := IsoWeekDays(t.yday + YearLength(t.year - 1), t.wday);
            var after := IsoWeekDays(t.yday - YearLength(t.year), t.wday);
            StrftimeWeek(t) == if here < 0 then before / 7 + 1
                               else if 0 <= after then after / 7 + 1
                               else here / 7 + 1
  {
  }
}
