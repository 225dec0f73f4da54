/** How far apart the days of a cron schedule can lie. The calendar repeats every 400 years, which are whole weeks, so
    one such cycle of days decides. */
module CronGaps {
  import opened Gregorian
  import opened CronFields

  const SEARCH_DAYS: nat := 366 * 8 + 1

  /** Days in 400 years. */
  const CYCLE: nat := 146097

  // The calendar repeats.

  lemma LeapsRepeat(year: nat)
    ensures IsLeap(year + 400) == IsLeap(year)
  {
    assert (year + 400) % 4 == year % 4 by {
      assert year + 400 == 4 * (year / 4 + 100) + year % 4;
    }
    assert (year + 400) % 100 == year % 100 by {
      assert year + 400 == 100 * (year / 100 + 4) + year % 100;
    }
  }

  lemma YearsRepeat(year: nat)
    requires year >= 1
    ensures DaysBeforeYear(year + 400) == DaysBeforeYear(year) + CYCLE
  {
    var y := year - 1;
    assert (y + 400) / 4 == y / 4 + 100;
    assert (y + 400) / 100 == y / 100 + 4;
    assert (y + 400) / 400 == y / 400 + 1;
  }

  lemma {:induction false} MonthsRepeat(year: nat, month: nat)
    requires 1 <= month <= 12
    ensures DaysBeforeMonth(year + 400, month) == DaysBeforeMonth(year, month)
  {
    if month > 1 {
      LeapsRepeat(year);
      MonthsRepeat(year, month - 1);
    }
  }

  lemma CycleLater(d: Date, later: Date)
    requires IsDate(d) && later == Date(d.year + 400, d.month, d.day)
    ensures IsDate(later) && DayNumber(later) == DayNumber(d) + CYCLE
  {
    LeapsRepeat(d.year);
    YearsRepeat(d.year);
    MonthsRepeat(d.year, d.month);
  }

  /** The date one cycle on is the same day of the same month, 400 years later. */
  lemma DatesRepeat(n: nat, later: nat)
    requires n >= 1 && later == n + CYCLE
    ensures DateOf(later) == Date(DateOf(n).year + 400, DateOf(n).month, DateOf(n).day)
  {
    var d := DateOf(n);
    NumberOfDate(n);
    CycleLater(d, Date(d.year + 400, d.month, d.day));
    DateOfNumber(Date(d.year + 400, d.month, d.day));
  }

  lemma WeekdaysRepeat(n: nat)
    ensures (n + CYCLE) % 7 == n % 7
  {
    assert n + CYCLE == 7 * (n / 7 + 20871) + n % 7;
  }

  /** A schedule selects a day exactly when it selects the day one cycle on. */
  lemma MatchesRepeat(c: Cron, n: nat, later: nat)
    requires n >= 1 && later == n + CYCLE
    ensures MatchesDay(c, later) <==> MatchesDay(c, n)
  {
    DatesRepeat(n, later);
    WeekdaysRepeat(n);
  }

  // Days no search misses.

  /** Some selected day lies at least `lead` days after day `n` and within the search that starts there. */
  predicate MatchWithin(c: Cron, n: nat, lead: nat)
    requires n >= 1
  {
    exists m: nat :: n + lead <= m < n + 2929 && MatchesDay(c, m)
  }

  /** Every day of one cycle has such a day after it: a finite check of the month and day fields alone. */
  predicate CloseMatches(c: Cron, lead: nat) {
    forall n: nat :: 1 <= n <= CYCLE ==> MatchWithin(c, n, lead)
  }

  /** Checking one cycle is checking all days. */
  lemma {:induction false} OneCycleDecides(c: Cron, lead: nat, n: nat)
    requires CloseMatches(c, lead) && n >= 1
    ensures MatchWithin(c, n, lead)
  {
    if n > CYCLE {
      OneCycleDecides(c, lead, n - CYCLE);
      var m: nat :| n - CYCLE + lead <= m < n - CYCLE + SEARCH_DAYS && MatchesDay(c, m);
      MatchesRepeat(c, m, m + CYCLE);
    }
  }

  // How far a selected day can be.

  lemma NearYears(day: nat, d: Date)
    requires IsDate(d) && DayNumber(d) == day
    ensures DaysBeforeYear(d.year + 1) == DaysBeforeYear(d.year) + YearLength(d.year)
    ensures DaysBeforeYear(d.year + 2) == DaysBeforeYear(d.year + 1) + YearLength(d.year + 1)
    ensures DaysBeforeYear(d.year + 3) == DaysBeforeYear(d.year + 2) + YearLength(d.year + 2)
    ensures DaysBeforeYear(d.year) < day <= DaysBeforeYear(d.year + 1)
  {
    YearStep(d.year);
    YearStep(d.year + 1);
    YearStep(d.year + 2);
    InsideYear(d);
  }

  /** Any date two years on is between two days and a little over three years ahead. */
  lemma TwoYearsOn(day: nat, d: Date, later: Date)
    requires IsDate(d) && DayNumber(d) == day && IsDate(later) && later.year == d.year + 2
    ensures day + 2 <= DayNumber(later) <= day + 1098
    ensures DateOf(DayNumber(later)) == later
  {
    NearYears(day, d);
    YearStep(later.year);
    InsideYear(later);
    DateOfNumber(later);
  }

  lemma DaysToWeekday(base: nat, w: nat) returns (k: nat)
    requires w < 7
    ensures k < 7 && (base + k) % 7 == w
  {
    var weeks, past := base / 7, base % 7;
    assert base == 7 * weeks + past;
    if past <= w {
      k := w - past;
      assert base + k == 7 * weeks + w;
    } else {
      k := w + 7 - past;
      assert base + k == 7 * (weeks + 1) + w;
    }
  }

  /** Within any week every weekday occurs. */
  lemma WeekdayInFirstWeek(year: nat, month: nat, w: nat) returns (day: nat)
    requires year >= 1 && 1 <= month <= 12 && w < 7
    ensures 1 <= day <= 7 && DayNumber(Date(year, month, day)) % 7 == w
  {
    var base := DayNumber(Date(year, month, 1));
    var k := DaysToWeekday(base, w);
    day := k + 1;
    assert DayNumber(Date(year, month, day)) == base + k;
  }

  lemma EightYears(y: nat)
    requires y >= 1
    ensures DaysBeforeYear(y + 4)
            == DaysBeforeYear(y) + YearLength(y) + YearLength(y + 1) + YearLength(y + 2) + YearLength(y + 3)
    ensures DaysBeforeYear(y + 8)
            == DaysBeforeYear(y + 4) + YearLength(y + 4) + YearLength(y + 5) + YearLength(y + 6) + YearLength(y + 7)
  {
    YearStep(y);
    YearStep(y + 1);
    YearStep(y + 2);
    YearStep(y + 3);
    YearStep(y + 4);
    YearStep(y + 5);
    YearStep(y + 6);
    YearStep(y + 7);
  }

  lemma BetweenLeaps(y: nat)
    requires y % 4 == 0
    ensures !IsLeap(y + 1) && !IsLeap(y + 2) && !IsLeap(y + 3)
    ensures (y + 4) % 4 == 0
  {
  }

  lemma AfterPlainCentury(y: nat)
    requires y % 4 == 0 && !IsLeap(y)
    ensures IsLeap(y + 4)
  {
    var century := y / 100;
    assert y == 100 * century;
    assert y + 4 == 100 * century + 4;
  }

  /** From a leap year the next is four years on, or eight across a century year that is not one. */
  lemma LeapAfterLeap(y: nat) returns (leap: nat)
    requires y >= 1 && IsLeap(y)
    ensures IsLeap(leap) && y < leap
    ensures 365 <= DaysBeforeYear(leap) - DaysBeforeYear(y) <= 2921
  {
    EightYears(y);
    BetweenLeaps(y);
    BetweenLeaps(y + 4);
    if IsLeap(y + 4) {
      leap := y + 4;
    } else {
      AfterPlainCentury(y + 4);
      leap := y + 8;
    }
  }

  lemma {:induction false} YearsSpan(y: nat, n: nat)
    requires y >= 1
    ensures 365 * n <= DaysBeforeYear(y + n) - DaysBeforeYear(y) <= 366 * n
    decreases n
  {
    if n > 0 {
      YearStep(y + n - 1);
      YearsSpan(y, n - 1);
    }
  }

  /** From any other year a leap year comes within seven. */
  lemma LeapWithinSeven(y: nat) returns (leap: nat)
    requires y >= 1 && !IsLeap(y)
    ensures IsLeap(leap) && y < leap <= y + 7
  {
    var past := y % 4;
    if past == 0 {
      AfterPlainCentury(y);
      leap := y + 4;
    } else {
      leap := NextFourth(y);
      if !IsLeap(leap) {
        AfterPlainCentury(leap);
        leap := leap + 4;
      }
    }
  }

  lemma NextFourth(y: nat) returns (fourth: nat)
    requires y % 4 != 0
    ensures fourth % 4 == 0 && y < fourth <= y + 3
  {
    var quarter, past := y / 4, y % 4;
    assert y == 4 * quarter + past;
    fourth := 4 * (quarter + 1);
  }

  /** A 29 February lies between 2 and 2922 days ahead of every day. */
  lemma NextLeapDay(day: nat, d: Date) returns (later: Date)
    requires IsDate(d) && DayNumber(d) == day
    ensures IsDate(later) && later.month == 2 && later.day == 29
    ensures day + 2 <= DayNumber(later) <= day + 2922
    ensures DateOf(DayNumber(later)) == later
  {
    var before := DaysBeforeYear(d.year);
    InsideYear(d);
    if IsLeap(d.year) && day - before <= 58 {
      later := Date(d.year, 2, 29);
    } else if IsLeap(d.year) {
      var leap := LeapAfterLeap(d.year);
      later := Date(leap, 2, 29);
    } else {
      var leap := LeapWithinSeven(d.year);
      YearsSpan(d.year, leap - d.year);
      YearsSpan(d.year + 1, leap - d.year - 1);
      YearStep(d.year);
      later := Date(leap, 2, 29);
    }
    assert DaysBeforeMonth(later.year, 2) == DaysBeforeMonth(later.year, 1) + 31;
    DateOfNumber(later);
  }

  /** Every searchable schedule has a matching day between 2 and 2922 days ahead of every day. */
  lemma MatchAhead(c: Cron, day: nat) returns (match_: nat)
    requires CronFits(c) && Searchable(c) && day >= 1
    ensures day + 2 <= match_ <= day + 2922 && MatchesDay(c, match_)
  {
    NumberOfDate(day);
    if c.dayOr || forall n :: 1 <= n <= 31 ==> n in c.days {
      match_ := WeekdayAhead(c, day, DateOf(day));
    } else {
      match_ := DateAhead(c, day, DateOf(day));
    }
  }

  /** Where a matching weekday suffices, the first week of a matching month has one. */
  lemma WeekdayAhead(c: Cron, day: nat, d: Date) returns (match_: nat)
    requires CronFits(c) && (c.dayOr || forall n :: 1 <= n <= 31 ==> n in c.days)
    requires IsDate(d) && DayNumber(d) == day && day >= 1
    ensures day + 2 <= match_ <= day + 2922 && MatchesDay(c, match_)
  {
    var m, w := c.months[0], c.weekdays[0];
    assert m in c.months && w in c.weekdays;
    var number := WeekdayInFirstWeek(d.year + 2, m, w);
    var later := Date(d.year + 2, m, number);
    TwoYearsOn(day, d, later);
    match_ := DayNumber(later);
  }

  lemma DateAhead(c: Cron, day: nat, d: Date) returns (match_: nat)
    requires CronFits(c) && !c.dayOr && forall w :: 0 <= w < 7 ==> w in c.weekdays
    requires IsDate(d) && DayNumber(d) == day && day >= 1
    ensures day + 2 <= match_ <= day + 2922 && MatchesDay(c, match_)
  {
    assert SomeDate(c);
    var i, j :| 0 <= i < |c.months| && 0 <= j < |c.days| && 1 <= c.months[i] <= 12
                && c.days[j] <= MonthLength(2000, c.months[i]);
    var m, n := c.months[i], c.days[j];
    assert m in c.months && n in c.days;
    if m == 2 && n == 29 {
      var later := NextLeapDay(day, d);
      match_ := DayNumber(later);
    } else {
      TwoYearsOn(day, d, Date(d.year + 2, m, n));
      match_ := DayNumber(Date(d.year + 2, m, n));
    }
  }

  lemma SearchableIsClose(c: Cron)
    requires CronFits(c) && Searchable(c)
    ensures CloseMatches(c, 2)
  {
    forall n: nat | 1 <= n <= CYCLE ensures MatchWithin(c, n, 2) {
      var m := MatchAhead(c, n);
    }
  }

  // 29 February restricted to Sundays: day-of-month `29` with the starred step `*/7` as day-of-week.
  const LEAP_SUNDAYS := Cron([0], [0], [29], [2], [0], false)

  /** The day numbers of 1 March 2004 and of 29 February 2032. */
  const MARCH_2004: nat := 731641

  const LEAP_DAY_2032: nat := 741867

  lemma LeapSundayYears(year: nat)
    requires 2004 <= year <= 2012 && IsLeap(year)
    ensures year == 2004 || (DaysBeforeYear(year) + 60) % 7 != 0
  {
    assert year == 2004 || year == 2008 || year == 2012;
  }

  lemma LeapSundaysFit()
    ensures CronFits(LEAP_SUNDAYS) && !Searchable(LEAP_SUNDAYS)
  {
    var c := LEAP_SUNDAYS;
    assert c.months[0] == 2 && c.days[0] == 29 <= MonthLength(2000, c.months[0]);
    assert 1 !in c.weekdays && 1 !in c.days;
  }

  lemma NoLeapSundayIn(n: nat, d: Date)
    requires IsDate(d) && DayNumber(d) == n && d.month == 2 && d.day == 29
    requires MARCH_2004 <= n < MARCH_2004 + SEARCH_DAYS
    ensures n % 7 != 0
  {
    InsideYear(d);
    assert DaysBeforeMonth(d.year, 2) == DaysBeforeMonth(d.year, 1) + 31;
    LeapSundayYears(d.year);
  }

  lemma LeapSundayIs(n: nat)
    requires n >= 1
    ensures MatchesDay(LEAP_SUNDAYS, n) <==> DateOf(n).month == 2 && DateOf(n).day == 29 && n % 7 == 0
  {
  }

  lemma NoLeapSunday(n: nat)
    requires MARCH_2004 <= n < MARCH_2004 + SEARCH_DAYS
    ensures !MatchesDay(LEAP_SUNDAYS, n)
  {
    LeapSundayIs(n);
    NumberOfDate(n);
    if DateOf(n).month == 2 && DateOf(n).day == 29 {
      NoLeapSundayIn(n, DateOf(n));
    }
  }

  lemma LeapSundayNumbers()
    ensures DayNumber(Date(2004, 3, 1)) == MARCH_2004
    ensures DayNumber(Date(2032, 2, 29)) == LEAP_DAY_2032
  {
    assert DaysBeforeMonth(2004, 2) == 31 && DaysBeforeMonth(2004, 3) == 60;
    assert DaysBeforeMonth(2032, 2) == 31;
  }

  lemma LeapSundayOn(n: nat, d: Date)
    requires IsDate(d) && DayNumber(d) == n && d.month == 2 && d.day == 29 && n % 7 == 0
    ensures MatchesDay(LEAP_SUNDAYS, n)
  {
    DateOfNumber(d);
    LeapSundayIs(n);
  }

  lemma LeapSundayIn2032(n: nat)
    requires n == LEAP_DAY_2032
    ensures MatchesDay(LEAP_SUNDAYS, n)
  {
    LeapSundayNumbers();
    LeapSundayOn(n, Date(2032, 2, 29));
  }
}
