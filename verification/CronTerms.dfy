/** What the terms of a cron expression say, minute by minute and without the parsed schedule. */
module CronTerms {
  import opened Wrappers
  import opened Collections
  import opened Gregorian
  import opened CronFields
  import opened CronTicks
  import opened CronGaps
  import opened CronSearch

  function StepsOn(start: nat, step: int, k: nat): int {
    start + k * step
  }

  /** `n` is reached from `start` in whole steps, and not past `end`. */
  ghost predicate InSteps(start: nat, end: nat, step: int, n: nat) {
    n <= end && exists k: nat :: n == StepsOn(start, step, k)
  }

  /** The values of a term: `*` all of the field, `a-b` a range, `v` one value, or with a step from `v` to the end. */
  ghost predicate Names(term: Term, high: nat, low: nat, n: nat) {
    var step := if term.step.None? then 1 else term.step.value;
    || (term.base == Star && InSteps(low, high, step, n))
    || (term.base.Range? && InSteps(term.base.first, term.base.last, step, n))
    || (term.base.Value? && InSteps(term.base.value, if term.step.None? then term.base.value else high, step, n))
  }

  ghost predicate Named(field: Field, low: nat, high: nat, n: nat) {
    exists k :: 0 <= k < |field| && Names(field[k], high, low, n)
  }

  /** A positive step, and values in order and inside the field. */
  ghost predicate TermIsGood(term: Term, low: nat, high: nat) {
    && (term.step.Some? ==> term.step.value >= 1)
    && match term.base
       case Star => true
       case Range(first, last) => low <= first <= last <= high
       case Value(value) => low <= value <= high
  }

  ghost predicate FieldIsGood(field: Field, low: nat, high: nat) {
    forall k :: 0 <= k < |field| ==> TermIsGood(field[k], low, high)
  }

  ghost predicate NoStar(field: Field) {
    forall k :: 0 <= k < |field| ==> field[k].base != Star
  }

  /** Whether the day of the month alone is named; a business-day rule names every day. */
  ghost predicate DayNamed(e: Expression, day: nat) {
    e.dayOfMonth.Business? || Named(e.dayOfMonth.terms, 1, 31, day)
  }

  /** Whether the weekday alone is named, Sunday as 0 or 7. */
  ghost predicate WeekdayNamed(e: Expression, weekday: nat) {
    Named(e.dayOfWeek, 0, 7, weekday) || (weekday == 0 && Named(e.dayOfWeek, 0, 7, 7))
  }

  /** Neither day field holds a star, so that either may match. */
  ghost predicate DaysAreAlternatives(e: Expression) {
    e.dayOfMonth.Days? && NoStar(e.dayOfMonth.terms) && NoStar(e.dayOfWeek)
  }

  /** The expression names the minute `m` of hour `h` on the date `d`. */
  ghost predicate Selects(e: Expression, d: Date, h: nat, m: nat)
    requires IsDate(d)
  {
    && Named(e.minute, 0, 59, m) && Named(e.hour, 0, 23, h) && Named(e.month, 1, 12, d.month)
    && if DaysAreAlternatives(e) then DayNamed(e, d.day) || WeekdayNamed(e, DayNumber(d) % 7)
       else DayNamed(e, d.day) && WeekdayNamed(e, DayNumber(d) % 7)
  }

  /** A named month and day that a leap year has. */
  ghost predicate NamesDate(e: Expression, month: nat, day: nat) {
    && 1 <= month <= 12 && 1 <= day <= 31 && (month == 2 ==> day <= 29)
    && (month == 4 || month == 6 || month == 9 || month == 11 ==> day <= 30)
    && Named(e.month, 1, 12, month) && DayNamed(e, day)
  }

  /** Good terms; `*` beside a business-day rule; and, when both day fields must match, a named day of a named month
      that a leap year has. */
  ghost predicate Accepted(e: Expression) {
    && FieldIsGood(e.minute, 0, 59) && FieldIsGood(e.hour, 0, 23) && FieldIsGood(e.month, 1, 12)
    && FieldIsGood(e.dayOfWeek, 0, 7)
    && (if e.dayOfMonth.Days? then FieldIsGood(e.dayOfMonth.terms, 1, 31) else e.dayOfWeek == [Term(Star, None)])
    && (DaysAreAlternatives(e)
        || exists month, day :: NamesDate(e, month, day))
  }

  // The parsed schedule says the same.

  lemma StepsAreMultiples(start: nat, end: nat, step: int, n: nat)
    requires step >= 1
    ensures InSteps(start, end, step, n) <==> start <= n <= end && (n - start) % step == 0
  {
    if start <= n && (n - start) % step == 0 {
      var k: nat := (n - start) / step;
      assert n == StepsOn(start, step, k);
    }
    if k: nat :| n == StepsOn(start, step, k) {
      MultipleIsWhole(k, step);
      assert n - start == k * step;
    }
  }

  lemma SmallMultiple(d: int, step: int)
    requires 0 <= d * step < step
    ensures d == 0
  {
    assert d >= 1 ==> d * step >= step;
    assert d <= -1 ==> d * step <= -step;
  }

  lemma MultipleIsWhole(k: nat, step: int)
    requires step >= 1
    ensures k * step >= 0 && (k * step) % step == 0
  {
    var q, r := (k * step) / step, (k * step) % step;
    assert (k - q) * step == k * step - q * step == r;
    SmallMultiple(k - q, step);
  }

  lemma CoversIsNames(term: Term, low: nat, high: nat, n: nat)
    requires TermFits(term, low, high)
    ensures Covers(term, low, high, n) <==> Names(term, high, low, n)
  {
    StepsAreMultiples(First(term, low), Last(term, high), StepOf(term), n);
  }

  lemma GoodIsFit(field: Field, low: nat, high: nat)
    requires low <= high
    ensures FieldFits(field, low, high) <==> FieldIsGood(field, low, high)
  {
  }

  lemma SelectedIsNamed(field: Field, low: nat, high: nat, n: nat)
    requires FieldFits(field, low, high)
    ensures n in Selected(field, low, high) <==> Named(field, low, high, n)
  {
    forall k | 0 <= k < |field| ensures Covers(field[k], low, high, n) <==> Names(field[k], high, low, n) {
      CoversIsNames(field[k], low, high, n);
    }
  }

  lemma DaysAreNamed(e: Expression, day: nat)
    requires FieldsFit(e) && 1 <= day <= 31
    ensures day in CronOf(e).days <==> DayNamed(e, day)
  {
    if e.dayOfMonth.Days? {
      SelectedIsNamed(e.dayOfMonth.terms, 1, 31, day);
    } else {
      StarSelectsAll(1, 31, day);
    }
  }

  lemma SevenIsSunday(n: nat, w: nat)
    requires n <= 7 && w < 7
    ensures n % 7 == w <==> n == w || (n == 7 && w == 0)
  {
  }

  lemma WeekdayFrom(e: Expression, w: nat, n: nat)
    requires n in Selected(e.dayOfWeek, 0, 7) && n % 7 == w
    ensures w in Weekdays(e)
  {
  }

  lemma WeekdaysAre(e: Expression, w: nat)
    requires w < 7
    ensures w in Weekdays(e) <==>
            w in Selected(e.dayOfWeek, 0, 7) || (w == 0 && 7 in Selected(e.dayOfWeek, 0, 7))
  {
    if w in Weekdays(e) {
      var n: nat :| n in Selected(e.dayOfWeek, 0, 7) && w == n % 7;
      SevenIsSunday(n, w);
    }
    SevenIsSunday(w, w);
    SevenIsSunday(7, 0);
    if w in Selected(e.dayOfWeek, 0, 7) {
      WeekdayFrom(e, w, w);
    }
    if w == 0 && 7 in Selected(e.dayOfWeek, 0, 7) {
      WeekdayFrom(e, 0, 7);
    }
  }

  lemma WeekdaysAreNamed(e: Expression, w: nat)
    requires FieldsFit(e) && w < 7
    ensures w in CronOf(e).weekdays <==> WeekdayNamed(e, w)
  {
    WeekdaysAre(e, w);
    SelectedIsNamed(e.dayOfWeek, 0, 7, w);
    SelectedIsNamed(e.dayOfWeek, 0, 7, 7);
  }

  lemma AlternativesAre(e: Expression)
    ensures CronOf(e).dayOr <==> DaysAreAlternatives(e)
  {
    assert e.dayOfMonth.Business? ==> ANY[0].base == Star;
  }

  lemma SomeDateAt(c: Cron, month: nat, day: nat)
    requires month in c.months && day in c.days && 1 <= month <= 12 && day <= MonthLength(2000, month)
    ensures SomeDate(c)
  {
    var i: nat :| i < |c.months| && c.months[i] == month;
    var j: nat :| j < |c.days| && c.days[j] == day;
  }

  lemma DateOfSome(c: Cron) returns (month: nat, day: nat)
    requires SomeDate(c)
    ensures month in c.months && day in c.days && 1 <= month <= 12 && day <= MonthLength(2000, month)
  {
    var i: nat, j: nat :| i < |c.months| && j < |c.days| && 1 <= c.months[i] <= 12
                          && c.days[j] <= MonthLength(2000, c.months[i]);
    month, day := c.months[i], c.days[j];
  }

  lemma MonthsAreNamed(e: Expression, month: nat)
    requires FieldsFit(e)
    ensures month in CronOf(e).months <==> 1 <= month <= 12 && Named(e.month, 1, 12, month)
  {
    SelectedIsNamed(e.month, 1, 12, month);
  }

  lemma DaysInRange(e: Expression, day: nat)
    ensures day in CronOf(e).days ==> 1 <= day <= 31
  {
  }

  lemma LeapYearMonth(month: nat, day: nat)
    requires 1 <= month <= 12
    ensures day <= MonthLength(2000, month) <==>
            && day <= 31 && (month == 2 ==> day <= 29)
            && (month == 4 || month == 6 || month == 9 || month == 11 ==> day <= 30)
  {
  }

  lemma DateIsNamed(e: Expression, month: nat, day: nat)
    requires FieldsFit(e)
    ensures month in CronOf(e).months && day in CronOf(e).days && 1 <= month <= 12 && day <= MonthLength(2000, month)
            <==> NamesDate(e, month, day)
  {
    MonthsAreNamed(e, month);
    DaysInRange(e, day);
    if 1 <= month <= 12 && 1 <= day <= 31 {
      DaysAreNamed(e, day);
      LeapYearMonth(month, day);
    }
  }

  lemma SomeDateIsNamed(e: Expression)
    requires FieldsFit(e)
    ensures SomeDate(CronOf(e)) <==> exists month, day :: NamesDate(e, month, day)
  {
    if SomeDate(CronOf(e)) {
      var month, day := DateOfSome(CronOf(e));
      DateIsNamed(e, month, day);
    }
    if month, day :| NamesDate(e, month, day) {
      DateIsNamed(e, month, day);
      SomeDateAt(CronOf(e), month, day);
    }
  }

  /** `Parse` accepts exactly the expressions whose terms are good and name some date. */
  lemma AcceptedIs(e: Expression)
    ensures FieldsFit(e) && (!CronOf(e).dayOr ==> SomeDate(CronOf(e))) <==> Accepted(e)
  {
    GoodIsFit(e.minute, 0, 59);
    GoodIsFit(e.hour, 0, 23);
    GoodIsFit(DayTerms(e), 1, 31);
    GoodIsFit(e.month, 1, 12);
    GoodIsFit(e.dayOfWeek, 0, 7);
    AlternativesAre(e);
    if FieldsFit(e) {
      SomeDateIsNamed(e);
    }
  }

  // Ticks, from the terms.

  /** The instant at which the zone's clock first shows a minute at or after minute `m` of hour `h` on the date `d`. */
  ghost predicate FiresAt(z: Zone, d: Date, h: nat, m: nat, u: Instant)
    requires IsDate(d)
  {
    exists v: Minute :: FirstValidAt(z, DayNumber(d) * 1440 + h * 60 + m, v) && u == z.utc(v)
  }

  /** The expression names a minute of a supported date that fires at `u`. */
  ghost predicate IsTermTick(e: Expression, z: Zone, u: Instant) {
    exists d: Date, h: nat, m: nat :: IsDate(d) && d.year <= 9999 && Selects(e, d, h, m) && FiresAt(z, d, h, m, u)
  }

  lemma LastYear(d: Date)
    requires IsDate(d)
    ensures d.year <= 9999 <==> DayNumber(d) <= LAST_DAY
  {
    InsideYear(d);
    assert DaysBeforeYear(10000) == LAST_DAY;
    if d.year < 9999 {
      YearsIncrease(d.year, 9999);
    } else if d.year > 10000 {
      YearsIncrease(10000, d.year);
    }
    YearStep(9999);
  }

  lemma HoursAreNamed(e: Expression, h: nat)
    requires FieldsFit(e)
    ensures h in CronOf(e).hours <==> Named(e.hour, 0, 23, h)
  {
    SelectedIsNamed(e.hour, 0, 23, h);
  }

  lemma MinutesAreNamed(e: Expression, m: nat)
    requires FieldsFit(e)
    ensures m in CronOf(e).minutes <==> Named(e.minute, 0, 59, m)
  {
    SelectedIsNamed(e.minute, 0, 59, m);
  }

  lemma NamedInside(field: Field, low: nat, high: nat, n: nat)
    requires FieldFits(field, low, high) && Named(field, low, high, n)
    ensures low <= n <= high
  {
    SelectedIsNamed(field, low, high, n);
  }

  /** A date's day is selected by the schedule exactly when the terms name it. */
  lemma DayIsSelected(e: Expression, d: Date)
    requires FieldsFit(e) && IsDate(d)
    ensures MatchesDay(CronOf(e), DayNumber(d)) <==>
            Named(e.month, 1, 12, d.month)
            && if DaysAreAlternatives(e) then DayNamed(e, d.day) || WeekdayNamed(e, DayNumber(d) % 7)
               else DayNamed(e, d.day) && WeekdayNamed(e, DayNumber(d) % 7)
  {
    DateOfNumber(d);
    AlternativesAre(e);
    MonthsAreNamed(e, d.month);
    DaysAreNamed(e, d.day);
    WeekdaysAreNamed(e, DayNumber(d) % 7);
  }

  lemma FiresIs(z: Zone, d: Date, h: nat, m: nat, u: Instant)
    requires ZoneFits(z) && IsDate(d)
    ensures FiresAt(z, d, h, m, u) <==> u == Fires(z, WallMinute(DayNumber(d), h, m))
  {
    var w: Minute := DayNumber(d) * 1440 + h * 60 + m;
    assert w == WallMinute(DayNumber(d), h, m);
    assert FirstValidAt(z, w, FirstValid(z, w));
  }

  lemma SelectedTick(e: Expression, z: Zone, d: Date, h: nat, m: nat, u: Instant)
    requires FieldsFit(e) && ZoneFits(z) && IsDate(d) && d.year <= 9999
    requires Selects(e, d, h, m) && FiresAt(z, d, h, m, u)
    ensures IsTick(CronOf(e), z, CronDue(CronOf(e)), u)
  {
    LastYear(d);
    DayIsSelected(e, d);
    HoursAreNamed(e, h);
    MinutesAreNamed(e, m);
    FiresIs(z, d, h, m, u);
    assert IsDayTick(CronOf(e), z, DayNumber(d), u);
    assert CronDue(CronOf(e))(DayNumber(d));
  }

  lemma TickIsSelected(e: Expression, z: Zone, u: Instant) returns (d: Date, h: nat, m: nat)
    requires FieldsFit(e) && ZoneFits(z) && IsTick(CronOf(e), z, CronDue(CronOf(e)), u)
    ensures IsDate(d) && d.year <= 9999 && Selects(e, d, h, m) && FiresAt(z, d, h, m, u)
  {
    var c := CronOf(e);
    var day: nat :| 1 <= day <= LAST_DAY && CronDue(c)(day) && IsDayTick(c, z, day, u);
    h, m :| h in c.hours && m in c.minutes && u == Fires(z, WallMinute(day, h, m));
    d := DateOf(day);
    NumberOfDate(day);
    LastYear(d);
    DayIsSelected(e, d);
    HoursAreNamed(e, h);
    MinutesAreNamed(e, m);
    FiresIs(z, d, h, m, u);
  }

  /** In every zone the ticks are exactly the instants at which minutes that the terms name fire. */
  lemma TicksFromTerms(e: Expression, z: Zone, u: Instant)
    requires Accepted(e) && ZoneFits(z)
    ensures IsTick(CronOf(e), z, CronDue(CronOf(e)), u) <==> IsTermTick(e, z, u)
  {
    AcceptedIs(e);
    if IsTick(CronOf(e), z, CronDue(CronOf(e)), u) {
      var d, h, m := TickIsSelected(e, z, u);
    }
    if d: Date, h: nat, m: nat :| IsDate(d) && d.year <= 9999 && Selects(e, d, h, m) && FiresAt(z, d, h, m, u) {
      SelectedTick(e, z, d, h, m, u);
    }
  }

  lemma SameMinute(day: nat, h: nat, m: nat, day': nat, h': nat, m': nat)
    requires h <= 23 && m <= 59 && h' <= 23 && m' <= 59
    requires day * 1440 + h * 60 + m == day' * 1440 + h' * 60 + m'
    ensures day == day' && h == h' && m == m'
  {
  }

  lemma UtcTickIsSelected(e: Expression, d: Date, h: nat, m: nat, u: Instant)
    requires FieldsFit(e) && ZoneFits(UTC) && IsDate(d) && h <= 23 && m <= 59
    requires u == DayNumber(d) * 1440 + h * 60 + m && IsTick(CronOf(e), UTC, CronDue(CronOf(e)), u)
    ensures Selects(e, d, h, m)
  {
    var d', h', m' := TickIsSelected(e, UTC, u);
    NamedInside(e.hour, 0, 23, h');
    NamedInside(e.minute, 0, 59, m');
    UtcFires(d', h', m', u);
    SameMinute(DayNumber(d), h, m, DayNumber(d'), h', m');
    NumbersDiffer(d, d');
  }

  lemma UtcSelectedTick(e: Expression, d: Date, h: nat, m: nat, u: Instant)
    requires FieldsFit(e) && ZoneFits(UTC) && IsDate(d) && d.year <= 9999
    requires u == DayNumber(d) * 1440 + h * 60 + m && Selects(e, d, h, m)
    ensures IsTick(CronOf(e), UTC, CronDue(CronOf(e)), u)
  {
    UtcFires(d, h, m, u);
    SelectedTick(e, UTC, d, h, m, u);
  }

  /** In UTC, minute by minute: a minute of a supported date is a tick exactly when the terms name it. */
  lemma UtcTicksFromTerms(e: Expression, d: Date, h: nat, m: nat, u: Instant)
    requires Accepted(e) && ZoneFits(UTC) && IsDate(d) && d.year <= 9999 && h <= 23 && m <= 59
    requires u == DayNumber(d) * 1440 + h * 60 + m
    ensures IsTick(CronOf(e), UTC, CronDue(CronOf(e)), u) <==> Selects(e, d, h, m)
  {
    AcceptedIs(e);
    if Selects(e, d, h, m) {
      UtcSelectedTick(e, d, h, m, u);
    }
    if IsTick(CronOf(e), UTC, CronDue(CronOf(e)), u) {
      UtcTickIsSelected(e, d, h, m, u);
    }
  }

  lemma UtcFires(d: Date, h: nat, m: nat, u: Instant)
    requires IsDate(d)
    ensures FiresAt(UTC, d, h, m, u) <==> u == DayNumber(d) * 1440 + h * 60 + m
  {
    var w: Minute := DayNumber(d) * 1440 + h * 60 + m;
    assert UTC.valid(w) && FirstValidAt(UTC, w, w) && UTC.utc(w) == w;
    if v: Minute :| FirstValidAt(UTC, w, v) && u == UTC.utc(v) {
      assert v == w;
    }
  }

  /** What the search answers in UTC for an accepted expression: a named minute after `t`, and none is named between. */
  lemma NextInUtc(e: Expression, t: Instant, u: Instant, d: Date, h: nat, m: nat)
    requires Accepted(e) && ZoneFits(UTC) && NextTick(CronOf(e), UTC, CronDue(CronOf(e)), t, u)
    requires IsDate(d) && d.year <= 9999 && h <= 23 && m <= 59
    ensures var minute := DayNumber(d) * 1440 + h * 60 + m;
            && t < u && (minute == u ==> Selects(e, d, h, m)) && (t < minute < u ==> !Selects(e, d, h, m))
  {
    UtcTicksFromTerms(e, d, h, m, DayNumber(d) * 1440 + h * 60 + m);
  }
}
