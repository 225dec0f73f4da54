/** The ticks of a schedule with a calendar: the next one, their enumeration, and the nth business day of a month. */
module ScheduleTicks {
  import opened Wrappers
  import opened Collections
  import opened Gregorian
  import opened CronFields
  import opened CronTicks
  import opened CronGaps
  import opened CronSearch
  import opened BusinessCalendars
  import opened TickLists

  datatype Tick = Tick(instant: Instant, runDate: nat, skipped: Option<Reason>)

  datatype Schedule = Schedule(cron: Cron, rule: Option<BusinessRule>, zone: Zone, calendar: Option<BusinessCalendar>,
                               policy: Policy)

  /** The days a schedule has ticks on, run or skipped. */
  ghost function TickDays(s: Schedule): nat -> bool {
    if s.calendar.None? then CronDue(s.cron)
    else (d: nat) => d >= 1 && DueOn(s.calendar.value, s.cron, s.rule, s.policy, d) != NotDue
  }

  ghost predicate ScheduleFits(s: Schedule) {
    CronFits(s.cron) && ZoneFits(s.zone) && (s.rule.Some? ==> s.calendar.Some?)
  }

  /** What a tick says of itself: its day has it, and is skipped for the stated reason or not at all. */
  ghost predicate TickIsOwn(s: Schedule, tick: Tick)
    requires ScheduleFits(s) && s.calendar.Some?
  {
    && 1 <= tick.runDate && IsDayTick(s.cron, s.zone, tick.runDate, tick.instant)
    && DueOn(s.calendar.value, s.cron, s.rule, s.policy, tick.runDate)
       == if tick.skipped.Some? then SkippedFor(tick.skipped.value) else Runs
  }

  datatype TickError = NoFutureTick | OutOfDates

  /** Deciding whether ticks move to `day` needs a date before the first. */
  ghost predicate RunsOutOn(s: Schedule, day: nat) {
    s.calendar.Some? && s.rule.None? && s.policy.MoveToNextBusinessDay? && ScanRunsOut(s.calendar.value, day)
  }

  /** The search comes to such a day before it comes to a tick after `t`. */
  ghost predicate RunsOutAfter(s: Schedule, t: Instant)
    requires ScheduleFits(s)
  {
    exists day: nat :: LocalDay(s.zone, t) <= day < LocalDay(s.zone, t) + 2929 && RunsOutOn(s, day)
                       && NoTickBefore(s.cron, s.zone, TickDays(s), t, day)
  }

  /** The search comes to `day`. */
  ghost predicate SearchComesTo(s: Schedule, t: Instant, day: nat)
    requires ScheduleFits(s)
  {
    && NoTickBefore(s.cron, s.zone, TickDays(s), t, day)
    && forall d: nat :: LocalDay(s.zone, t) <= d < day ==> !RunsOutOn(s, d)
  }

  /** Asked for the tick after `t`, the search fails: it runs out of dates, or no searched day has one. */
  ghost predicate NoTickFound(s: Schedule, t: Instant)
    requires ScheduleFits(s)
  {
    RunsOutAfter(s, t) || NoTickBefore(s.cron, s.zone, TickDays(s), t, LocalDay(s.zone, t) + 2929)
  }

  lemma FoundBeforeRunningOut(s: Schedule, t: Instant, day: nat, u: Instant)
    requires ScheduleFits(s) && SearchComesTo(s, t, day) && !RunsOutOn(s, day)
    requires 1 <= day <= LAST_DAY && TickDays(s)(day) && IsDayTick(s.cron, s.zone, day, u) && t < u
    ensures !RunsOutAfter(s, t)
    ensures forall later: nat :: day < later ==> !NoTickBefore(s.cron, s.zone, TickDays(s), t, later)
  {
  }

  /** The earliest tick strictly after `t`. Without a calendar the run date is the tick's own wall-clock day. */
  method NextScheduleTick(s: Schedule, t: Instant) returns (r: Result<Tick, TickError>)
    requires ScheduleFits(s) && 1 <= LocalDay(s.zone, t) <= LAST_DAY
    ensures r.Ok? ==> IsNext(Ticks(s), t, r.value.instant)
    ensures r.Ok? && s.calendar.Some? ==> TickIsOwn(s, r.value)
    ensures r.Ok? && s.calendar.None? ==>
            r.value.skipped.None? && r.value.runDate == LocalDay(s.zone, r.value.instant)
    ensures r.Err? ==> NoTickFound(s, t)
    ensures r == Err(OutOfDates) <==> RunsOutAfter(s, t)
    ensures r == Err(NoFutureTick) <==>
            !RunsOutAfter(s, t) && NoTickBefore(s.cron, s.zone, TickDays(s), t, LocalDay(s.zone, t) + 2929)
  {
    if s.calendar.None? {
      var next := NextAfter(s.cron, s.zone, t);
      return if next.None? then Err(NoFutureTick)
             else Ok(Tick(next.value, LocalDay(s.zone, next.value), None));
    }
    var day := LocalDay(s.zone, t);
    PastDaysDone(s.cron, s.zone, TickDays(s), t);
    for i := 0 to SEARCH_DAYS
      invariant day == LocalDay(s.zone, t) + i <= LAST_DAY
      invariant SearchComesTo(s, t, day)
    {
      var due := DueDay(s.calendar.value, s.cron, s.rule, s.policy, day);
      if due.None? {
        return Err(OutOfDates);
      }
      if due.value != NotDue {
        var ticks := DayTicks(s.cron, s.zone, day);
        var k := FirstAfter(ticks, t);
        if k < |ticks| {
          FirstOfDayIsNext(s.cron, s.zone, TickDays(s), t, day, ticks, k);
          assert ticks[k] in ticks;
          FoundBeforeRunningOut(s, t, day, ticks[k]);
          return Ok(Tick(ticks[k], day, if due.value.SkippedFor? then Some(due.value.reason) else None));
        }
      }
      DayDone(s.cron, s.zone, TickDays(s), t, day);
      if day == LAST_DAY {
        return Err(NoFutureTick);
      }
      day := day + 1;
    }
    return Err(NoFutureTick);
  }

  /** The schedule's instants on the days `due` selects, as a set. */
  ghost function TicksOf(c: Cron, z: Zone, due: nat -> bool): Instant -> bool
    requires ZoneFits(z)
  {
    (u: Instant) => IsTick(c, z, due, u)
  }

  /** Repeated calls list every tick up to the last exactly once, in increasing order. */
  lemma RepeatedCallsListTicks(c: Cron, z: Zone, due: nat -> bool, t: Instant, found: seq<Instant>)
    requires ZoneFits(z)
    requires forall k :: 0 <= k < |found| ==> NextTick(c, z, due, Before(t, found, k), found[k])
    ensures StrictlySorted(found)
    ensures forall x: Instant :: t < x <= Before(t, found, |found|) ==> (x in found <==> IsTick(c, z, due, x))
    ensures forall k :: 0 <= k < |found| ==> t < found[k]
  {
    var tick := TicksOf(c, z, due);
    forall k | 0 <= k < |found| ensures NextAt(tick, t, found, k) {
      assert NextTick(c, z, due, Before(t, found, k), found[k]);
    }
    RepeatedListsAll(tick, t, found);
    forall x: Instant | t < x <= Before(t, found, |found|) ensures x in found <==> IsTick(c, z, due, x) {
      assert tick(x) == IsTick(c, z, due, x);
    }
  }

  ghost function Ticks(s: Schedule): Instant -> bool
    requires ScheduleFits(s)
  {
    TicksOf(s.cron, s.zone, TickDays(s))
  }

  // Business-day ordinals.

  lemma DayOfMonth(year: nat, month: nat, n: nat)
    requires 1 <= year && 1 <= month <= 12
    requires DayNumber(Date(year, month, 1)) <= n < DayNumber(Date(year, month, 1)) + MonthLength(year, month)
    ensures MonthStart(n) == DayNumber(Date(year, month, 1)) && DateOf(n).month == month
    ensures MonthEnd(n) == MonthStart(n) + MonthLength(year, month)
  {
    var d := Date(year, month, n - DayNumber(Date(year, month, 1)) + 1);
    assert DayNumber(d) == n;
    DateOfNumber(d);
  }

  /** The schedule of a business-day rule: every day of its months, narrowed by the rule. */
  ghost predicate EveryDay(c: Cron) {
    && !c.dayOr && (forall d :: 1 <= d <= 31 ==> d in c.days) && (forall w :: 0 <= w < 7 ==> w in c.weekdays)
  }

  lemma EveryDayMatches(c: Cron, n: nat)
    requires EveryDay(c) && n >= 1
    ensures MatchesDay(c, n) <==> DateOf(n).month in c.months
  {
    assert MonthLength(DateOf(n).year, DateOf(n).month) <= 31;
  }

  /** The days of the month that an `nBD` rule has ticks on. */
  ghost function RuleDays(cal: BusinessCalendar, c: Cron, k: nat, policy: Policy, low: nat, high: nat): set<nat> {
    set n | low <= n < high && n >= 1 && DueOn(cal, c, Some(BusinessRule({k}, false)), policy, n) == Runs
  }

  /** An `nBD` rule selects exactly one day, the nth business day, of each of its months with at least n business
      days, and none of the others. */
  lemma NthBusinessDayOnce(cal: BusinessCalendar, c: Cron, k: nat, policy: Policy, year: nat, month: nat)
    requires EveryDay(c) && month in c.months && 1 <= year && 1 <= month <= 12 && k >= 1
    ensures var low := DayNumber(Date(year, month, 1));
            var open := OpenDays(cal, low, low + MonthLength(year, month));
            RuleDays(cal, c, k, policy, low,
                     low + MonthLength(year, month)) == if k <= |open| then {open[k - 1]} else {}
  {
    var low := DayNumber(Date(year, month, 1));
    var high := low + MonthLength(year, month);
    var open := OpenDays(cal, low, high);
    forall n | low <= n < high
      ensures n in RuleDays(cal, c, k, policy, low, high) <==> k <= |open| && n == open[k - 1]
    {
      RuleDayIsNth(cal, c, k, policy, year, month, n);
    }
    if k <= |open| {
      assert open[k - 1] in open;
    }
  }

  /** Under an `nBD` rule on every day of its months, a day runs exactly when it is the nth business day. */
  lemma RuleDueIsOrdinal(cal: BusinessCalendar, c: Cron, k: nat, policy: Policy, n: nat)
    requires EveryDay(c) && n >= 1 && DateOf(n).month in c.months
    ensures DueOn(cal, c, Some(BusinessRule({k}, false)), policy, n) == Runs <==> IsNthBusinessDay(cal, n, k)
  {
    EveryDayMatches(c, n);
    assert k in BusinessRule({k}, false).ordinals;
  }

  lemma NthIsAt(cal: BusinessCalendar, low: nat, high: nat, n: nat, k: nat)
    requires low <= n < high && k >= 1
    ensures var open := OpenDays(cal, low, high);
            IsOpen(cal, n) && |OpenDays(cal, low, n + 1)| == k <==> k <= |open| && n == open[k - 1]
  {
    var open := OpenDays(cal, low, high);
    if IsOpen(cal, n) {
      PositionIsOrdinal(cal, low, high, n);
      OpenDaysSorted(cal, low, high);
    } else if k <= |open| {
      assert open[k - 1] in open;
    }
  }

  lemma RuleDayIsNth(cal: BusinessCalendar, c: Cron, k: nat, policy: Policy, year: nat, month: nat, n: nat)
    requires EveryDay(c) && month in c.months && 1 <= year && 1 <= month <= 12 && k >= 1
    requires var low := DayNumber(Date(year, month, 1)); low <= n < low + MonthLength(year, month)
    ensures var low := DayNumber(Date(year, month, 1));
            var open := OpenDays(cal, low, low + MonthLength(year, month));
            DueOn(cal, c, Some(BusinessRule({k}, false)), policy, n) == Runs <==> k <= |open| && n == open[k - 1]
  {
    DayOfMonth(year, month, n);
    RuleDueIsOrdinal(cal, c, k, policy, n);
    NthIsAt(cal, MonthStart(n), MonthEnd(n), n, k);
  }

  /** Moved ticks are not lost: a closed matching day's ticks fall due on its next business day, and on that day
      only once however many days move there. */
  lemma MovedTicksAreDue(cal: BusinessCalendar, c: Cron, p: nat, n: nat)
    requires p >= 1 && !IsOpen(cal, p) && MatchesDay(c, p) && IsNextBusinessDay(cal, p, n)
    ensures DueOn(cal, c, None, MoveToNextBusinessDay, n) == Runs
    ensures DueOn(cal, c, None, MoveToNextBusinessDay, p) == NotDue
    ensures forall later: nat :: n < later ==> !IsNextBusinessDay(cal, p, later)
  {
    assert MovedHere(cal, c, n);
  }
}
