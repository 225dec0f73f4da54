/** The day-by-day search for the next instant of a cron schedule, and how far it ever has to look. */
module CronSearch {
  import opened Wrappers
  import opened Collections
  import opened Gregorian
  import opened CronFields
  import opened CronTicks
  import opened CronGaps

  /** Days of the supported range before `day` have no tick after `t`. */
  ghost predicate NoTickBefore(c: Cron, z: Zone, due: nat -> bool, t: Instant, day: nat)
    requires ZoneFits(z)
  {
    forall d: nat, u: Instant :: 1 <= d < day && d <= LAST_DAY && due(d) && IsDayTick(c, z, d, u) ==> u <= t
  }

  /** The first later instant of a day after which nothing was missed is the next tick. */
  lemma FirstOfDayIsNext(c: Cron, z: Zone, due: nat -> bool, t: Instant, day: nat, ticks: seq<Instant>, k: nat)
    requires CronFits(c) && ZoneFits(z) && NoTickBefore(c, z, due, t, day)
    requires 1 <= day <= LAST_DAY && due(day)
    requires InOrder(ticks) && forall u :: u in ticks <==> IsDayTick(c, z, day, u)
    requires k < |ticks| && t < ticks[k] && forall j :: 0 <= j < k ==> ticks[j] <= t
    ensures NextTick(c, z, due, t, ticks[k])
  {
    assert ticks[k] in ticks;
    forall x: Instant | t < x < ticks[k] ensures !IsTick(c, z, due, x) {
      if d: nat :| 1 <= d <= LAST_DAY && due(d) && IsDayTick(c, z, d, x) {
        assert d == day ==> x in ticks;
        if day < d {
          TicksInDayOrder(c, z, day, d, ticks[k], x);
        }
      }
    }
  }

  /** The scan of one day's instants for the first after `t`. */
  method FirstAfter(ticks: seq<Instant>, t: Instant) returns (k: nat)
    ensures k <= |ticks|
    ensures k < |ticks| ==> t < ticks[k]
    ensures forall j :: 0 <= j < k ==> ticks[j] <= t
  {
    k := 0;
    while k < |ticks| && ticks[k] <= t
      invariant k <= |ticks|
      invariant forall j :: 0 <= j < k ==> ticks[j] <= t
    {
      k := k + 1;
    }
  }

  function CronDue(c: Cron): nat -> bool {
    (d: nat) => d >= 1 && MatchesDay(c, d)
  }

  lemma DayDone(c: Cron, z: Zone, due: nat -> bool, t: Instant, day: nat)
    requires ZoneFits(z) && NoTickBefore(c, z, due, t, day)
    requires due(day) ==> forall u: Instant :: IsDayTick(c, z, day, u) ==> u <= t
    ensures NoTickBefore(c, z, due, t, day + 1)
    ensures day == LAST_DAY ==> forall later: nat :: NoTickBefore(c, z, due, t, later)
  {
  }

  lemma PastDaysDone(c: Cron, z: Zone, due: nat -> bool, t: Instant)
    requires CronFits(c) && ZoneFits(z)
    ensures NoTickBefore(c, z, due, t, LocalDay(z, t))
  {
    forall d: nat, u: Instant | 1 <= d < LocalDay(z, t) && IsDayTick(c, z, d, u) ensures u <= t {
      EarlierDaysArePast(c, z, d, t, u);
    }
  }

  /** The clock's days within the supported range that leave room for a whole search. */
  ghost predicate RoomToSearch(z: Zone, t: Instant) {
    1 <= LocalDay(z, t) && LocalDay(z, t) + 2929 <= LAST_DAY
  }

  /** The search finds no tick after `t`. */
  ghost predicate SearchFails(c: Cron, z: Zone, t: Instant)
    requires ZoneFits(z)
  {
    NoTickBefore(c, z, CronDue(c), t, LocalDay(z, t) + 2929)
  }

  lemma FirstTickOf(c: Cron, z: Zone, day: nat) returns (u: Instant)
    requires CronFits(c) && ZoneFits(z)
    ensures IsDayTick(c, z, day, u)
  {
    var h, m := c.hours[0], c.minutes[0];
    assert h in c.hours && m in c.minutes;
    u := Fires(z, WallMinute(day, h, m));
  }

  /** Where selected days are never further than a search apart, not counting the day after, no search fails,
      whatever the clock does around midnight. */
  lemma CloseMatchesAreFound(c: Cron, z: Zone, t: Instant)
    requires CronFits(c) && ZoneFits(z) && CloseMatches(c, 2) && RoomToSearch(z, t)
    ensures !SearchFails(c, z, t)
  {
    var n := LocalDay(z, t);
    OneCycleDecides(c, 2, n);
    var day: nat :| n + 2 <= day < n + SEARCH_DAYS && MatchesDay(c, day);
    var u := FirstTickOf(c, z, day);
    assert CronDue(c)(day);
    LaterDaysAreAhead(c, z, day, t, u);
  }

  /** The search of 366 * 8 + 1 days never fails for such a schedule. */
  lemma SearchFinds(c: Cron, z: Zone, t: Instant)
    requires CronFits(c) && ZoneFits(z) && Searchable(c) && RoomToSearch(z, t)
    ensures !SearchFails(c, z, t)
  {
    SearchableIsClose(c);
    CloseMatchesAreFound(c, z, t);
  }

  // Exactly when the search finds.

  /** A zone whose clock changes stay clear of midnight: no instant of a day comes after one of a later day, and every
      day has its last minute. */
  ghost predicate MidnightsFit(z: Zone) {
    && (forall t: Instant, v: Minute {:trigger z.wall(t), z.utc(v)} ::
          z.valid(v) && LocalDay(z, t) < v / 1440 ==> t < z.utc(v))
    && (forall day: nat {:trigger LastMinute(day)} ::
          z.valid(LastMinute(day)) && z.wall(z.utc(LastMinute(day))) == LastMinute(day))
  }

  function LastMinute(day: nat): Minute {
    day * 1440 + 1439
  }

  /** Coordinated universal time: instants and wall minutes are the same. */
  const UTC: Zone := Zone((w: Minute) => w, (w: Minute) => true, (t: Instant) => t, 0)

  lemma UtcFits()
    ensures ZoneFits(UTC) && MidnightsFit(UTC)
  {
    forall w: Minute ensures ValidWithin(UTC, w) {
      assert w <= w <= w + UTC.gap && UTC.valid(w);
    }
    forall t: Instant, v: Minute | LocalDay(UTC, t) < v / 1440 ensures t < UTC.utc(v) {
    }
  }

  lemma LaterDayIsAhead(c: Cron, z: Zone, day: nat, t: Instant, u: Instant)
    requires CronFits(c) && ZoneFits(z) && MidnightsFit(z) && LocalDay(z, t) < day && IsDayTick(c, z, day, u)
    ensures t < u
  {
    var h, m :| h in c.hours && m in c.minutes && u == Fires(z, WallMinute(day, h, m));
    assert day <= WallMinute(day, h, m) / 1440;
  }

  /** At the last minute of a day its ticks are past, and so are those of the days before. */
  lemma DayOver(c: Cron, z: Zone, n: nat, day: nat, u: Instant)
    requires CronFits(c) && ZoneFits(z) && MidnightsFit(z) && day <= n && IsDayTick(c, z, day, u)
    ensures LocalDay(z, z.utc(LastMinute(n))) == n && u <= z.utc(LastMinute(n))
  {
    var h, m :| h in c.hours && m in c.minutes && u == Fires(z, WallMinute(day, h, m));
    assert WallMinute(day, h, m) <= LastMinute(n);
    FiresInOrder(z, WallMinute(day, h, m), LastMinute(n));
    assert FirstValid(z, LastMinute(n)) == LastMinute(n);
  }

  /** The search finds a tick after every instant if and only if in one cycle of the calendar every day is followed by a
      selected day within the search. */
  lemma SearchFindsExactlyWhen(c: Cron, z: Zone)
    requires CronFits(c) && ZoneFits(z) && MidnightsFit(z)
    ensures (forall t: Instant :: RoomToSearch(z, t) ==> !SearchFails(c, z, t)) <==> CloseMatches(c, 1)
  {
    if CloseMatches(c, 1) {
      forall t: Instant | RoomToSearch(z, t) ensures !SearchFails(c, z, t) {
        FoundAfter(c, z, t);
      }
    }
    if forall t: Instant :: RoomToSearch(z, t) ==> !SearchFails(c, z, t) {
      forall n: nat | 1 <= n <= CYCLE ensures MatchWithin(c, n, 1) {
        MatchFound(c, z, n);
      }
    }
  }

  lemma FoundAfter(c: Cron, z: Zone, t: Instant)
    requires CronFits(c) && ZoneFits(z) && MidnightsFit(z) && CloseMatches(c, 1) && RoomToSearch(z, t)
    ensures !SearchFails(c, z, t)
  {
    var n := LocalDay(z, t);
    OneCycleDecides(c, 1, n);
    var day: nat :| n + 1 <= day < n + SEARCH_DAYS && MatchesDay(c, day);
    var u := FirstTickOf(c, z, day);
    assert CronDue(c)(day);
    LaterDayIsAhead(c, z, day, t, u);
  }

  lemma MatchFound(c: Cron, z: Zone, n: nat)
    requires CronFits(c) && ZoneFits(z) && MidnightsFit(z) && 1 <= n <= CYCLE
    requires var t := z.utc(LastMinute(n)); RoomToSearch(z, t) ==> !SearchFails(c, z, t)
    ensures MatchWithin(c, n, 1)
  {
    var t := z.utc(LastMinute(n));
    var first := FirstTickOf(c, z, n);
    DayOver(c, z, n, n, first);
    var d: nat, u: Instant :| 1 <= d < n + SEARCH_DAYS && d <= LAST_DAY && CronDue(c)(d)
                              && IsDayTick(c, z, d, u) && t < u;
    if d <= n {
      DayOver(c, z, n, d, u);
    }
  }

  // An accepted expression the search misses.

  // `0 0 29 2 */7`: midnight of 29 February, on Sundays only because the starred step makes both day fields bind.
  const LEAP_SUNDAY_EXPRESSION := Expression([Term(Value(0), None)], [Term(Value(0), None)],
                                             Days([Term(Value(29), None)]), [Term(Value(2), None)],
                                             [Term(Star, Some(7))])

  lemma ValueSelected(low: nat, high: nat, v: nat)
    requires low <= v <= high
    ensures FieldFits([Term(Value(v), None)], low, high)
    ensures Sorted(Selected([Term(Value(v), None)], low, high)) == [v]
  {
    var field := [Term(Value(v), None)];
    assert Covers(field[0], low, high, v);
    assert Selected(field, low, high) == {v};
    SortedSingleton(v);
  }

  lemma SortedSingleton(v: nat)
    ensures Sorted({v}) == [v]
  {
    assert Sorted({v})[0] in Sorted({v});
  }

  lemma EverySeventh(field: Field, n: nat)
    requires field == [Term(Star, Some(7))]
    ensures n in Selected(field, 0, 7) <==> n == 0 || n == 7
  {
    assert SomeTermCovers(field, 0, 7, n) <==> Covers(field[0], 0, 7, n);
  }

  lemma OnlySundays(e: Expression, w: nat)
    requires e.dayOfWeek == [Term(Star, Some(7))]
    ensures w in Weekdays(e) <==> w == 0
  {
    if w in Weekdays(e) {
      var n: nat :| n in Selected(e.dayOfWeek, 0, 7) && w == n % 7;
      EverySeventh(e.dayOfWeek, n);
    }
    EverySeventh(e.dayOfWeek, 0);
    assert 0 % 7 == 0;
  }

  lemma SundaysSelected(e: Expression)
    requires e.dayOfWeek == [Term(Star, Some(7))]
    ensures FieldFits(e.dayOfWeek, 0, 7) && Weekdays(e) == {0}
  {
    forall w: nat ensures w in Weekdays(e) <==> w == 0 {
      OnlySundays(e, w);
    }
  }

  /** `Parse` accepts the expression, and this is the schedule it returns. */
  lemma LeapSundaysAccepted()
    ensures var e := LEAP_SUNDAY_EXPRESSION;
            HasFields(e) && FieldsFit(e) && SomeDate(CronOf(e)) && CronOf(e) == LEAP_SUNDAYS
  {
    var e := LEAP_SUNDAY_EXPRESSION;
    ValueSelected(0, 59, 0);
    ValueSelected(0, 23, 0);
    ValueSelected(1, 31, 29);
    ValueSelected(1, 12, 2);
    SundaysSelected(e);
    SortedSingleton(0);
    assert HasStar(e.dayOfWeek) by {
      assert e.dayOfWeek[0].base == Star;
    }
    LeapSundaysFit();
  }

  lemma LeapSundaysNotClose(n: nat)
    requires n == MARCH_2004
    ensures !CloseMatches(LEAP_SUNDAYS, 1)
  {
    if CloseMatches(LEAP_SUNDAYS, 1) {
      OneCycleDecides(LEAP_SUNDAYS, 1, n);
      var m: nat :| n + 1 <= m < n + SEARCH_DAYS && MatchesDay(LEAP_SUNDAYS, m);
      NoLeapSunday(m);
    }
  }

  lemma NoLeapSundayAt(d: nat)
    requires 1 <= d < MARCH_2004 + SEARCH_DAYS && MatchesDay(LEAP_SUNDAYS, d)
    ensures d < MARCH_2004
  {
    if MARCH_2004 <= d {
      NoLeapSunday(d);
    }
  }

  lemma MissedFrom(n: nat, t: Instant)
    requires CronFits(LEAP_SUNDAYS) && ZoneFits(UTC) && n == MARCH_2004 && t == WallMinute(n, 0, 0)
    ensures LocalDay(UTC, t) == n && RoomToSearch(UTC, t) && SearchFails(LEAP_SUNDAYS, UTC, t)
  {
    var c := LEAP_SUNDAYS;
    PastDaysDone(c, UTC, CronDue(c), t);
    forall d: nat, u: Instant | 1 <= d < n + SEARCH_DAYS && CronDue(c)(d) && IsDayTick(c, UTC, d, u)
      ensures u <= t
    {
      NoLeapSundayAt(d);
    }
  }

  lemma TickOn(n: nat, u: Instant)
    requires ZoneFits(UTC) && n == LEAP_DAY_2032 && u == WallMinute(n, 0, 0)
    ensures IsTick(LEAP_SUNDAYS, UTC, CronDue(LEAP_SUNDAYS), u)
  {
    var c := LEAP_SUNDAYS;
    LeapSundayIn2032(n);
    assert CronDue(c)(n);
    assert 0 in c.hours && 0 in c.minutes;
    assert u == Fires(UTC, WallMinute(n, 0, 0)) by {
      assert UTC.valid(u) && FirstValid(UTC, u) == u;
    }
    assert IsDayTick(c, UTC, n, u);
  }

  /** From 1 March 2004 the search fails for the schedule of that expression, although midnight of 29 February 2032 is a
      tick still to come: 29 February 2004 was a Sunday, and the next such Sunday lies beyond the search. */
  lemma StarredDayFieldsCanMiss(t: Instant, u: Instant)
    requires t == WallMinute(MARCH_2004, 0, 0) && u == WallMinute(LEAP_DAY_2032, 0, 0)
    ensures CronFits(LEAP_SUNDAYS) && ZoneFits(UTC) && !CloseMatches(LEAP_SUNDAYS, 1)
    ensures RoomToSearch(UTC, t) && SearchFails(LEAP_SUNDAYS, UTC, t)
    ensures t < u && IsTick(LEAP_SUNDAYS, UTC, CronDue(LEAP_SUNDAYS), u)
  {
    LeapSundaysFit();
    UtcFits();
    LeapSundaysNotClose(MARCH_2004);
    MissedFrom(MARCH_2004, t);
    TickOn(LEAP_DAY_2032, u);
  }

  /** The first tick strictly after `t`: none of the schedule's instants is missed. It fails exactly when no day of the
      search, up to the end of the supported range, has a tick after `t`. */
  method NextAfter(c: Cron, z: Zone, t: Instant) returns (r: Option<Instant>)
    requires CronFits(c) && ZoneFits(z) && 1 <= LocalDay(z, t) <= LAST_DAY
    ensures r.Some? ==> NextTick(c, z, CronDue(c), t, r.value)
    ensures r.None? <==> SearchFails(c, z, t)
    ensures Searchable(c) && RoomToSearch(z, t) ==> r.Some?
  {
    var day := LocalDay(z, t);
    if Searchable(c) && RoomToSearch(z, t) {
      SearchFinds(c, z, t);
    }
    PastDaysDone(c, z, CronDue(c), t);
    for i := 0 to SEARCH_DAYS
      invariant day == LocalDay(z, t) + i <= LAST_DAY
      invariant NoTickBefore(c, z, CronDue(c), t, day)
    {
      if MatchesDay(c, day) {
        var ticks := DayTicks(c, z, day);
        var k := FirstAfter(ticks, t);
        if k < |ticks| {
          FirstOfDayIsNext(c, z, CronDue(c), t, day, ticks, k);
          assert ticks[k] in ticks;
          return Some(ticks[k]);
        }
      }
      DayDone(c, z, CronDue(c), t, day);
      if day == LAST_DAY {
        return None;
      }
      day := day + 1;
    }
    return None;
  }
}
