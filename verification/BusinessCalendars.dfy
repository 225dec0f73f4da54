/** Business calendars: closed days, business-day ordinals, moved ticks, and the next tick of a schedule. */
module BusinessCalendars {
  import opened Wrappers
  import opened Collections
  import opened Gregorian
  import opened CronFields
  import opened CronGaps

  datatype Reason = HolidayOn(day: nat) | WeekendOn(day: nat)

  /** Weekend days as `date.weekday()` numbers them, Monday being 0, and holidays by day number. */
  datatype BusinessCalendar = BusinessCalendar(weekend: set<nat>, holidays: set<nat>)

  function Closed(cal: BusinessCalendar, n: nat): Option<Reason> {
    if n in cal.holidays then Some(HolidayOn(n))
    else if (n + 6) % 7 in cal.weekend then Some(WeekendOn(n))
    else None
  }

  predicate IsOpen(cal: BusinessCalendar, n: nat) {
    Closed(cal, n).None?
  }

  /** A calendar closes its holidays, and the days that come `w` days after a Monday for each `w` of its weekend: day 1
      was a Monday. A holiday is named as such on a weekend day too. */
  lemma ClosedDays(cal: BusinessCalendar, n: nat)
    requires n >= 1
    ensures n in cal.holidays ==> Closed(cal, n) == Some(HolidayOn(n))
    ensures n !in cal.holidays && (exists w :: w in cal.weekend && w < 7 && (n - 1) % 7 == w) ==>
              Closed(cal, n) == Some(WeekendOn(n))
    ensures IsOpen(cal, n) <==> n !in cal.holidays && forall w :: w in cal.weekend && w < 7 ==> (n - 1) % 7 != w
  {
    assert (n + 6) % 7 == (n - 1) % 7;
  }

  /** A weekend day is a day that a cron weekday field selects by one more: Monday is 0 for the one and 1 for the other,
      Sunday 6 and 0. */
  lemma WeekendIsCronWeekday(c: Cron, n: nat, w: nat)
    requires n >= 1 && w < 7 && c.weekdays == [(w + 1) % 7] && !c.dayOr
    requires (forall d :: 1 <= d <= 31 ==> d in c.days) && (forall m :: 1 <= m <= 12 ==> m in c.months)
    ensures MatchesDay(c, n) <==> !IsOpen(BusinessCalendar({w}, {}), n)
  {
    assert MonthLength(DateOf(n).year, DateOf(n).month) <= 31;
    assert n % 7 in c.weekdays <==> n % 7 == (w + 1) % 7;
  }

  /** `day` is the first business day after `n`, and near enough for the search. */
  ghost predicate IsNextBusinessDay(cal: BusinessCalendar, n: nat, day: nat) {
    n < day <= n + 2929 && IsOpen(cal, day) && forall d :: n < d < day ==> !IsOpen(cal, d)
  }

  /** The first business day after `n`; none when the search, or the calendar's last date, comes before it. */
  method NextBusinessDay(cal: BusinessCalendar, n: nat) returns (r: Option<nat>)
    requires 1 <= n <= LAST_DAY
    ensures r.Some? ==> r.value <= LAST_DAY && IsNextBusinessDay(cal, n, r.value)
    ensures r.None? ==> forall day: nat :: day <= LAST_DAY ==> !IsNextBusinessDay(cal, n, day)
  {
    var day := n;
    for i := 0 to SEARCH_DAYS
      invariant day == n + i <= LAST_DAY
      invariant forall d :: n < d <= day ==> !IsOpen(cal, d)
    {
      if day == LAST_DAY {
        return None;
      }
      day := day + 1;
      if IsOpen(cal, day) {
        return Some(day);
      }
    }
    return None;
  }

  /** The business days from `low` up to `high`, `high` excluded. */
  function OpenDays(cal: BusinessCalendar, low: nat, high: nat): (r: seq<nat>)
    ensures forall d :: d in r <==> low <= d < high && IsOpen(cal, d)
    decreases high
  {
    if high <= low then []
    else OpenDays(cal, low, high - 1) + (if IsOpen(cal, high - 1) then [high - 1] else [])
  }

  function MonthStart(n: nat): nat
    requires n >= 1
  {
    NumberOfDate(n);
    n - DateOf(n).day + 1
  }

  /** The first day of the month after. */
  function MonthEnd(n: nat): nat
    requires n >= 1
  {
    MonthStart(n) + MonthLength(DateOf(n).year, DateOf(n).month)
  }

  /** The business day `n` is the `k`-th of its month: `k - 1` business days of the month come before it. */
  predicate IsNthBusinessDay(cal: BusinessCalendar, n: nat, k: nat)
    requires n >= 1
  {
    IsOpen(cal, n) && |OpenDays(cal, MonthStart(n), n + 1)| == k
  }

  predicate IsLastBusinessDay(cal: BusinessCalendar, n: nat)
    requires n >= 1
  {
    IsOpen(cal, n) && forall d :: n < d < MonthEnd(n) ==> !IsOpen(cal, d)
  }

  datatype Policy = SkipClosed | MoveToNextBusinessDay

  datatype Due = NotDue | Runs | SkippedFor(reason: Reason)

  /** Some closed matching day has `n` as its next business day. */
  ghost predicate MovedHere(cal: BusinessCalendar, c: Cron, n: nat) {
    exists p: nat :: 1 <= p && !IsOpen(cal, p) && MatchesDay(c, p) && IsNextBusinessDay(cal, p, n)
  }

  /** What a schedule has on day `n`: ticks to run, ticks to record as skipped, or none. */
  ghost function DueOn(cal: BusinessCalendar, c: Cron, rule: Option<BusinessRule>, policy: Policy, n: nat): Due
    requires n >= 1
  {
    if rule.Some? then
      if MatchesDay(c, n) && ((exists k :: k in rule.value.ordinals && IsNthBusinessDay(cal, n, k))
                              || (rule.value.last && IsLastBusinessDay(cal, n)))
      then Runs else NotDue
    else if policy.SkipClosed? then
      if !MatchesDay(c, n) then NotDue
      else if IsOpen(cal, n) then Runs
      else SkippedFor(Closed(cal, n).value)
    else if IsOpen(cal, n) && (MatchesDay(c, n) || MovedHere(cal, c, n)) then Runs
    else NotDue
  }

  /** The month's business days, in order. */
  method BusinessDays(cal: BusinessCalendar, year: nat, month: nat) returns (days: seq<nat>)
    requires 1 <= year && 1 <= month <= 12
    ensures days == OpenDays(cal, DayNumber(Date(year, month, 1)),
                             DayNumber(Date(year, month, 1)) + MonthLength(year, month))
  {
    var first := DayNumber(Date(year, month, 1));
    days := [];
    for i := 0 to MonthLength(year, month)
      invariant days == OpenDays(cal, first, first + i)
    {
      if IsOpen(cal, first + i) {
        days := days + [first + i];
      }
    }
  }

  lemma MonthStartIsFirst(n: nat)
    requires n >= 1
    ensures MonthStart(n) == DayNumber(Date(DateOf(n).year, DateOf(n).month, 1))
    ensures 1 <= MonthStart(n) <= n < MonthEnd(n)
  {
    NumberOfDate(n);
  }

  lemma {:induction false} OpenDaysSplit(cal: BusinessCalendar, low: nat, mid: nat, high: nat)
    requires low <= mid <= high
    ensures OpenDays(cal, low, high) == OpenDays(cal, low, mid) + OpenDays(cal, mid, high)
    decreases high
  {
    if mid < high {
      OpenDaysSplit(cal, low, mid, high - 1);
    }
  }

  lemma SortedMore(days: seq<nat>, n: nat)
    requires StrictlySorted(days) && forall d :: d in days ==> d < n
    ensures StrictlySorted(days + [n])
  {
    forall i, j | 0 <= i < j < |days + [n]| ensures (days + [n])[i] < (days + [n])[j] {
      assert days[i] in days;
    }
  }

  lemma {:induction false} OpenDaysSorted(cal: BusinessCalendar, low: nat, high: nat)
    ensures StrictlySorted(OpenDays(cal, low, high))
    decreases high
  {
    if low < high {
      OpenDaysSorted(cal, low, high - 1);
      SortedMore(OpenDays(cal, low, high - 1), high - 1);
    }
  }

  /** A business day stands in the list right after the business days before it. */
  lemma PositionIsOrdinal(cal: BusinessCalendar, low: nat, high: nat, n: nat)
    requires low <= n < high && IsOpen(cal, n)
    ensures var all, k := OpenDays(cal, low, high), |OpenDays(cal, low, n)|;
            && k < |all| && all[k] == n
            && |OpenDays(cal, low, n + 1)| == k + 1
            && (k == |all| - 1 <==> forall d :: n < d < high ==> !IsOpen(cal, d))
  {
    var after := OpenDays(cal, n + 1, high);
    OpenDaysSplit(cal, low, n + 1, high);
    assert OpenDays(cal, low, n + 1) == OpenDays(cal, low, n) + [n];
    assert after == [] <==> forall d :: n < d < high ==> !IsOpen(cal, d) by {
      if after != [] {
        assert after[0] in after;
      } else {
        assert forall d :: d in after <==> n + 1 <= d < high && IsOpen(cal, d);
      }
    }
  }

  method IndexOfDay(days: seq<nat>, n: nat) returns (k: nat)
    requires n in days
    ensures k < |days| && days[k] == n
  {
    k := 0;
    while days[k] != n
      invariant k < |days| && n in days[k..]
      decreases |days| - k
    {
      assert days[k..] == [days[k]] + days[k + 1..];
      k := k + 1;
    }
  }

  /** An open day's place in its month's list is its ordinal, and the last place is the last business day's. */
  lemma PlaceInMonth(cal: BusinessCalendar, rule: BusinessRule, n: nat, k: nat)
    requires n >= 1 && IsOpen(cal, n) && MonthStart(n) <= n < MonthEnd(n)
    requires var days := OpenDays(cal, MonthStart(n), MonthEnd(n)); k < |days| && days[k] == n
    ensures (exists j :: j in rule.ordinals && IsNthBusinessDay(cal, n, j)) <==> k + 1 in rule.ordinals
    ensures IsLastBusinessDay(cal, n) <==> k == |OpenDays(cal, MonthStart(n), MonthEnd(n))| - 1
  {
    var low, high := MonthStart(n), MonthEnd(n);
    PositionIsOrdinal(cal, low, high, n);
    OpenDaysSorted(cal, low, high);
    assert IsNthBusinessDay(cal, n, k + 1);
  }

  /** A business-day rule decides an open matching day by its position in the month's list. */
  method RuleSelects(cal: BusinessCalendar, rule: BusinessRule, n: nat) returns (selected: bool)
    requires n >= 1 && IsOpen(cal, n)
    ensures selected <==> (exists k :: k in rule.ordinals && IsNthBusinessDay(cal, n, k))
                          || (rule.last && IsLastBusinessDay(cal, n))
  {
    var business := BusinessDays(cal, DateOf(n).year, DateOf(n).month);
    MonthStartIsFirst(n);
    var k := IndexOfDay(business, n);
    PlaceInMonth(cal, rule, n, k);
    return k + 1 in rule.ordinals || (rule.last && k == |business| - 1);
  }

  /** The backward scan from an open day runs past the first date: no open day comes before it. */
  predicate ScanRunsOut(cal: BusinessCalendar, n: nat) {
    IsOpen(cal, n) && n <= 2930 && forall d :: 1 <= d < n ==> !IsOpen(cal, d)
  }

  /** `DueOn`, found by listing the month's business days, or by scanning back over the closed days before `n`; no
      answer when the scan runs out of dates. */
  method DueDay(cal: BusinessCalendar, c: Cron, rule: Option<BusinessRule>, policy: Policy, n: nat)
    returns (due: Option<Due>)
    requires n >= 1
    ensures due.None? <==> rule.None? && policy.MoveToNextBusinessDay? && ScanRunsOut(cal, n)
    ensures due.Some? ==> due.value == DueOn(cal, c, rule, policy, n)
  {
    var closed := Closed(cal, n);
    if rule.Some? {
      if closed.Some? || !MatchesDay(c, n) {
        return Some(NotDue);
      }
      var selected := RuleSelects(cal, rule.value, n);
      return Some(if selected then Runs else NotDue);
    }
    if policy.SkipClosed? {
      return Some(if !MatchesDay(c, n) then NotDue else if closed.None? then Runs else SkippedFor(closed.value));
    }
    if closed.Some? {
      return Some(NotDue);
    }
    var moved := ScanBack(cal, c, n);
    if moved.None? {
      return None;
    }
    return Some(if moved.value || MatchesDay(c, n) then Runs else NotDue);
  }

  /** The backward scan marks `n` exactly when some closed matching day moves to it, unless it runs out of dates. */
  method ScanBack(cal: BusinessCalendar, c: Cron, n: nat) returns (r: Option<bool>)
    requires n >= 1 && IsOpen(cal, n)
    ensures r.None? <==> ScanRunsOut(cal, n)
    ensures r.Some? ==> (r.value <==> MovedHere(cal, c, n))
  {
    if n == 1 {
      return None;
    }
    var previous := n - 1;
    var moved := false;
    for i := 0 to SEARCH_DAYS
      invariant 1 <= previous == n - 1 - i
      invariant forall d :: previous < d < n ==> !IsOpen(cal, d)
      invariant moved <==> exists p: nat :: previous < p < n && MatchesDay(c, p)
    {
      if IsOpen(cal, previous) {
        return Some(moved);
      }
      moved := moved || MatchesDay(c, previous);
      if previous == 1 {
        return None;
      }
      previous := previous - 1;
    }
    return Some(moved);
  }
}
