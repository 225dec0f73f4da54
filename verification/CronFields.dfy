/** The five cron fields, already cut into their comma-separated terms, and the days they select. */
module CronFields {
  import opened Wrappers
  import opened Collections
  import opened Gregorian

  /** What stands before the slash of a term: `*`, `a-b` or a single value, names already replaced by numbers. */
  datatype Base = Star | Range(first: nat, last: nat) | Value(value: nat)

  datatype Term = Term(base: Base, step: Option<int>)

  type Field = seq<Term>

  /** `3BD,LBD` and the like: business-day ordinals of the month, and whether its last business day counts. */
  datatype BusinessRule = BusinessRule(ordinals: set<nat>, last: bool)

  datatype DayField = Days(terms: Field) | Business(rule: BusinessRule)

  datatype Expression = Expression(minute: Field, hour: Field, dayOfMonth: DayField, month: Field, dayOfWeek: Field)

  datatype CronError = StepNotPositive | OutOfRange | NoDateMatches | BusinessNeedsAnyWeekday

  const ANY: Field := [Term(Star, None)]

  datatype Cron = Cron(minutes: seq<nat>, hours: seq<nat>, days: seq<nat>, months: seq<nat>, weekdays: seq<nat>,
                       dayOr: bool)

  function StepOf(term: Term): int {
    if term.step.Some? then term.step.value else 1
  }

  function First(term: Term, low: nat): nat {
    match term.base
    case Star => low
    case Range(first, _) => first
    case Value(value) => value
  }

  function Last(term: Term, high: nat): nat {
    match term.base
    case Star => high
    case Range(_, last) => last
    case Value(value) => if term.step.Some? then high else value
  }

  predicate TermFits(term: Term, low: nat, high: nat) {
    StepOf(term) > 0 && low <= First(term, low) <= Last(term, high) <= high
  }

  predicate Covers(term: Term, low: nat, high: nat, n: nat) {
    && StepOf(term) > 0
    && First(term, low) <= n <= Last(term, high)
    && (n - First(term, low)) % StepOf(term) == 0
  }

  ghost predicate FieldFits(field: Field, low: nat, high: nat) {
    forall k :: 0 <= k < |field| ==> TermFits(field[k], low, high)
  }

  predicate SomeTermCovers(field: Field, low: nat, high: nat, n: nat) {
    exists k :: 0 <= k < |field| && Covers(field[k], low, high, n)
  }

  /** The values between `low` and `high` that some term covers. */
  function Selected(field: Field, low: nat, high: nat): set<nat> {
    set n: nat | low <= n <= high && SomeTermCovers(field, low, high, n)
  }

  method ParseField(field: Field, low: nat, high: nat) returns (r: Result<set<nat>, CronError>)
    ensures r.Ok? <==> FieldFits(field, low, high)
    ensures r.Ok? ==> r.value == Selected(field, low, high)
  {
    var selected: set<nat> := {};
    for k := 0 to |field|
      invariant FieldFits(field[..k], low, high)
      invariant selected == Selected(field[..k], low, high)
    {
      var term := field[k];
      if StepOf(term) <= 0 {
        return Err(StepNotPositive);
      }
      var start, end := First(term, low), Last(term, high);
      if !(low <= start <= end <= high) {
        return Err(OutOfRange);
      }
      assert field[..k + 1] == field[..k] + [term];
      var more := set n: nat | start <= n <= end && Covers(term, low, high, n);
      SelectedMore(field[..k], term, low, high, more);
      selected := selected + more;
    }
    assert field[..|field|] == field;
    return Ok(selected);
  }

  lemma SelectedMore(field: Field, term: Term, low: nat, high: nat, more: set<nat>)
    requires TermFits(term, low, high)
    requires forall n: nat :: n in more <==> Covers(term, low, high, n)
    ensures Selected(field + [term], low, high) == Selected(field, low, high) + more
  {
    var all := field + [term];
    forall n: nat | low <= n <= high
      ensures SomeTermCovers(all, low, high, n) <==> SomeTermCovers(field, low, high, n) || n in more
    {
      if n in more {
        assert Covers(all[|field|], low, high, n);
      }
      if k :| 0 <= k < |field| && Covers(field[k], low, high, n) {
        assert Covers(all[k], low, high, n);
      }
      if k :| 0 <= k < |all| && Covers(all[k], low, high, n) {
        if k < |field| {
          assert Covers(field[k], low, high, n);
        }
      }
    }
  }

  lemma FirstIsSelected(field: Field, low: nat, high: nat)
    requires FieldFits(field, low, high) && field != []
    ensures Selected(field, low, high) != {}
  {
    var n := First(field[0], low);
    assert (n - n) % StepOf(field[0]) == 0;
    assert Covers(field[0], low, high, n);
    assert n in Selected(field, low, high);
  }

  predicate HasStar(field: Field) {
    exists k :: 0 <= k < |field| && field[k].base == Star
  }

  function DayTerms(e: Expression): Field {
    if e.dayOfMonth.Days? then e.dayOfMonth.terms else ANY
  }

  function Weekdays(e: Expression): set<nat> {
    set n | n in Selected(e.dayOfWeek, 0, 7) :: n % 7
  }

  /** The values the fields of an accepted expression select, sorted, and whether the day fields are alternatives. */
  function CronOf(e: Expression): Cron {
    Cron(Sorted(Selected(e.minute, 0, 59)), Sorted(Selected(e.hour, 0, 23)), Sorted(Selected(DayTerms(e), 1, 31)),
         Sorted(Selected(e.month, 1, 12)), Sorted(Weekdays(e)), !HasStar(DayTerms(e)) && !HasStar(e.dayOfWeek))
  }

  /** The shape of a text with five fields: no field is empty. */
  ghost predicate HasFields(e: Expression) {
    e.minute != [] && e.hour != [] && DayTerms(e) != [] && e.month != [] && e.dayOfWeek != []
  }

  ghost predicate FieldsFit(e: Expression) {
    && FieldFits(e.minute, 0, 59) && FieldFits(e.hour, 0, 23) && FieldFits(DayTerms(e), 1, 31)
    && FieldFits(e.month, 1, 12) && FieldFits(e.dayOfWeek, 0, 7)
    && (e.dayOfMonth.Business? ==> e.dayOfWeek == ANY)
  }

  /** Some month of the year 2000 has one of the days. */
  predicate SomeDate(c: Cron) {
    exists i, j :: 0 <= i < |c.months| && 0 <= j < |c.days| && 1 <= c.months[i] <= 12
                   && c.days[j] <= MonthLength(2000, c.months[i])
  }

  /** An accepted schedule: every field sorted, in range and selecting something, and some date possible. */
  ghost predicate CronFits(c: Cron) {
    && c.minutes != [] && c.hours != [] && c.days != [] && c.months != [] && c.weekdays != []
    && StrictlySorted(c.minutes) && StrictlySorted(c.hours)
    && (forall n :: n in c.minutes ==> n <= 59) && (forall n :: n in c.hours ==> n <= 23)
    && (forall n :: n in c.days ==> 1 <= n <= 31) && (forall n :: n in c.months ==> 1 <= n <= 12)
    && (forall n :: n in c.weekdays ==> n < 7)
    && (!c.dayOr ==> SomeDate(c))
  }

  lemma CronOfFits(e: Expression)
    requires HasFields(e) && FieldsFit(e) && (!CronOf(e).dayOr ==> SomeDate(CronOf(e)))
    ensures CronFits(CronOf(e))
  {
    FirstIsSelected(e.minute, 0, 59);
    FirstIsSelected(e.hour, 0, 23);
    FirstIsSelected(DayTerms(e), 1, 31);
    FirstIsSelected(e.month, 1, 12);
    FirstIsSelected(e.dayOfWeek, 0, 7);
    var n :| n in Selected(e.dayOfWeek, 0, 7);
    assert n % 7 in Weekdays(e);
    SortedIncreases(Selected(e.minute, 0, 59));
    SortedIncreases(Selected(e.hour, 0, 23));
  }

  /** Accepts exactly the expressions whose terms are in range and, when the day fields must agree, that some date
      meets. */
  method Parse(e: Expression) returns (r: Result<Cron, CronError>)
    requires HasFields(e)
    ensures r.Ok? <==> FieldsFit(e) && (!CronOf(e).dayOr ==> SomeDate(CronOf(e)))
    ensures r.Ok? ==> r.value == CronOf(e) && CronFits(r.value)
  {
    if e.dayOfMonth.Business? && e.dayOfWeek != ANY {
      return Err(BusinessNeedsAnyWeekday);
    }
    var minutes := ParseField(e.minute, 0, 59);
    if minutes.Err? {
      return Err(minutes.error);
    }
    var hours := ParseField(e.hour, 0, 23);
    if hours.Err? {
      return Err(hours.error);
    }
    var days := ParseField(DayTerms(e), 1, 31);
    if days.Err? {
      return Err(days.error);
    }
    var months := ParseField(e.month, 1, 12);
    if months.Err? {
      return Err(months.error);
    }
    var weekdays := ParseField(e.dayOfWeek, 0, 7);
    if weekdays.Err? {
      return Err(weekdays.error);
    }
    var c := CronOf(e);
    if !c.dayOr && !SomeDate(c) {
      return Err(NoDateMatches);
    }
    CronOfFits(e);
    return Ok(c);
  }

  /** The two day fields leave no gap longer than the search when one of them is `*`, or neither holds a star. */
  ghost predicate Searchable(c: Cron) {
    c.dayOr || (forall w :: 0 <= w < 7 ==> w in c.weekdays) || (forall d :: 1 <= d <= 31 ==> d in c.days)
  }

  lemma StarSelectsAll(low: nat, high: nat, n: nat)
    requires low <= n <= high
    ensures n in Selected(ANY, low, high)
  {
    assert Covers(ANY[0], low, high, n);
  }

  lemma AnyWeekday(e: Expression, w: nat)
    requires e.dayOfWeek == ANY && w < 7
    ensures w in Weekdays(e)
  {
    StarSelectsAll(0, 7, w);
    assert w % 7 == w;
  }

  lemma PlainStarIsSearchable(e: Expression)
    requires DayTerms(e) == ANY || e.dayOfWeek == ANY || (!HasStar(DayTerms(e)) && !HasStar(e.dayOfWeek))
    ensures Searchable(CronOf(e))
  {
    var c := CronOf(e);
    if DayTerms(e) == ANY {
      forall d | 1 <= d <= 31 ensures d in c.days {
        StarSelectsAll(1, 31, d);
      }
    } else if e.dayOfWeek == ANY {
      forall w | 0 <= w < 7 ensures w in c.weekdays {
        AnyWeekday(e, w);
      }
    }
  }

  /** Whether the month and day fields select day number `n`: day 7 of the week is Sunday, and day 1 was a Monday. */
  predicate MatchesDay(c: Cron, n: nat)
    requires n >= 1
  {
    var d := DateOf(n);
    var dom, dow := d.day in c.days, n % 7 in c.weekdays;
    d.month in c.months && (if c.dayOr then dom || dow else dom && dow)
  }
}
