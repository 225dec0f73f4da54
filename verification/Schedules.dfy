/** The controller's schedules: recording missed ticks and caching each pipeline's next deadline. */
module Schedules {
  import opened Wrappers
  import opened Collections
  import opened CronTicks
  import opened CronSearch
  import opened Gregorian
  import opened TickLists
  import opened ScheduleTicks
  import opened CatchUp

  /** What a cached deadline was computed from. Plans are numbered so that equal schedules share a number. */
  datatype Signature = Signature(plan: nat, start: Option<Instant>, lastRun: Option<Instant>, resumed: Option<Instant>)

  datatype Cached = Cached(signature: Signature, deadline: Instant)

  datatype PipelineRow = PipelineRow(id: nat, scheduled: bool, signature: Signature, catchUp: bool, maxCatchUp: nat,
                                     overlapSkip: bool, pending: bool)

  function Later(a: Instant, b: Option<Instant>): Instant {
    if b.Some? && a < b.value then b.value else a
  }

  /** Ticks up to here are history: the start date or the creation instant, a resume, the last recorded tick. */
  function CursorOf(created: Instant, s: Signature): Instant {
    Later(Later(if s.start.Some? then s.start.value else created, s.resumed), s.lastRun)
  }

  function Count(row: PipelineRow): nat {
    if row.catchUp then row.maxCatchUp else 1
  }

  function Held(row: PipelineRow): bool {
    row.pending && row.overlapSkip
  }

  /** Every tick after `cursor` and before `end` has its row. */
  ghost predicate Recorded(rows: Rows, id: nat, tick: Instant -> bool, cursor: Instant, end: Instant) {
    forall x: Instant :: cursor < x < end && tick(x) ==> Key(id, x) in rows
  }

  /** `ticks` are the ticks after `cursor` up to `now`, once each, in order. */
  ghost predicate ListsTicks(tick: Instant -> bool, cursor: Instant, now: Instant, ticks: seq<Tick>) {
    && StrictlySorted(Instants(ticks))
    && (forall x: Instant :: x in Instants(ticks) <==> cursor < x <= now && tick(x))
  }

  /** `x` is a tick after `cursor` and not after `now`. */
  ghost predicate DueBy(tick: Instant -> bool, cursor: Instant, now: Instant, x: Instant) {
    cursor < x <= now && tick(x)
  }

  /** The clock between the cursor and now stays within the days the search covers. */
  ghost predicate Covered(plan: Schedule, cursor: Instant, now: Instant) {
    forall u: Instant :: cursor == u || cursor < u <= now ==> 1 <= LocalDay(plan.zone, u) <= LAST_DAY
  }

  lemma SortedTicksDiffer(seen: seq<Tick>)
    requires StrictlySorted(Instants(seen))
    ensures Distinct(seen) && OwnInstants(Elems(seen))
  {
    var found := Instants(seen);
    forall i, j | 0 <= i < j < |seen| ensures seen[i].instant < seen[j].instant {
      assert found[i] < found[j];
    }
  }

  lemma InstantListed(seen: seq<Tick>, x: Tick)
    requires x in seen
    ensures x.instant in Instants(seen)
  {
    var k :| 0 <= k < |seen| && seen[k] == x;
    assert Instants(seen)[k] == x.instant;
  }

  lemma SeenAreDue(tick: Instant -> bool, cursor: Instant, now: Instant, seen: seq<Tick>)
    requires Repeated(tick, cursor, Instants(seen)) && (seen == [] || Before(cursor, Instants(seen), |seen|) <= now)
    ensures forall x :: x in seen ==> DueBy(tick, cursor, now, x.instant)
  {
    RepeatedListsAll(tick, cursor, Instants(seen));
    forall x | x in seen ensures DueBy(tick, cursor, now, x.instant) {
      InstantListed(seen, x);
    }
  }

  /** When the next tick is past `now`, the ticks seen are all there are. */
  lemma SeenAreAll(tick: Instant -> bool, cursor: Instant, now: Instant, seen: seq<Tick>, next: Instant)
    requires Repeated(tick, cursor, Instants(seen))
    requires IsNext(tick, Before(cursor, Instants(seen), |seen|), next) && now < next
    requires Before(cursor, Instants(seen), |seen|) <= now || seen == []
    ensures ListsTicks(tick, cursor, now, seen)
    ensures forall x: Instant :: cursor < x < next && tick(x) ==> x in Instants(seen)
  {
    RepeatedListsAll(tick, cursor, Instants(seen));
  }

  lemma SeeTick(tick: Instant -> bool, cursor: Instant, seen: seq<Tick>, t: Tick)
    requires Repeated(tick, cursor, Instants(seen)) && IsNext(tick, Before(cursor, Instants(seen), |seen|), t.instant)
    ensures Repeated(tick, cursor, Instants(seen + [t]))
    ensures Before(cursor, Instants(seen + [t]), |seen + [t]|) == t.instant && cursor < t.instant
    ensures t !in seen && Distinct(seen) && Distinct(seen + [t]) && OwnInstants(Elems(seen + [t]))
  {
    assert Instants(seen + [t]) == Instants(seen) + [t.instant];
    RepeatedAppend(tick, cursor, Instants(seen), t.instant);
    RepeatedListsAll(tick, cursor, Instants(seen));
    RepeatedListsAll(tick, cursor, Instants(seen + [t]));
    SortedTicksDiffer(seen);
    SortedTicksDiffer(seen + [t]);
    if t in seen {
      InstantListed(seen, t);
      assert false;
    }
  }

  ghost function FinalOutcome(ticks: seq<Tick>, count: nat, held: bool): Tick -> Outcome {
    (x: Tick) => OutcomeOf(ticks, count, held, x)
  }

  /** The cursor is the latest of the start, or the creation where there is none, the resume and the last tick. */
  lemma CursorIsLatest(created: Instant, s: Signature)
    ensures var c := CursorOf(created, s);
            && (if s.start.Some? then s.start.value <= c else created <= c)
            && (s.resumed.Some? ==> s.resumed.value <= c) && (s.lastRun.Some? ==> s.lastRun.value <= c)
            && (s.resumed == Some(c) || s.lastRun == Some(c) || s.start == Some(c) || (s.start == None && c == created))
  {
  }

  /** What is recorded of a missed tick that had no row: the reason of its closed day; that it was missed, when as many
      runnable ticks are later as may catch up; that the last run is still active; or that it is queued. */
  lemma OutcomeByRank(before: Rows, after: Rows, row: PipelineRow, ticks: seq<Tick>, x: Tick)
    requires Written(before, after, row.id, Elems(ticks), FinalOutcome(ticks, Count(row), Held(row)))
    requires StrictlySorted(Instants(ticks)) && x in ticks && Key(row.id, x.instant) !in before
    requires row.catchUp ==> row.maxCatchUp >= 1
    ensures Key(row.id, x.instant) in after
    ensures after[Key(row.id, x.instant)] == Row(
              x.runDate,
              if x.skipped.Some? then Skipped(ClosedDay(x.skipped.value))
              else if |LaterRunnable(ticks, x)| >= (if row.catchUp then row.maxCatchUp else 1) then Skipped(Missed)
              else if row.pending && row.overlapSkip then Skipped(StillActive)
              else Queued)
  {
    forall i, j | 0 <= i < j < |ticks| ensures ticks[i].instant < ticks[j].instant {
      assert Instants(ticks)[i] < Instants(ticks)[j];
    }
    assert x in Elems(ticks);
    if x.skipped.None? {
      LastAreLatest(ticks, x, Count(row));
    }
  }

  /** Recording up to `now` again, from the same cursor or a later one, changes no row. */
  lemma CatchingUpTwice(tick: Instant -> bool, id: nat, r0: Rows, r1: Rows, r2: Rows, f: Tick -> Outcome,
                        g: Tick -> Outcome,
                        cursor: Instant, now: Instant, ticks: seq<Tick>, later: Instant, again: seq<Tick>)
    requires ListsTicks(tick, cursor, now, ticks) && Written(r0, r1, id, Elems(ticks), f)
    requires cursor <= later && ListsTicks(tick, later, now, again) && Written(r1, r2, id, Elems(again), g)
    ensures r2 == r1
  {
    forall y | y in Elems(again) ensures exists x :: x in Elems(ticks) && x.instant == y.instant {
      InstantListed(again, y);
      var k :| 0 <= k < |ticks| && Instants(ticks)[k] == y.instant;
      assert ticks[k] in Elems(ticks);
    }
  }

  /** After the walk the settled ticks have their final outcome, and the waiting ones complete the record. */
  lemma WaitingComplete(before: Rows, middle: Rows, id: nat, seen: seq<Tick>, count: nat, held: bool)
    requires Distinct(seen)
    requires Written(before, middle, id, Settled(seen, LastOf(Runnable(seen), count)), EarlyOutcome)
    ensures var waiting := LastOf(Runnable(seen), count);
            && Written(before, middle, id, Settled(seen, waiting), FinalOutcome(seen, count, held))
            && Settled(seen, waiting) + Elems(waiting) == Elems(seen) && Distinct(waiting)
            && forall x :: x in waiting ==>
                 x !in Settled(seen, waiting)
                 && FinalOutcome(seen, count, held)(x) == if held then Skipped(StillActive) else Queued
  {
    RunnableTicks(seen);
    WaitingAreRunnable(seen, count);
    SettledAndWaiting(seen, count);
  }

  lemma NextWaits(done: set<Tick>, waiting: seq<Tick>, i: nat)
    requires i < |waiting| && Distinct(waiting) && OwnInstants(done + Elems(waiting))
    requires forall x :: x in waiting ==> x !in done
    ensures waiting[i] in waiting && waiting[i] !in done + Elems(waiting[..i])
    ensures OwnInstants(done + Elems(waiting[..i]) + {waiting[i]})
    ensures Elems(waiting[..i + 1]) == Elems(waiting[..i]) + {waiting[i]}
  {
    assert waiting[..i + 1] == waiting[..i] + [waiting[i]];
    assert done + Elems(waiting[..i]) + {waiting[i]} <= done + Elems(waiting);
  }

  /** A cached deadline leaves no unrecorded tick between its cursor and itself. */
  ghost predicate Sound(plans: nat -> Schedule, created: nat -> Instant, rows: Rows, deadlines: map<nat, Cached>)
    requires forall k :: ScheduleFits(plans(k))
  {
    forall id :: id in deadlines ==> SoundAt(plans, created, rows, id, deadlines[id])
  }

  ghost predicate SoundAt(plans: nat -> Schedule, created: nat -> Instant, rows: Rows, id: nat, c: Cached)
    requires forall k :: ScheduleFits(plans(k))
  {
    Recorded(rows, id, Ticks(plans(c.signature.plan)), CursorOf(created(id), c.signature), c.deadline)
  }

  lemma FewerSound(plans: nat -> Schedule, created: nat -> Instant, rows: Rows, deadlines: map<nat, Cached>,
                   kept: map<nat, Cached>)
    requires (forall k :: ScheduleFits(plans(k))) && Sound(plans, created, rows, deadlines)
    requires forall id :: id in kept ==> id in deadlines && kept[id] == deadlines[id]
    ensures Sound(plans, created, rows, kept)
  {
  }

  lemma WrittenAreRecorded(before: Rows, after: Rows, id: nat, ticks: seq<Tick>, outcome: Tick -> Outcome,
                           tick: Instant -> bool, cursor: Instant, end: Instant)
    requires Written(before, after, id, Elems(ticks), outcome)
    requires forall x: Instant :: cursor < x < end && tick(x) ==> x in Instants(ticks)
    ensures Recorded(after, id, tick, cursor, end)
  {
    forall x: Instant | cursor < x < end && tick(x) ensures Key(id, x) in after {
      var k :| 0 <= k < |ticks| && Instants(ticks)[k] == x;
      assert ticks[k] in Elems(ticks);
    }
  }

  /** The ticks seen on the walk so far, the ones waiting, and what was recorded of the others. */
  ghost predicate Walked(plan: Schedule, cursor: Instant, now: Instant, count: nat, id: nat, before: Rows, after: Rows,
                         seen: seq<Tick>, waiting: seq<Tick>)
    requires ScheduleFits(plan)
  {
    && Repeated(Ticks(plan), cursor, Instants(seen))
    && (seen == [] || cursor < Before(cursor, Instants(seen), |seen|) <= now)
    && waiting == LastOf(Runnable(seen), count) && Distinct(seen) && OwnInstants(Elems(seen))
    && Written(before, after, id, Settled(seen, waiting), EarlyOutcome)
    && forall x :: x in seen ==> OwnTick(plan, x)
  }

  ghost predicate OwnTick(plan: Schedule, x: Tick)
    requires ScheduleFits(plan)
  {
    plan.calendar.Some? ==> TickIsOwn(plan, x)
  }

  /** The next tick after those seen. */
  ghost predicate FollowsSeen(plan: Schedule, cursor: Instant, seen: seq<Tick>, t: Tick)
    requires ScheduleFits(plan)
  {
    IsNext(Ticks(plan), Before(cursor, Instants(seen), |seen|), t.instant) && OwnTick(plan, t)
  }

  /** Some search between the cursor and now fails. */
  ghost predicate SearchStops(plan: Schedule, cursor: Instant, now: Instant)
    requires ScheduleFits(plan)
  {
    exists u: Instant :: (u == cursor || cursor < u <= now) && NoTickFound(plan, u)
  }

  ghost predicate RowStops(plans: nat -> Schedule, created: nat -> Instant, row: PipelineRow, now: Instant)
    requires forall k :: ScheduleFits(plans(k))
  {
    SearchStops(plans(row.signature.plan), CursorOf(created(row.id), row.signature), now)
  }

  lemma StopsAt(plan: Schedule, cursor: Instant, now: Instant, u: Instant)
    requires ScheduleFits(plan) && (u == cursor || cursor < u <= now) && NoTickFound(plan, u)
    ensures SearchStops(plan, cursor, now)
  {
  }

  lemma SeeOwnTick(plan: Schedule, cursor: Instant, seen: seq<Tick>, t: Tick)
    requires ScheduleFits(plan) && OwnTick(plan, t) && forall x :: x in seen ==> OwnTick(plan, x)
    ensures forall x :: x in seen + [t] ==> OwnTick(plan, x)
  {
  }

  lemma WalkMore(plan: Schedule, cursor: Instant, now: Instant, count: nat, id: nat, before: Rows, between: Rows,
                 after: Rows, seen: seq<Tick>, waiting: seq<Tick>, t: Tick, next: seq<Tick>)
    requires ScheduleFits(plan) && Walked(plan, cursor, now, count, id, before, between, seen, waiting)
    requires FollowsSeen(plan, cursor, seen, t) && t.instant <= now
    requires next == LastOf(Runnable(seen + [t]), count)
    requires Written(before, after, id, Settled(seen + [t], next), EarlyOutcome)
    ensures Walked(plan, cursor, now, count, id, before, after, seen + [t], next)
    ensures Before(cursor, Instants(seen + [t]), |seen + [t]|) == t.instant
  {
    SeeTick(Ticks(plan), cursor, seen, t);
    SeeOwnTick(plan, cursor, seen, t);
  }

  lemma WalkEnds(plan: Schedule, cursor: Instant, now: Instant, count: nat, id: nat, before: Rows, after: Rows,
                 seen: seq<Tick>, waiting: seq<Tick>, next: Tick)
    requires ScheduleFits(plan) && Walked(plan, cursor, now, count, id, before, after, seen, waiting)
    requires FollowsSeen(plan, cursor, seen, next) && now < next.instant
    ensures Ticks(plan)(next.instant) && ListsTicks(Ticks(plan), cursor, now, seen)
    ensures forall x: Instant :: cursor < x < next.instant && Ticks(plan)(x) ==> x in Instants(seen)
    ensures forall x: Instant :: cursor < x && now < x < next.instant ==> !Ticks(plan)(x)
  {
    SeenAreAll(Ticks(plan), cursor, now, seen, next.instant);
  }

  ghost predicate Wanted(row: PipelineRow, paused: set<nat>) {
    row.scheduled && row.id !in paused
  }

  /** The pipeline's ticks since its cursor are all recorded up to `now`. */
  ghost predicate RowDone(plans: nat -> Schedule, created: nat -> Instant, rows: Rows, row: PipelineRow, now: Instant)
    requires forall k :: ScheduleFits(plans(k))
  {
    Recorded(rows, row.id, Ticks(plans(row.signature.plan)), CursorOf(created(row.id), row.signature), now + 1)
  }

  ghost predicate AllDone(plans: nat -> Schedule, created: nat -> Instant, rows: Rows, pipelines: seq<PipelineRow>,
                          paused: set<nat>, now: Instant, n: nat)
    requires (forall k :: ScheduleFits(plans(k))) && n <= |pipelines|
  {
    forall k :: 0 <= k < n && Wanted(pipelines[k], paused) ==> RowDone(plans, created, rows, pipelines[k], now)
  }

  lemma RowStaysDone(plans: nat -> Schedule, created: nat -> Instant, before: Rows, after: Rows, row: PipelineRow,
                     now: Instant)
    requires forall k :: ScheduleFits(plans(k))
    requires RowDone(plans, created, before, row, now) && forall key :: key in before ==> key in after
    ensures RowDone(plans, created, after, row, now)
  {
  }

  lemma OneMoreDone(plans: nat -> Schedule, created: nat -> Instant, before: Rows, after: Rows,
                    pipelines: seq<PipelineRow>,
                    paused: set<nat>, now: Instant, n: nat)
    requires (forall k :: ScheduleFits(plans(k))) && n < |pipelines|
    requires AllDone(plans, created, before, pipelines, paused, now, n) && forall key :: key in before ==> key in after
    requires Wanted(pipelines[n], paused) ==> RowDone(plans, created, after, pipelines[n], now)
    ensures AllDone(plans, created, after, pipelines, paused, now, n + 1)
  {
    forall k | 0 <= k < n && Wanted(pipelines[k], paused) ensures RowDone(plans, created, after, pipelines[k], now) {
      RowStaysDone(plans, created, before, after, pipelines[k], now);
    }
  }

  class Schedules {
    var rows: Rows
    var deadlines: map<nat, Cached>
    const plans: nat -> Schedule
    const created: nat -> Instant

    constructor (plans: nat -> Schedule, created: nat -> Instant)
      requires forall k :: ScheduleFits(plans(k))
      ensures Valid() && this.plans == plans && this.created == created && rows == map[] && deadlines == map[]
    {
      this.plans, this.created, rows, deadlines := plans, created, map[], map[];
    }

    ghost predicate Valid()
      reads this
    {
      (forall k :: ScheduleFits(plans(k))) && Sound(plans, created, rows, deadlines)
    }

    method CreateTick(id: nat, tick: Tick, why: Option<Why>)
      modifies this`rows
      ensures var key := Key(id, tick.instant);
              var outcome := if why.Some? then Skipped(why.value) else Queued;
              rows == if key in old(rows) then old(rows) else old(rows)[key := Row(tick.runDate, outcome)]
    {
      var key := Key(id, tick.instant);
      if key in rows {
        return;
      }
      rows := rows[key := Row(tick.runDate, if why.Some? then Skipped(why.value) else Queued)];
    }

    /** Record the ticks that wait to run, oldest first. */
    method CreateWaiting(id: nat, waiting: seq<Tick>, held: bool, ghost before: Rows, ghost done: set<Tick>,
                         ghost outcome: Tick -> Outcome)
      requires Written(before, rows, id, done, outcome) && OwnInstants(done + Elems(waiting)) && Distinct(waiting)
      requires forall x :: x in waiting ==> x !in done && outcome(x) == if held then Skipped(StillActive) else Queued
      modifies this`rows
      ensures Written(before, rows, id, done + Elems(waiting), outcome)
    {
      ghost var all := done;
      for i := 0 to |waiting|
        invariant all == done + Elems(waiting[..i])
        invariant Written(before, rows, id, all, outcome)
      {
        NextWaits(done, waiting, i);
        WriteOne(before, rows, id, all, outcome, waiting[i]);
        CreateTick(id, waiting[i], if held then Some(StillActive) else None);
        all := all + {waiting[i]};
      }
      assert waiting[..|waiting|] == waiting;
    }

    /** One tick in time order: skipped days are recorded at once, a runnable tick waits and may push out the oldest. */
    method Settle(id: nat, waiting: seq<Tick>, count: nat, t: Tick, ghost before: Rows, ghost seen: seq<Tick>)
      returns (next: seq<Tick>)
      requires count >= 1 && waiting == LastOf(Runnable(seen), count)
      requires t !in seen && Distinct(seen) && OwnInstants(Elems(seen + [t]))
      requires Written(before, rows, id, Settled(seen, waiting), EarlyOutcome)
      modifies this`rows
      ensures next == LastOf(Runnable(seen + [t]), count)
      ensures Written(before, rows, id, Settled(seen + [t], next), EarlyOutcome)
    {
      ghost var done := Settled(seen, waiting);
      assert done + {t} <= Elems(seen + [t]) && forall x :: x in seen ==> done + {x} <= Elems(seen + [t]);
      if t.skipped.Some? {
        SkipOneMore(seen, t, count);
        WriteOne(before, rows, id, done, EarlyOutcome, t);
        CreateTick(id, t, Some(ClosedDay(t.skipped.value)));
        return waiting;
      }
      WaitOneMore(seen, t, count);
      if |waiting| == count {
        WriteOne(before, rows, id, done, EarlyOutcome, waiting[0]);
        CreateTick(id, waiting[0], Some(Missed));
        next := waiting[1..] + [t];
      } else {
        next := waiting + [t];
      }
    }

    /** The plan's next tick; none when the search fails, for either reason. */
    method TickAfter(plan: Schedule, t: Instant, ghost cursor: Instant, ghost now: Instant) returns (r: Option<Tick>)
      requires ScheduleFits(plan) && 1 <= LocalDay(plan.zone, t) <= LAST_DAY && (t == cursor || cursor < t <= now)
      ensures r.Some? ==> IsNext(Ticks(plan), t, r.value.instant) && OwnTick(plan, r.value)
      ensures r.None? ==> SearchStops(plan, cursor, now)
    {
      var next := NextScheduleTick(plan, t);
      if next.Err? {
        StopsAt(plan, cursor, now, t);
        return None;
      }
      return Some(next.value);
    }

    /** Walk the ticks from the cursor to now. `next` is the first tick after now, unless the search fails. */
    method Walk(id: nat, plan: Schedule, cursor: Instant, now: Instant, count: nat)
      returns (next: Option<Instant>, waiting: seq<Tick>, ghost seen: seq<Tick>)
      requires ScheduleFits(plan) && Covered(plan, cursor, now) && count >= 1
      modifies this`rows
      ensures waiting == LastOf(Runnable(seen), count) && Distinct(seen) && OwnInstants(Elems(seen))
      ensures Written(old(rows), rows, id, Settled(seen, waiting), EarlyOutcome)
      ensures forall x :: x in seen ==> OwnTick(plan, x)
      ensures forall x :: x in seen ==> DueBy(Ticks(plan), cursor, now, x.instant)
      ensures next.Some? ==> now < next.value && Ticks(plan)(next.value) && ListsTicks(Ticks(plan), cursor, now, seen)
      ensures next.Some? ==> forall x: Instant :: cursor < x < next.value && Ticks(plan)(x) ==> x in Instants(seen)
      ensures next.Some? ==> forall x: Instant :: cursor < x && now < x < next.value ==> !Ticks(plan)(x)
      ensures next.None? ==> SearchStops(plan, cursor, now)
    {
      seen, waiting := [], [];
      var t := TickAfter(plan, cursor, cursor, now);
      while t.Some? && t.value.instant <= now
        invariant Walked(plan, cursor, now, count, id, old(rows), rows, seen, waiting)
        invariant t.Some? ==> FollowsSeen(plan, cursor, seen, t.value)
        invariant t.None? ==> SearchStops(plan, cursor, now)
        decreases if t.Some? then 1 + now - t.value.instant else 0
      {
        ghost var between := rows;
        SeeTick(Ticks(plan), cursor, seen, t.value);
        var more := Settle(id, waiting, count, t.value, old(rows), seen);
        WalkMore(plan, cursor, now, count, id, old(rows), between, rows, seen, waiting, t.value, more);
        seen, waiting := seen + [t.value], more;
        t := TickAfter(plan, t.value.instant, cursor, now);
      }
      SeenAreDue(Ticks(plan), cursor, now, seen);
      if t.None? {
        return None, waiting, seen;
      }
      WalkEnds(plan, cursor, now, count, id, old(rows), rows, seen, waiting, t.value);
      next := Some(t.value.instant);
    }

    /** Record every tick since the pipeline's cursor, keeping the last runnable ones, and cache the next deadline.
        Without a next tick the call fails, with the ticks recorded so far. */
    method CatchUp(row: PipelineRow, now: Instant) returns (ok: bool, ghost ticks: seq<Tick>)
      requires Valid() && (row.catchUp ==> row.maxCatchUp >= 1)
      requires Covered(plans(row.signature.plan), CursorOf(created(row.id), row.signature), now)
      modifies this
      ensures Valid()
      ensures var tick, cursor := Ticks(plans(row.signature.plan)), CursorOf(created(row.id), row.signature);
              ok ==>
                && ListsTicks(tick, cursor, now, ticks)
                && Written(old(rows), rows, row.id, Elems(ticks), FinalOutcome(ticks, Count(row), Held(row)))
                && row.id in deadlines && deadlines == old(deadlines)[row.id := deadlines[row.id]]
                && deadlines[row.id].signature == row.signature && now < deadlines[row.id].deadline
                && tick(deadlines[row.id].deadline)
                && (forall x: Instant :: cursor < x && now < x < deadlines[row.id].deadline ==> !tick(x))
                && Recorded(rows, row.id, tick, cursor, deadlines[row.id].deadline)
      ensures forall x :: x in ticks ==>
                DueBy(Ticks(plans(row.signature.plan)), CursorOf(created(row.id), row.signature), now, x.instant)
      ensures plans(row.signature.plan).calendar.Some? ==>
                forall x :: x in ticks ==> TickIsOwn(plans(row.signature.plan), x)
      ensures !ok ==> deadlines == old(deadlines)
      ensures !ok ==> RowStops(plans, created, row, now)
      ensures !ok ==>
              Written(old(rows), rows, row.id, Settled(ticks, LastOf(Runnable(ticks), Count(row))), EarlyOutcome)
    {
      var plan, cursor := plans(row.signature.plan), CursorOf(created(row.id), row.signature);
      var next, waiting;
      next, waiting, ticks := Walk(row.id, plan, cursor, now, Count(row));
      if next.None? {
        return false, ticks;
      }
      ghost var outcome := FinalOutcome(ticks, Count(row), Held(row));
      WaitingComplete(old(rows), rows, row.id, ticks, Count(row), Held(row));
      CreateWaiting(row.id, waiting, Held(row), old(rows), Settled(ticks, waiting), outcome);
      WrittenAreRecorded(old(rows), rows, row.id, ticks, outcome, Ticks(plan), cursor, next.value);
      deadlines := deadlines[row.id := Cached(row.signature, next.value)];
      ok := true;
    }

    ghost predicate RowDue(row: PipelineRow, now: Instant, key: Key)
      requires forall k :: ScheduleFits(plans(k))
    {
      key.pipeline == row.id
      && DueBy(Ticks(plans(row.signature.plan)), CursorOf(created(row.id), row.signature), now, key.instant)
    }

    /** One pipeline: nothing is done when its cached deadline still lies ahead. */
    method RefreshRow(row: PipelineRow, now: Instant) returns (ok: bool)
      requires Valid() && (row.catchUp ==> row.maxCatchUp >= 1)
      requires Covered(plans(row.signature.plan), CursorOf(created(row.id), row.signature), now)
      modifies this
      ensures Valid() && deadlines.Keys <= old(deadlines).Keys + {row.id}
      ensures ok ==> RowDone(plans, created, rows, row, now)
      ensures !ok ==> RowStops(plans, created, row, now)
      ensures forall key :: key in old(rows) ==> key in rows && rows[key] == old(rows)[key]
      ensures forall key :: key in rows && key !in old(rows) ==> RowDue(row, now, key)
    {
      if row.id in deadlines && deadlines[row.id].signature == row.signature && deadlines[row.id].deadline > now {
        assert SoundAt(plans, created, rows, row.id, deadlines[row.id]);
        return true;
      }
      ghost var ticks;
      ok, ticks := CatchUp(row, now);
    }

    /** The rows that a refresh may add. */
    ghost predicate Accounted(pipelines: seq<PipelineRow>, paused: set<nat>, now: Instant, key: Key)
      requires forall k :: ScheduleFits(plans(k))
    {
      exists row :: row in pipelines && Wanted(row, paused) && RowDue(row, now, key)
    }

    /** Keep only the deadlines of scheduled pipelines. */
    method ForgetOthers(pipelines: seq<PipelineRow>) returns (active: set<nat>)
      requires Valid()
      modifies this`deadlines
      ensures Valid() && deadlines.Keys == old(deadlines).Keys * active
      ensures forall id :: id in deadlines ==> deadlines[id] == old(deadlines)[id]
      ensures forall id :: id in active <==> exists row :: row in pipelines && row.scheduled && row.id == id
    {
      active := set row | row in pipelines && row.scheduled :: row.id;
      ghost var before := deadlines;
      deadlines := map id | id in deadlines && id in active :: deadlines[id];
      FewerSound(plans, created, rows, before, deadlines);
    }

    /** Record the missed ticks of every scheduled pipeline that is not paused. Whether its deadline was cached or
        not, each has all its ticks up to now; no other row appears and no row changes. */
    method Refresh(pipelines: seq<PipelineRow>, paused: set<nat>, now: Instant) returns (ok: bool)
      requires Valid()
      requires forall row :: row in pipelines && Wanted(row, paused) ==>
                 (row.catchUp ==> row.maxCatchUp >= 1)
                 && Covered(plans(row.signature.plan), CursorOf(created(row.id), row.signature), now)
      modifies this
      ensures Valid()
      ensures ok ==> AllDone(plans, created, rows, pipelines, paused, now, |pipelines|)
      ensures !ok ==> exists row :: row in pipelines && Wanted(row, paused)
                                    && RowStops(plans, created, row, now)
      ensures forall key :: key in old(rows) ==> key in rows && rows[key] == old(rows)[key]
      ensures forall key :: key in rows && key !in old(rows) ==> Accounted(pipelines, paused, now, key)
      ensures forall id :: id in deadlines ==> exists row :: row in pipelines && row.scheduled && row.id == id
    {
      var active := ForgetOthers(pipelines);
      for i := 0 to |pipelines|
        invariant Valid() && deadlines.Keys <= active
        invariant AllDone(plans, created, rows, pipelines, paused, now, i)
        invariant forall key :: key in old(rows) ==> key in rows && rows[key] == old(rows)[key]
        invariant forall key :: key in rows && key !in old(rows) ==> Accounted(pipelines, paused, now, key)
      {
        var row := pipelines[i];
        if !row.scheduled || row.id in paused {
          OneMoreDone(plans, created, rows, rows, pipelines, paused, now, i);
          continue;
        }
        ghost var before := rows;
        ok := RefreshRow(row, now);
        forall key | key in rows && key !in old(rows) ensures Accounted(pipelines, paused, now, key) {
        }
        if !ok {
          return;
        }
        OneMoreDone(plans, created, before, rows, pipelines, paused, now, i);
      }
      ok := true;
    }
  }
}
