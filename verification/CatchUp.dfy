/** Missed ticks of a schedule: which are kept to run and which are recorded as skipped. */
module CatchUp {
  import opened Wrappers
  import opened Collections
  import opened CronTicks
  import opened BusinessCalendars
  import opened ScheduleTicks

  datatype Key = Key(pipeline: nat, instant: Instant)

  datatype Why = ClosedDay(reason: Reason) | Missed | StillActive

  datatype Outcome = Queued | Skipped(why: Why)

  datatype Row = Row(runDate: nat, outcome: Outcome)

  type Rows = map<Key, Row>

  function Runnable(ticks: seq<Tick>): seq<Tick> {
    if ticks == [] then []
    else
      var last := ticks[|ticks| - 1];
      Runnable(ticks[..|ticks| - 1]) + if last.skipped.None? then [last] else []
  }

  function LastOf(s: seq<Tick>, count: nat): seq<Tick> {
    if |s| <= count then s else s[|s| - count..]
  }

  /** What becomes of a missed tick: only the last `count` runnable ones may still run. */
  function OutcomeOf(ticks: seq<Tick>, count: nat, held: bool, tick: Tick): Outcome {
    if tick.skipped.Some? then Skipped(ClosedDay(tick.skipped.value))
    else if tick !in LastOf(Runnable(ticks), count) then Skipped(Missed)
    else if held then Skipped(StillActive)
    else Queued
  }

  /** The runnable ticks later than `x`. */
  ghost function LaterRunnable(ticks: seq<Tick>, x: Tick): set<Tick> {
    set y | y in ticks && y.skipped.None? && y.instant > x.instant
  }

  lemma LaterAtEnd(ticks: seq<Tick>, t: Tick, x: Tick)
    requires t !in ticks && forall y :: y in ticks ==> y.instant < t.instant
    ensures |LaterRunnable(ticks + [t], x)|
            == |LaterRunnable(ticks, x)| + if t.skipped.None? && x.instant < t.instant then 1 else 0
  {
    assert LaterRunnable(ticks + [t], x)
           == LaterRunnable(ticks, x) + if t.skipped.None? && x.instant < t.instant then {t} else {};
  }

  ghost predicate InTime(ticks: seq<Tick>) {
    forall i, j :: 0 <= i < j < |ticks| ==> ticks[i].instant < ticks[j].instant
  }

  lemma LastIsLatest(front: seq<Tick>, t: Tick)
    requires InTime(front + [t])
    ensures InTime(front) && t !in front && forall y :: y in front ==> y.instant < t.instant
  {
    var all := front + [t];
    forall i | 0 <= i < |front| ensures front[i].instant < t.instant {
      assert all[i].instant < all[|front|].instant;
    }
    forall i, j | 0 <= i < j < |front| ensures front[i].instant < front[j].instant {
      assert all[i].instant < all[j].instant;
    }
  }

  lemma {:induction false} LastAreLatest(ticks: seq<Tick>, x: Tick, count: nat)
    requires InTime(ticks) && x in ticks && x.skipped.None? && count >= 1
    ensures x in LastOf(Runnable(ticks), count) <==> |LaterRunnable(ticks, x)| < count
  {
    var front, t := ticks[..|ticks| - 1], ticks[|ticks| - 1];
    assert ticks == front + [t];
    LastIsLatest(front, t);
    LaterAtEnd(front, t, x);
    RunnableMore(front, t);
    InTimeDistinct(front);
    RunnableTicks(front);
    if x == t {
      assert LaterRunnable(front, x) == {};
      LastOfMore(Runnable(front), t, count);
    } else if t.skipped.Some? {
      LastAreLatest(front, x, count);
    } else if count == 1 {
      LastOfMore(Runnable(front), t, count);
    } else {
      LastAreLatest(front, x, count - 1);
      LastOfShorter(Runnable(front), t, x, count);
    }
  }

  lemma LastOfShorter(all: seq<Tick>, t: Tick, x: Tick, count: nat)
    requires count >= 2 && x != t && x in all
    ensures x in LastOf(all + [t], count) <==> x in LastOf(all, count - 1)
  {
    var longer, shorter := LastOf(all + [t], count), LastOf(all, count - 1);
    assert longer == shorter + [t];
  }

  lemma InTimeDistinct(ticks: seq<Tick>)
    requires InTime(ticks)
    ensures Distinct(ticks)
  {
  }

  /** What becomes of a tick that is recorded before the last one is known. */
  function EarlyOutcome(tick: Tick): Outcome {
    if tick.skipped.Some? then Skipped(ClosedDay(tick.skipped.value)) else Skipped(Missed)
  }

  function Instants(ticks: seq<Tick>): seq<Instant> {
    seq(|ticks|, (k: nat) requires k < |ticks| => ticks[k].instant)
  }

  /** The ticks of `done`, and no others, were added to `before`; rows that were there are as they were. */
  ghost predicate Written(before: Rows, after: Rows, id: nat, done: set<Tick>, outcome: Tick -> Outcome) {
    && (forall key :: key in before ==> key in after && after[key] == before[key])
    && (forall key :: key in after ==>
          key in before || (key.pipeline == id && exists x :: x in done && x.instant == key.instant))
    && (forall x :: x in done ==> Key(id, x.instant) in after)
    && (forall x :: x in done && Key(id, x.instant) !in before ==>
          after[Key(id, x.instant)] == Row(x.runDate, outcome(x)))
  }

  ghost predicate OwnInstants(ticks: set<Tick>) {
    forall x, y :: x in ticks && y in ticks && x.instant == y.instant ==> x == y
  }

  lemma WriteOne(before: Rows, after: Rows, id: nat, done: set<Tick>, outcome: Tick -> Outcome, tick: Tick)
    requires Written(before, after, id, done, outcome) && OwnInstants(done + {tick}) && tick !in done
    ensures var key := Key(id, tick.instant);
            var next := if key in after then after else after[key := Row(tick.runDate, outcome(tick))];
            Written(before, next, id, done + {tick}, outcome)
  {
    var key := Key(id, tick.instant);
    forall x | x in done ensures x.instant != tick.instant {
      assert x in done + {tick} && tick in done + {tick};
    }
  }

  lemma {:induction false} RunnableTicks(ticks: seq<Tick>)
    ensures forall x :: x in Runnable(ticks) <==> x in ticks && x.skipped.None?
    ensures Distinct(ticks) ==> Distinct(Runnable(ticks))
  {
    if ticks != [] {
      var front, last := ticks[..|ticks| - 1], ticks[|ticks| - 1];
      assert ticks == front + [last];
      RunnableTicks(front);
    }
  }

  /** Ticks seen so far that no longer wait to run. */
  ghost function Settled(seen: seq<Tick>, waiting: seq<Tick>): set<Tick> {
    set x | x in seen && x !in waiting
  }

  lemma RunnableMore(seen: seq<Tick>, tick: Tick)
    ensures Runnable(seen + [tick]) == if tick.skipped.None? then Runnable(seen) + [tick] else Runnable(seen)
  {
    assert (seen + [tick])[..|seen|] == seen;
    assert Runnable(seen) + [] == Runnable(seen);
  }

  lemma LastOfMore(all: seq<Tick>, tick: Tick, count: nat)
    requires count >= 1 && Distinct(all)
    ensures var waiting := LastOf(all, count);
            LastOf(all + [tick], count) == (if |waiting| == count then waiting[1..] else waiting) + [tick]
    ensures Distinct(LastOf(all, count)) && forall x :: x in LastOf(all, count) ==> x in all
  {
  }

  lemma PushedOut(waiting: seq<Tick>, tick: Tick)
    requires waiting != [] && Distinct(waiting)
    ensures forall x :: x in waiting[1..] + [tick] <==> x == tick || (x in waiting && x != waiting[0])
  {
    assert waiting == [waiting[0]] + waiting[1..];
  }

  /** One more runnable tick waits, and pushes out the oldest when `count` are waiting. */
  lemma WaitOneMore(seen: seq<Tick>, tick: Tick, count: nat)
    requires Distinct(seen) && tick !in seen && tick.skipped.None? && count >= 1
    ensures var waiting := LastOf(Runnable(seen), count);
            var full := |waiting| == count;
            && LastOf(Runnable(seen + [tick]), count) == (if full then waiting[1..] else waiting) + [tick]
            && Settled(seen + [tick], LastOf(Runnable(seen + [tick]), count))
               == Settled(seen, waiting) + (if full then {waiting[0]} else {})
            && (full ==> waiting[0] !in Settled(seen, waiting) && waiting[0] in seen && waiting[0].skipped.None?)
  {
    RunnableTicks(seen);
    RunnableMore(seen, tick);
    LastOfMore(Runnable(seen), tick, count);
    var waiting := LastOf(Runnable(seen), count);
    if |waiting| == count {
      assert waiting[0] in waiting;
      PushedOut(waiting, tick);
    }
  }

  lemma WaitingAreRunnable(seen: seq<Tick>, count: nat)
    ensures forall x :: x in LastOf(Runnable(seen), count) ==> x in seen && x.skipped.None?
  {
    RunnableTicks(seen);
    forall x | x in LastOf(Runnable(seen), count) ensures x in Runnable(seen) {
    }
  }

  lemma SkipOneMore(seen: seq<Tick>, tick: Tick, count: nat)
    requires tick !in seen && tick.skipped.Some?
    ensures LastOf(Runnable(seen + [tick]), count) == LastOf(Runnable(seen), count)
    ensures var waiting := LastOf(Runnable(seen), count);
            Settled(seen + [tick], waiting) == Settled(seen, waiting) + {tick}
  {
    WaitingAreRunnable(seen, count);
    RunnableMore(seen, tick);
  }

  /** After the ticks that settled on the way, the waiting ones complete the record. */
  lemma SettledAndWaiting(seen: seq<Tick>, count: nat)
    ensures Settled(seen, LastOf(Runnable(seen), count)) + Elems(LastOf(Runnable(seen), count)) == Elems(seen)
  {
    WaitingAreRunnable(seen, count);
  }
}
