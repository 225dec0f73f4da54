/** Instants of a schedule in a time zone, and the search for the next one. */
module CronTicks {
  import opened Collections
  import opened Gregorian
  import opened CronFields

  /** A UTC instant; the unit does not matter. */
  type Instant = nat

  /** A wall-clock minute, counted from the start of day number 0. */
  type Minute = nat

  /** A time zone: the first instant each wall minute is read as, whether converting that instant back gives the
      minute (a gap skips it otherwise), and the wall minute an instant falls in. Gaps last at most `gap` minutes. */
  datatype Zone = Zone(utc: Minute -> Instant, valid: Minute -> bool, wall: Instant -> Minute, gap: nat)

  ghost predicate ValidWithin(z: Zone, w: Minute) {
    exists v: Minute :: w <= v <= w + z.gap && z.valid(v)
  }

  /** What is assumed of zones: wall minutes that exist come in order, an instant is not before the first instant of
      its own wall minute, and clocks never go back by a day: minutes a day ahead of an instant's are still to come. */
  ghost predicate ZoneFits(z: Zone) {
    && (forall t: Instant {:trigger z.wall(t)} :: z.valid(z.wall(t)) && z.utc(z.wall(t)) <= t)
    && (forall v: Minute, w: Minute {:trigger z.utc(v), z.utc(w)} ::
          v < w && z.valid(v) && z.valid(w) ==> z.utc(v) < z.utc(w))
    && (forall t: Instant, v: Minute {:trigger z.wall(t), z.utc(v)} ::
          z.valid(v) && z.wall(t) + 1440 <= v ==> t < z.utc(v))
    && (forall w: Minute {:trigger ValidWithin(z, w)} :: ValidWithin(z, w))
  }

  ghost predicate FirstValidAt(z: Zone, w: Minute, v: Minute) {
    w <= v && z.valid(v) && forall u: Minute :: w <= u < v ==> !z.valid(u)
  }

  lemma {:induction false} FirstValidExists(z: Zone, w: Minute, v: Minute)
    requires w <= v && z.valid(v)
    ensures exists first: Minute :: FirstValidAt(z, w, first)
    decreases v
  {
    if u: Minute :| w <= u < v && z.valid(u) {
      FirstValidExists(z, w, u);
    } else {
      assert FirstValidAt(z, w, v);
    }
  }

  /** A wall minute missing in a gap fires at the next valid minute. */
  ghost function FirstValid(z: Zone, w: Minute): (v: Minute)
    requires ZoneFits(z)
    ensures FirstValidAt(z, w, v)
  {
    assert exists first: Minute :: FirstValidAt(z, w, first) by {
      assert ValidWithin(z, w);
      var v: Minute :| w <= v <= w + z.gap && z.valid(v);
      FirstValidExists(z, w, v);
    }
    var first: Minute :| FirstValidAt(z, w, first);
    first
  }

  ghost function Fires(z: Zone, w: Minute): Instant
    requires ZoneFits(z)
  {
    z.utc(FirstValid(z, w))
  }

  /** Later wall minutes never fire earlier. */
  lemma FiresInOrder(z: Zone, v: Minute, w: Minute)
    requires ZoneFits(z) && v <= w
    ensures Fires(z, v) <= Fires(z, w)
  {
    var a, b := FirstValid(z, v), FirstValid(z, w);
    assert a <= b;
  }

  function WallMinute(day: nat, hour: nat, minute: nat): Minute {
    (day * 24 + hour) * 60 + minute
  }

  /** `u` is one of the schedule's instants on the wall-clock `day`. */
  ghost predicate IsDayTick(c: Cron, z: Zone, day: nat, u: Instant)
    requires ZoneFits(z)
  {
    exists h, m :: h in c.hours && m in c.minutes && u == Fires(z, WallMinute(day, h, m))
  }

  /** `u` is an instant of the schedule on some day that `due` selects. */
  ghost predicate IsTick(c: Cron, z: Zone, due: nat -> bool, u: Instant)
    requires ZoneFits(z)
  {
    exists day: nat :: 1 <= day <= LAST_DAY && due(day) && IsDayTick(c, z, day, u)
  }

  /** The minute-by-minute reading of "the next tick": none of the schedule's instants lies between. */
  ghost predicate NextTick(c: Cron, z: Zone, due: nat -> bool, t: Instant, u: Instant)
    requires ZoneFits(z)
  {
    IsTick(c, z, due, u) && t < u && forall x: Instant :: t < x < u ==> !IsTick(c, z, due, x)
  }

  function LocalDay(z: Zone, t: Instant): nat {
    z.wall(t) / 1440
  }

  lemma TicksInDayOrder(c: Cron, z: Zone, a: nat, b: nat, u: Instant, x: Instant)
    requires CronFits(c) && ZoneFits(z) && a < b && IsDayTick(c, z, a, u) && IsDayTick(c, z, b, x)
    ensures u <= x
  {
    var h, m :| h in c.hours && m in c.minutes && u == Fires(z, WallMinute(a, h, m));
    var h', m' :| h' in c.hours && m' in c.minutes && x == Fires(z, WallMinute(b, h', m'));
    FiresInOrder(z, WallMinute(a, h, m), WallMinute(b, h', m'));
  }

  /** Ticks of days before the instant's own wall-clock day are past. */
  lemma EarlierDaysArePast(c: Cron, z: Zone, day: nat, t: Instant, u: Instant)
    requires CronFits(c) && ZoneFits(z) && day < LocalDay(z, t) && IsDayTick(c, z, day, u)
    ensures u <= t
  {
    var h, m :| h in c.hours && m in c.minutes && u == Fires(z, WallMinute(day, h, m));
    var now := z.wall(t);
    assert WallMinute(day, h, m) < now;
    FiresInOrder(z, WallMinute(day, h, m), now);
    assert FirstValid(z, now) == now;
  }

  /** Ticks two days on are still to come, even where clocks go back across midnight. */
  lemma LaterDaysAreAhead(c: Cron, z: Zone, day: nat, t: Instant, u: Instant)
    requires CronFits(c) && ZoneFits(z) && LocalDay(z, t) + 2 <= day && IsDayTick(c, z, day, u)
    ensures t < u
  {
    var h, m :| h in c.hours && m in c.minutes && u == Fires(z, WallMinute(day, h, m));
    var now := z.wall(t);
    assert now + 1440 <= WallMinute(day, h, m);
  }

  /** Step over the minutes of a gap. */
  method FirstValidMinute(z: Zone, w: Minute) returns (v: Minute)
    requires ZoneFits(z)
    ensures v == FirstValid(z, w)
  {
    v := w;
    while !z.valid(v)
      invariant w <= v <= FirstValid(z, w)
      decreases FirstValid(z, w) - v
    {
      v := v + 1;
    }
  }

  /** The wall minutes of one hour of a day, and of the given hours. */
  ghost function HourWalls(day: nat, hour: nat, minutes: seq<nat>): (r: seq<Minute>)
    ensures |r| == |minutes| && forall j :: 0 <= j < |r| ==> r[j] == WallMinute(day, hour, minutes[j])
  {
    seq(|minutes|, j requires 0 <= j < |minutes| => WallMinute(day, hour, minutes[j]))
  }

  ghost function DayWalls(day: nat, hours: seq<nat>, minutes: seq<nat>): seq<Minute> {
    if hours == [] then []
    else DayWalls(day, hours[..|hours| - 1], minutes) + HourWalls(day, hours[|hours| - 1], minutes)
  }

  ghost function FiresAll(z: Zone, walls: seq<Minute>): (r: seq<Instant>)
    requires ZoneFits(z)
    ensures |r| == |walls| && forall k :: 0 <= k < |r| ==> r[k] == Fires(z, walls[k])
  {
    seq(|walls|, k requires 0 <= k < |walls| => Fires(z, walls[k]))
  }

  lemma {:induction false} DayWallsIncrease(day: nat, hours: seq<nat>, minutes: seq<nat>)
    requires StrictlySorted(hours) && StrictlySorted(minutes) && forall m :: m in minutes ==> m <= 59
    ensures StrictlySorted(DayWalls(day, hours, minutes))
    ensures forall w :: w in DayWalls(day, hours, minutes)
              ==> hours != [] && w < WallMinute(day, hours[|hours| - 1] + 1, 0)
  {
    if hours != [] {
      var front, last := hours[..|hours| - 1], hours[|hours| - 1];
      DayWallsIncrease(day, front, minutes);
      var walls, more := DayWalls(day, front, minutes), HourWalls(day, last, minutes);
      forall k | 0 <= k < |walls| ensures walls[k] < WallMinute(day, last, 0) {
        assert walls[k] in walls;
      }
      forall j | 0 <= j < |more| ensures WallMinute(day, last, 0) <= more[j] < WallMinute(day, last + 1, 0) {
        assert minutes[j] in minutes;
      }
    }
  }

  lemma {:induction false} InDayWalls(day: nat, hours: seq<nat>, minutes: seq<nat>, w: Minute)
    ensures w in DayWalls(day, hours, minutes)
            <==> exists h, m :: h in hours && m in minutes && w == WallMinute(day, h, m)
  {
    if hours != [] {
      var front, last := hours[..|hours| - 1], hours[|hours| - 1];
      assert hours == front + [last];
      InDayWalls(day, front, minutes, w);
      if w in HourWalls(day, last, minutes) {
        var j :| 0 <= j < |minutes| && w == WallMinute(day, last, minutes[j]);
        assert minutes[j] in minutes;
      }
      if m :| m in minutes && w == WallMinute(day, last, m) {
        var j :| 0 <= j < |minutes| && minutes[j] == m;
        assert HourWalls(day, last, minutes)[j] == w;
      }
    }
  }

  ghost predicate InOrder(ticks: seq<Instant>) {
    forall i, j :: 0 <= i < j < |ticks| ==> ticks[i] <= ticks[j]
  }

  /** The schedule's instants on one wall-clock day, in order. */
  method DayTicks(c: Cron, z: Zone, day: nat) returns (ticks: seq<Instant>)
    requires CronFits(c) && ZoneFits(z)
    ensures InOrder(ticks)
    ensures forall u :: u in ticks <==> IsDayTick(c, z, day, u)
  {
    ticks := [];
    for i := 0 to |c.hours|
      invariant ticks == FiresAll(z, DayWalls(day, c.hours[..i], c.minutes))
    {
      ghost var before := DayWalls(day, c.hours[..i], c.minutes);
      for j := 0 to |c.minutes|
        invariant ticks == FiresAll(z, before + HourWalls(day, c.hours[i], c.minutes[..j]))
      {
        var v := FirstValidMinute(z, WallMinute(day, c.hours[i], c.minutes[j]));
        ticks := ticks + [z.utc(v)];
        assert HourWalls(day, c.hours[i], c.minutes[..j + 1])
               == HourWalls(day, c.hours[i], c.minutes[..j]) + [WallMinute(day, c.hours[i], c.minutes[j])];
      }
      assert c.minutes[..|c.minutes|] == c.minutes;
      assert c.hours[..i + 1][..i] == c.hours[..i];
    }
    assert c.hours[..|c.hours|] == c.hours;
    WallsAreTicks(c, z, day);
  }

  lemma WallsAreTicks(c: Cron, z: Zone, day: nat)
    requires CronFits(c) && ZoneFits(z)
    ensures var ticks := FiresAll(z, DayWalls(day, c.hours, c.minutes));
            InOrder(ticks) && forall u :: u in ticks <==> IsDayTick(c, z, day, u)
  {
    var walls := DayWalls(day, c.hours, c.minutes);
    var ticks := FiresAll(z, walls);
    DayWallsIncrease(day, c.hours, c.minutes);
    forall i, j | 0 <= i < j < |ticks| ensures ticks[i] <= ticks[j] {
      FiresInOrder(z, walls[i], walls[j]);
    }
    forall u ensures u in ticks <==> IsDayTick(c, z, day, u) {
      if u in ticks {
        var k :| 0 <= k < |ticks| && ticks[k] == u;
        assert walls[k] in walls;
        InDayWalls(day, c.hours, c.minutes, walls[k]);
      }
      if h, m :| h in c.hours && m in c.minutes && u == Fires(z, WallMinute(day, h, m)) {
        InDayWalls(day, c.hours, c.minutes, WallMinute(day, h, m));
        var k :| 0 <= k < |walls| && walls[k] == WallMinute(day, h, m);
        assert ticks[k] == u;
      }
    }
  }
}
