/** The fan-out's main loop: a bounded number of items in flight, whatever order they end in. */
module FanOutRun {
  import opened Wrappers
  import opened Collections
  import opened FanOut

  /** An execution in flight: its number and the retries left after it. */
  datatype Slot = Slot(number: nat, left: nat)

  type Items = map<ItemKey, ItemRecord>

  type Slots = map<ItemKey, Slot>

  type Trace = seq<Event>

  /** One item's events, in order. */
  function History(trace: Trace, k: ItemKey): Trace {
    if trace == [] then []
    else History(trace[..|trace| - 1], k) + if trace[|trace| - 1].key == k then [trace[|trace| - 1]] else []
  }

  /** The items started and not yet ended. */
  function InFlight(trace: Trace): set<ItemKey> {
    if trace == [] then {}
    else
      var last := trace[|trace| - 1];
      var before := InFlight(trace[..|trace| - 1]);
      if last.Started? then before + {last.key} else if last.Ended? then before - {last.key} else before
  }

  /** At no moment are more than `width` items in flight. */
  ghost predicate Bounded(trace: Trace, width: nat) {
    forall i :: 0 <= i <= |trace| ==> |InFlight(trace[..i])| <= width
  }

  predicate AnyPermanent(trace: Trace) {
    exists e :: e in trace && e.Ended? && Permanent(e.ending)
  }

  /** What a run starts from: the work, the records known before it, and the keys it may execute. */
  datatype Plan = Plan(w: Work, known0: Items, mine: set<ItemKey>)

  ghost predicate PlanFits(p: Plan) {
    WorkFits(p.w) && p.mine <= p.known0.Keys
  }

  /** Keys this run executes, unless the store refuses their start. */
  function Open(p: Plan): set<ItemKey>
    requires p.mine <= p.known0.Keys
  {
    set k | k in p.mine && !Kept(p.known0[k])
  }

  function Whole(p: Plan, k: ItemKey): Trace
    requires k in p.known0
  {
    Solo(p.w, k, p.known0[k].number + 1, p.w.retries)
  }

  function FinalOf(p: Plan, k: ItemKey): ItemRecord
    requires k in p.known0
  {
    FinalRecord(p.w, k, p.known0[k].number + 1, p.w.retries)
  }

  ghost predicate ItemOk(p: Plan, todo: set<ItemKey>, known: Items, active: Slots, trace: Trace, k: ItemKey)
    requires PlanFits(p) && k in p.known0 && k in known
  {
    if k in active then
      && k in Open(p) && k !in todo
      && History(trace, k) + SoloEnd(p.w, k, active[k].number, active[k].left) == Whole(p, k)
      && FinalEnd(p.w, k, active[k].number, active[k].left) == FinalOf(p, k)
    else if k in todo || k !in Open(p) then History(trace, k) == [] && known[k] == p.known0[k]
    else History(trace, k) == Whole(p, k) && known[k] == FinalOf(p, k)
  }

  ghost predicate ItemsOk(p: Plan, todo: set<ItemKey>, known: Items, active: Slots, trace: Trace)
    requires PlanFits(p) && known.Keys == p.known0.Keys
  {
    forall k {:trigger ItemOk(p, todo, known, active, trace, k)} :: k in p.known0 ==>
      ItemOk(p, todo, known, active, trace, k)
  }

  /** The number of items kept from before the run. */
  function KeptCount(p: Plan): nat {
    |set k | k in p.known0 && Kept(p.known0[k])|
  }

  ghost predicate Counts(p: Plan, todo: set<ItemKey>, active: set<ItemKey>, completed: nat, permanent: bool,
                         trace: Trace)
    requires PlanFits(p)
  {
    && InFlight(trace) == active && Bounded(trace, p.w.width)
    && completed == KeptCount(p) + |Open(p) - active - todo|
    && (permanent <==> AnyPermanent(trace))
  }

  /** Every item stands where its own history says, and the counts agree. */
  ghost predicate Running(p: Plan, todo: set<ItemKey>, known: Items, active: Slots, completed: nat, permanent: bool,
                          trace: Trace)
    requires PlanFits(p)
  {
    && known.Keys == p.known0.Keys && active.Keys <= Open(p)
    && ItemsOk(p, todo, known, active, trace)
    && Counts(p, todo, active.Keys, completed, permanent, trace)
  }

  lemma StaysBounded(trace: Trace, e: Event, width: nat)
    requires Bounded(trace, width) && |InFlight(trace + [e])| <= width
    ensures Bounded(trace + [e], width)
  {
    forall i | 0 <= i <= |trace + [e]| ensures |InFlight((trace + [e])[..i])| <= width {
      if i <= |trace| {
        assert (trace + [e])[..i] == trace[..i];
      } else {
        assert (trace + [e])[..i] == trace + [e];
      }
    }
  }

  lemma OneMoreHistory(trace: Trace, e: Event, k: ItemKey)
    ensures History(trace + [e], k) == History(trace, k) + if e.key == k then [e] else []
  {
    assert (trace + [e])[..|trace|] == trace;
  }

  lemma OtherItemStays(p: Plan, todo: set<ItemKey>, known: Items, active: Slots, trace: Trace, todo': set<ItemKey>,
                       known': Items, active': Slots, e: Event, x: ItemKey)
    requires PlanFits(p) && x in p.known0 && x in known && x in known' && ItemOk(p, todo, known, active, trace, x)
    requires x != e.key
    requires (x in todo <==> x in todo') && known[x] == known'[x] && (x in active <==> x in active')
    requires x in active ==> active[x] == active'[x]
    ensures ItemOk(p, todo', known', active', trace + [e], x)
  {
    OneMoreHistory(trace, e, x);
    assert History(trace + [e], x) == History(trace, x) + [] == History(trace, x);
    if x in active {
      assert active[x] == active'[x];
    }
  }

  ghost predicate OthersOk(p: Plan, todo: set<ItemKey>, known: Items, active: Slots, trace: Trace, k: ItemKey)
    requires PlanFits(p) && known.Keys == p.known0.Keys
  {
    forall x {:trigger ItemOk(p, todo, known, active, trace, x)} ::
      x in p.known0 && x != k ==> ItemOk(p, todo, known, active, trace, x)
  }

  /** An event of one item leaves all others where they stand. */
  lemma OthersStay(p: Plan, todo: set<ItemKey>, known: Items, active: Slots, trace: Trace, todo': set<ItemKey>,
                   known': Items, active': Slots, e: Event)
    requires PlanFits(p) && known.Keys == known'.Keys == p.known0.Keys && OthersOk(p, todo, known, active, trace, e.key)
    requires todo' - {e.key} == todo - {e.key} && known' - {e.key} == known - {e.key}
    requires active' - {e.key} == active - {e.key}
    ensures OthersOk(p, todo', known', active', trace + [e], e.key)
  {
    forall x | x in p.known0 && x != e.key ensures ItemOk(p, todo', known', active', trace + [e], x) {
      assert ItemOk(p, todo, known, active, trace, x);
      assert x in todo <==> x in todo - {e.key};
      assert x in todo' <==> x in todo' - {e.key};
      assert known[x] == (known - {e.key})[x] && known'[x] == (known' - {e.key})[x];
      assert x in active <==> x in active - {e.key};
      assert x in active' <==> x in active' - {e.key};
      assert x in active ==> active[x] == (active - {e.key})[x] && active'[x] == (active' - {e.key})[x];
      OtherItemStays(p, todo, known, active, trace, todo', known', active', e, x);
    }
  }

  lemma AllButOne(p: Plan, todo: set<ItemKey>, known: Items, active: Slots, trace: Trace, k: ItemKey)
    requires PlanFits(p) && known.Keys == p.known0.Keys && k in p.known0
    ensures ItemsOk(p, todo, known, active, trace) <==>
            OthersOk(p, todo, known, active, trace, k) && ItemOk(p, todo, known, active, trace, k)
  {
  }

  /** A key whose item is kept leaves the waiting list. */
  lemma PassOver(p: Plan, todo: set<ItemKey>, known: Items, active: Slots, completed: nat, permanent: bool,
                 trace: Trace, k: ItemKey)
    requires PlanFits(p) && Running(p, todo, known, active, completed, permanent, trace) && k in todo && k !in Open(p)
    ensures Running(p, todo - {k}, known, active, completed, permanent, trace)
  {
    assert Open(p) - active.Keys - (todo - {k}) == Open(p) - active.Keys - todo;
    forall x | x in p.known0 ensures ItemOk(p, todo - {k}, known, active, trace, x) {
      assert ItemOk(p, todo, known, active, trace, x);
    }
  }

  /** The store refuses the first start of an item. */
  lemma RefuseFirst(p: Plan, todo: set<ItemKey>, known: Items, active: Slots, trace: Trace, k: ItemKey)
    requires PlanFits(p) && known.Keys == p.known0.Keys && ItemsOk(p, todo, known, active, trace) && k in todo
    requires k in Open(p)
    requires var n := p.known0[k].number + 1; p.w.answers(k, n).status != RUNNING
    ensures var n := p.known0[k].number + 1;
            ItemsOk(p, todo - {k}, known[k := p.w.answers(k, n)], active, trace + [Refused(k, n)])
  {
    var n := p.known0[k].number + 1;
    var e := Refused(k, n);
    AllButOne(p, todo, known, active, trace, k);
    OneMoreHistory(trace, e, k);
    OthersStay(p, todo, known, active, trace, todo - {k}, known[k := p.w.answers(k, n)], active, e);
    AllButOne(p, todo - {k}, known[k := p.w.answers(k, n)], active, trace + [e], k);
  }

  /** The store admits the first start of an item. */
  lemma StartFirst(p: Plan, todo: set<ItemKey>, known: Items, active: Slots, trace: Trace, k: ItemKey)
    requires PlanFits(p) && known.Keys == p.known0.Keys && ItemsOk(p, todo, known, active, trace) && k in todo
    requires k in Open(p)
    requires var n := p.known0[k].number + 1; p.w.answers(k, n).status == RUNNING
    ensures var n := p.known0[k].number + 1;
            ItemsOk(p, todo - {k}, known, active[k := Slot(n, p.w.retries)], trace + [Started(k, n)])
  {
    var n := p.known0[k].number + 1;
    var e := Started(k, n);
    AllButOne(p, todo, known, active, trace, k);
    OneMoreHistory(trace, e, k);
    OthersStay(p, todo, known, active, trace, todo - {k}, known, active[k := Slot(n, p.w.retries)], e);
    AllButOne(p, todo - {k}, known, active[k := Slot(n, p.w.retries)], trace + [e], k);
  }

  function EndEvent(p: Plan, k: ItemKey, s: Slot): Event {
    Ended(k, s.number, p.w.endings(k, s.number))
  }

  /** An execution ends and is not retried. */
  lemma EndForGood(p: Plan, todo: set<ItemKey>, known: Items, active: Slots, trace: Trace, k: ItemKey)
    requires PlanFits(p) && known.Keys == p.known0.Keys && ItemsOk(p, todo, known, active, trace)
    requires k in active && k in p.known0 && !Retries(p.w.endings(k, active[k].number), active[k].left)
    ensures var s := active[k];
            ItemsOk(p, todo, known[k := ItemRecord(k, s.number, p.w.endings(k, s.number).status, false)],
                    active - {k}, trace + [EndEvent(p, k, s)])
  {
    var s := active[k];
    var record := ItemRecord(k, s.number, p.w.endings(k, s.number).status, false);
    var e := EndEvent(p, k, s);
    AllButOne(p, todo, known, active, trace, k);
    OneMoreHistory(trace, e, k);
    OthersStay(p, todo, known, active, trace, todo, known[k := record], active - {k}, e);
    AllButOne(p, todo, known[k := record], active - {k}, trace + [e], k);
  }

  /** What is left of an item's history when an execution fails with retries left. */
  lemma RetriedTail(w: Work, k: ItemKey, n: nat, left: nat, past: Trace, whole: Trace)
    requires Retries(w.endings(k, n), left) && past + SoloEnd(w, k, n, left) == whole
    ensures w.answers(k, n + 1).status == RUNNING ==>
              && past + [Ended(k, n, w.endings(k, n))] + [Started(k, n + 1)] + SoloEnd(w, k, n + 1, left - 1) == whole
              && FinalEnd(w, k, n, left) == FinalEnd(w, k, n + 1, left - 1)
    ensures w.answers(k, n + 1).status != RUNNING ==>
              && past + [Ended(k, n, w.endings(k, n))] + [Refused(k, n + 1)] == whole
              && FinalEnd(w, k, n, left) == w.answers(k, n + 1)
  {
    var e := Ended(k, n, w.endings(k, n));
    assert SoloEnd(w, k, n, left) == [e] + Solo(w, k, n + 1, left - 1);
  }

  /** The item's own history after two more events. */
  lemma TwoMoreEvents(trace: Trace, a: Event, b: Event, k: ItemKey)
    requires a.key == k && b.key == k
    ensures History(trace + [a] + [b], k) == History(trace, k) + [a] + [b]
  {
    OneMoreHistory(trace, a, k);
    OneMoreHistory(trace + [a], b, k);
  }

  /** Two events of one item leave all others where they stand. */
  lemma OthersStayTwice(p: Plan, todo: set<ItemKey>, known: Items, active: Slots, trace: Trace, known': Items,
                        active': Slots, a: Event, b: Event)
    requires PlanFits(p) && known.Keys == known'.Keys == p.known0.Keys
    requires OthersOk(p, todo, known, active, trace, a.key) && a.key == b.key
    requires known' - {a.key} == known - {a.key} && active' - {a.key} == active - {a.key}
    ensures OthersOk(p, todo, known', active', trace + [a] + [b], a.key)
  {
    OthersStay(p, todo, known, active, trace, todo, known', active', a);
    OthersStay(p, todo, known', active', trace + [a], todo, known', active', b);
  }

  lemma ActiveItemOk(p: Plan, todo: set<ItemKey>, known: Items, active: Slots, trace: Trace, k: ItemKey, n: nat,
                     left: nat)
    requires PlanFits(p) && k in p.known0 && k in known && k in active && active[k] == Slot(n, left)
    requires k in Open(p) && k !in todo
    requires History(trace, k) + SoloEnd(p.w, k, n, left) == Whole(p, k)
    requires FinalEnd(p.w, k, n, left) == FinalOf(p, k)
    ensures ItemOk(p, todo, known, active, trace, k)
  {
  }

  /** An item's history goes on under the next number, and comes to the same whole. */
  lemma RetriedGoesOn(w: Work, k: ItemKey, n: nat, left: nat, trace: Trace, longer: Trace, whole: Trace)
    requires Retries(w.endings(k, n), left) && w.answers(k, n + 1).status == RUNNING
    requires History(trace, k) + SoloEnd(w, k, n, left) == whole
    requires longer == trace + [Ended(k, n, w.endings(k, n))] + [Started(k, n + 1)]
    ensures History(longer, k) + SoloEnd(w, k, n + 1, left - 1) == whole
    ensures FinalEnd(w, k, n, left) == FinalEnd(w, k, n + 1, left - 1)
  {
    RetriedTail(w, k, n, left, History(trace, k), whole);
    TwoMoreEvents(trace, Ended(k, n, w.endings(k, n)), Started(k, n + 1), k);
  }

  lemma RetriedItemOk(p: Plan, todo: set<ItemKey>, known: Items, active: Slots, trace: Trace, k: ItemKey,
                      known': Items, active': Slots)
    requires PlanFits(p) && k in p.known0 && k in known && k in known' && k in active
    requires ItemOk(p, todo, known, active, trace, k)
    requires Retries(p.w.endings(k, active[k].number), active[k].left)
    requires p.w.answers(k, active[k].number + 1).status == RUNNING
    requires k in active' && active'[k] == Slot(active[k].number + 1, active[k].left - 1)
    ensures ItemOk(p, todo, known', active', trace + [EndEvent(p, k, active[k])] + [Started(k, active[k].number + 1)],
                   k)
  {
    var n, left := active[k].number, active[k].left;
    var longer := trace + [EndEvent(p, k, active[k])] + [Started(k, n + 1)];
    RetriedGoesOn(p.w, k, n, left, trace, longer, Whole(p, k));
    ActiveItemOk(p, todo, known', active', longer, k, n + 1, left - 1);
  }

  /** An execution fails and is started again. */
  lemma EndAndRetry(p: Plan, todo: set<ItemKey>, known: Items, active: Slots, trace: Trace, k: ItemKey,
                    record: ItemRecord)
    requires PlanFits(p) && known.Keys == p.known0.Keys && ItemsOk(p, todo, known, active, trace)
    requires k in active && k in p.known0 && Retries(p.w.endings(k, active[k].number), active[k].left)
    requires p.w.answers(k, active[k].number + 1).status == RUNNING
    ensures var s := active[k];
            ItemsOk(p, todo, known[k := record], active[k := Slot(s.number + 1, s.left - 1)],
                    trace + [EndEvent(p, k, s)] + [Started(k, s.number + 1)])
  {
    var s := active[k];
    var e, start := EndEvent(p, k, s), Started(k, s.number + 1);
    var known' := known[k := record];
    var active' := active[k := Slot(s.number + 1, s.left - 1)];
    AllButOne(p, todo, known, active, trace, k);
    RetriedItemOk(p, todo, known, active, trace, k, known', active');
    OthersStayTwice(p, todo, known, active, trace, known', active', e, start);
    AllButOne(p, todo, known', active', trace + [e] + [start], k);
  }

  /** An execution fails and the store refuses to start it again. */
  lemma EndAndRefuse(p: Plan, todo: set<ItemKey>, known: Items, active: Slots, trace: Trace, k: ItemKey)
    requires PlanFits(p) && known.Keys == p.known0.Keys && ItemsOk(p, todo, known, active, trace)
    requires k in active && k in p.known0 && Retries(p.w.endings(k, active[k].number), active[k].left)
    requires p.w.answers(k, active[k].number + 1).status != RUNNING
    ensures var s := active[k];
            ItemsOk(p, todo, known[k := p.w.answers(k, s.number + 1)], active - {k},
                    trace + [EndEvent(p, k, s)] + [Refused(k, s.number + 1)])
  {
    var s := active[k];
    var record := p.w.answers(k, s.number + 1);
    var e, refused := EndEvent(p, k, s), Refused(k, s.number + 1);
    AllButOne(p, todo, known, active, trace, k);
    RetriedTail(p.w, k, s.number, s.left, History(trace, k), Whole(p, k));
    OthersStayTwice(p, todo, known, active, trace, known[k := record], active - {k}, e, refused);
    TwoMoreEvents(trace, e, refused, k);
    AllButOne(p, todo, known[k := record], active - {k}, trace + [e] + [refused], k);
  }

  lemma CountRefusal(p: Plan, todo: set<ItemKey>, active: set<ItemKey>, completed: nat, permanent: bool, trace: Trace,
                     e: Event)
    requires PlanFits(p) && Counts(p, todo, active, completed, permanent, trace) && e.Refused?
    requires e.key in todo && e.key in Open(p) && e.key !in active
    ensures Counts(p, todo - {e.key}, active, completed + 1, permanent, trace + [e])
  {
    assert Open(p) - active - (todo - {e.key}) == (Open(p) - active - todo) + {e.key};
    assert trace[..|trace|] == trace;
    StaysBounded(trace, e, p.w.width);
  }

  lemma CountStart(p: Plan, todo: set<ItemKey>, active: set<ItemKey>, completed: nat, permanent: bool, trace: Trace,
                   e: Event)
    requires PlanFits(p) && Counts(p, todo, active, completed, permanent, trace) && e.Started?
    requires |active + {e.key}| <= p.w.width
    requires e.key in todo && e.key in Open(p) && e.key !in active
    ensures Counts(p, todo - {e.key}, active + {e.key}, completed, permanent, trace + [e])
  {
    assert Open(p) - (active + {e.key}) - (todo - {e.key}) == Open(p) - active - todo;
    StaysBounded(trace, e, p.w.width);
  }

  /** An item in flight ends: the count goes up when nothing of it follows. */
  lemma CountEnd(p: Plan, todo: set<ItemKey>, active: set<ItemKey>, completed: nat, permanent: bool, trace: Trace,
                 e: Event)
    requires PlanFits(p) && Counts(p, todo, active, completed, permanent, trace) && e.Ended?
    requires e.key in active && e.key in Open(p) && e.key !in todo
    ensures Counts(p, todo, active - {e.key}, completed + 1, permanent || Permanent(e.ending), trace + [e])
  {
    assert Open(p) - (active - {e.key}) - todo == (Open(p) - active - todo) + {e.key};
    assert trace[..|trace|] == trace;
    SubsetCardinality(active - {e.key}, active);
    StaysBounded(trace, e, p.w.width);
  }

  /** An ended item is refused its retry. */
  lemma CountNothing(p: Plan, todo: set<ItemKey>, active: set<ItemKey>, completed: nat, permanent: bool, trace: Trace,
                     e: Event)
    requires PlanFits(p) && Counts(p, todo, active, completed, permanent, trace) && e.Refused?
    ensures Counts(p, todo, active, completed, permanent, trace + [e])
  {
    assert trace[..|trace|] == trace;
    StaysBounded(trace, e, p.w.width);
  }

  /** An ended item is started again, in the place it left. */
  lemma CountRestart(p: Plan, todo: set<ItemKey>, active: set<ItemKey>, completed: nat, permanent: bool, trace: Trace,
                     e: Event, start: Event)
    requires PlanFits(p) && Counts(p, todo, active, completed, permanent, trace) && e.Ended? && start.Started?
    requires e.key == start.key
    requires e.key in active && e.key in Open(p) && e.key !in todo
    ensures Counts(p, todo, active, completed, permanent || Permanent(e.ending), trace + [e] + [start])
  {
    assert trace[..|trace|] == trace;
    SubsetCardinality(active - {e.key}, active);
    StaysBounded(trace, e, p.w.width);
    assert active - {e.key} + {e.key} == active;
    StaysBounded(trace + [e], start, p.w.width);
  }

  /** The executions that items in flight may still need. */
  ghost function Budget(active: Slots): nat
    decreases |active|
  {
    if active == map[] then 0
    else
      var k :| k in active;
      active[k].left + 1 + Budget(active - {k})
  }

  lemma {:induction false} BudgetWithout(active: Slots, k: ItemKey)
    requires k in active
    ensures Budget(active) == active[k].left + 1 + Budget(active - {k})
    decreases |active|
  {
    var first: ItemKey :| first in active && Budget(active) == active[first].left + 1 + Budget(active - {first});
    if first != k {
      BudgetWithout(active - {first}, k);
      BudgetWithout(active - {k}, first);
      assert active - {first} - {k} == active - {k} - {first};
    }
  }

  /** An execution in flight that ends, and is started again at most with fewer retries left, uses up budget. */
  lemma BudgetShrinks(active: Slots, k: ItemKey, next: Slot)
    requires k in active
    ensures Budget(active - {k}) < Budget(active)
    ensures next.left < active[k].left ==> Budget(active[k := next]) < Budget(active)
  {
    BudgetWithout(active, k);
    BudgetWithout(active[k := next], k);
    assert active[k := next] - {k} == active - {k};
  }

  lemma KeysMore(active: Slots, k: ItemKey, s: Slot)
    ensures active[k := s].Keys == active.Keys + {k} && |active.Keys + {k}| <= |active| + 1
  {
    assert |active.Keys| == |active|;
  }

  // The steps of the loop, as the whole state sees them.

  lemma WaitingItem(p: Plan, todo: set<ItemKey>, known: Items, active: Slots, completed: nat, permanent: bool,
                    trace: Trace, k: ItemKey)
    requires PlanFits(p) && Running(p, todo, known, active, completed, permanent, trace) && k in todo && k in p.mine
    ensures k !in active && known[k] == p.known0[k]
  {
    assert ItemOk(p, todo, known, active, trace, k);
  }

  lemma ActiveItem(p: Plan, todo: set<ItemKey>, known: Items, active: Slots, completed: nat, permanent: bool,
                   trace: Trace, k: ItemKey)
    requires PlanFits(p) && Running(p, todo, known, active, completed, permanent, trace) && k in active
    ensures k in Open(p) && k !in todo && k in p.known0
  {
    assert ItemOk(p, todo, known, active, trace, k);
  }

  lemma RefusedStep(p: Plan, todo: set<ItemKey>, known: Items, active: Slots, completed: nat, permanent: bool,
                    trace: Trace, k: ItemKey, n: nat, answer: ItemRecord)
    requires PlanFits(p) && Running(p, todo, known, active, completed, permanent, trace) && k in todo && k in Open(p)
    requires n == p.known0[k].number + 1 && answer == p.w.answers(k, n) && answer.status != RUNNING
    ensures Running(p, todo - {k}, known[k := answer], active, completed + 1, permanent, trace + [Refused(k, n)])
  {
    WaitingItem(p, todo, known, active, completed, permanent, trace, k);
    RefuseFirst(p, todo, known, active, trace, k);
    CountRefusal(p, todo, active.Keys, completed, permanent, trace, Refused(k, n));
  }

  lemma StartedStep(p: Plan, todo: set<ItemKey>, known: Items, active: Slots, completed: nat, permanent: bool,
                    trace: Trace, k: ItemKey, n: nat)
    requires PlanFits(p) && Running(p, todo, known, active, completed, permanent, trace) && k in todo && k in Open(p)
    requires n == p.known0[k].number + 1 && p.w.answers(k, n).status == RUNNING && |active| < p.w.width
    ensures Running(p, todo - {k}, known, active[k := Slot(n, p.w.retries)], completed, permanent,
                    trace + [Started(k, n)])
  {
    WaitingItem(p, todo, known, active, completed, permanent, trace, k);
    StartFirst(p, todo, known, active, trace, k);
    KeysMore(active, k, Slot(n, p.w.retries));
    CountStart(p, todo, active.Keys, completed, permanent, trace, Started(k, n));
  }

  lemma EndedStep(p: Plan, todo: set<ItemKey>, known: Items, active: Slots, completed: nat, permanent: bool,
                  trace: Trace, k: ItemKey, e: Event, record: ItemRecord)
    requires PlanFits(p) && Running(p, todo, known, active, completed, permanent, trace) && k in active
    requires e == EndEvent(p, k, active[k]) && !Retries(e.ending, active[k].left)
    requires record == ItemRecord(k, active[k].number, e.ending.status, false)
    ensures Running(p, todo, known[k := record], active - {k}, completed + 1, permanent || Permanent(e.ending),
                    trace + [e])
  {
    ActiveItem(p, todo, known, active, completed, permanent, trace, k);
    EndForGood(p, todo, known, active, trace, k);
    CountEnd(p, todo, active.Keys, completed, permanent, trace, e);
    assert (active - {k}).Keys == active.Keys - {k};
  }

  lemma RetriedStep(p: Plan, todo: set<ItemKey>, known: Items, active: Slots, completed: nat, permanent: bool,
                    trace: Trace, k: ItemKey, e: Event, record: ItemRecord, next: Slot)
    requires PlanFits(p) && Running(p, todo, known, active, completed, permanent, trace) && k in active
    requires e == EndEvent(p, k, active[k]) && Retries(e.ending, active[k].left)
    requires next == Slot(active[k].number + 1, active[k].left - 1)
    requires p.w.answers(k, next.number).status == RUNNING
    ensures Running(p, todo, known[k := record], active[k := next], completed, permanent || Permanent(e.ending),
                    trace + [e] + [Started(k, next.number)])
  {
    ActiveItem(p, todo, known, active, completed, permanent, trace, k);
    EndAndRetry(p, todo, known, active, trace, k, record);
    CountRestart(p, todo, active.Keys, completed, permanent, trace, e, Started(k, next.number));
    assert active[k := next].Keys == active.Keys;
  }

  lemma RetryRefusedStep(p: Plan, todo: set<ItemKey>, known: Items, active: Slots, completed: nat, permanent: bool,
                         trace: Trace, k: ItemKey, e: Event, n: nat, answer: ItemRecord)
    requires PlanFits(p) && Running(p, todo, known, active, completed, permanent, trace) && k in active
    requires e == EndEvent(p, k, active[k]) && Retries(e.ending, active[k].left)
    requires n == active[k].number + 1 && answer == p.w.answers(k, n) && answer.status != RUNNING
    ensures Running(p, todo, known[k := answer], active - {k}, completed + 1, permanent || Permanent(e.ending),
                    trace + [e] + [Refused(k, n)])
  {
    ActiveItem(p, todo, known, active, completed, permanent, trace, k);
    EndAndRefuse(p, todo, known, active, trace, k);
    CountEnd(p, todo, active.Keys, completed, permanent, trace, e);
    assert (active - {k}).Keys == active.Keys - {k};
    CountNothing(p, todo, active.Keys - {k}, completed + 1, permanent || Permanent(e.ending), trace + [e],
                 Refused(k, n));
  }

  /** Take the next key of the work list: pass over a kept item, else ask the store to start it. */
  method TakeNext(p: Plan, k: ItemKey, ghost todo: set<ItemKey>, known: Items, active: Slots, completed: nat,
                  ghost permanent: bool, ghost trace: Trace)
    returns (known': Items, active': Slots, completed': nat, ghost trace': Trace)
    requires PlanFits(p) && Running(p, todo, known, active, completed, permanent, trace)
    requires k in todo && k in p.mine && |active| < p.w.width
    ensures Running(p, todo - {k}, known', active', completed', permanent, trace')
  {
    WaitingItem(p, todo, known, active, completed, permanent, trace, k);
    known', active', completed', trace' := known, active, completed, trace;
    var n := known[k].number + 1;
    var event := p.w.answers(k, n);
    if Kept(known[k]) {
      PassOver(p, todo, known, active, completed, permanent, trace, k);
    } else if event.status != RUNNING {
      RefusedStep(p, todo, known, active, completed, permanent, trace, k, n, event);
      known', completed', trace' := known[k := event], completed + 1, trace + [Refused(k, n)];
    } else {
      StartedStep(p, todo, known, active, completed, permanent, trace, k, n);
      active', trace' := active[k := Slot(n, p.w.retries)], trace + [Started(k, n)];
    }
  }

  /** Ask the store to start a failed item again. */
  method RetryOne(p: Plan, k: ItemKey, e: Event, ghost todo: set<ItemKey>, known: Items, active: Slots,
                  completed: nat, ghost permanent: bool, ghost trace: Trace)
    returns (known': Items, active': Slots, completed': nat, ghost trace': Trace)
    requires PlanFits(p) && Running(p, todo, known, active, completed, permanent, trace) && k in active
    requires e == EndEvent(p, k, active[k]) && Retries(e.ending, active[k].left)
    ensures Running(p, todo, known', active', completed', permanent || Permanent(e.ending), trace')
    ensures active' == active - {k}
            || (k in active' && active' == active[k := active'[k]] && active'[k].left < active[k].left)
  {
    var next := Slot(active[k].number + 1, active[k].left - 1);
    var event := p.w.answers(k, next.number);
    if event.status != RUNNING {
      RetryRefusedStep(p, todo, known, active, completed, permanent, trace, k, e, next.number, event);
      return known[k := event], active - {k}, completed + 1, trace + [e] + [Refused(k, next.number)];
    }
    var record := ItemRecord(k, active[k].number, e.ending.status, false);
    RetriedStep(p, todo, known, active, completed, permanent, trace, k, e, record, next);
    return known[k := record], active[k := next], completed, trace + [e] + [Started(k, next.number)];
  }

  /** Record the end of an execution, and start the item again when it failed with retries left. */
  method EndOne(p: Plan, k: ItemKey, ghost todo: set<ItemKey>, known: Items, active: Slots, completed: nat,
                permanent: bool, ghost trace: Trace)
    returns (known': Items, active': Slots, completed': nat, permanent': bool, ghost trace': Trace)
    requires PlanFits(p) && Running(p, todo, known, active, completed, permanent, trace) && k in active
    ensures Running(p, todo, known', active', completed', permanent', trace')
    ensures active' == active - {k}
            || (k in active' && active' == active[k := active'[k]] && active'[k].left < active[k].left)
  {
    var e := EndEvent(p, k, active[k]);
    permanent' := permanent || Permanent(e.ending);
    if Retries(e.ending, active[k].left) {
      known', active', completed', trace' := RetryOne(p, k, e, todo, known, active, completed, permanent, trace);
    } else {
      var record := ItemRecord(k, active[k].number, e.ending.status, false);
      EndedStep(p, todo, known, active, completed, permanent, trace, k, e, record);
      known', active', completed', trace' := known[k := record], active - {k}, completed + 1, trace + [e];
    }
  }

  lemma StartsRunning(p: Plan)
    requires PlanFits(p)
    ensures Running(p, p.mine, p.known0, map[], KeptCount(p), false, [])
  {
    var none: Slots := map[];
    assert Open(p) - none.Keys - p.mine == {};
    forall k | k in p.known0 ensures ItemOk(p, p.mine, p.known0, none, [], k) {
    }
  }

  /** When nothing waits and nothing is in flight, every item has its whole history. */
  ghost predicate AllEnded(p: Plan, known: Items, trace: Trace)
    requires PlanFits(p) && known.Keys == p.known0.Keys
  {
    forall k {:trigger ItemEnded(p, known, trace, k)} :: k in p.known0 ==> ItemEnded(p, known, trace, k)
  }

  ghost predicate ItemEnded(p: Plan, known: Items, trace: Trace, k: ItemKey)
    requires PlanFits(p) && k in p.known0 && k in known
  {
    && History(trace, k) == (if k in Open(p) then Whole(p, k) else [])
    && known[k] == if k in Open(p) then FinalOf(p, k) else p.known0[k]
  }

  lemma EndsWithAll(p: Plan, known: Items, completed: nat, permanent: bool, trace: Trace)
    requires PlanFits(p) && Running(p, {}, known, map[], completed, permanent, trace)
    ensures AllEnded(p, known, trace) && completed == KeptCount(p) + |Open(p)|
  {
    var none: Slots := map[];
    assert Open(p) - none.Keys - {} == Open(p);
    forall k | k in p.known0 ensures ItemEnded(p, known, trace, k) {
      assert ItemOk(p, {}, known, none, trace, k);
    }
  }

  /** The keys still waiting when the first `i` have been taken. */
  ghost function Waiting(keys: seq<ItemKey>): nat -> set<ItemKey> {
    (i: nat) => if i <= |keys| then Elems(keys[i..]) else {}
  }

  ghost predicate WaitingFits(p: Plan, keys: seq<ItemKey>, waiting: nat -> set<ItemKey>) {
    forall i :: 0 <= i < |keys| ==>
      keys[i] in waiting(i) && keys[i] in p.mine && waiting(i + 1) == waiting(i) - {keys[i]}
  }

  /** Fill the free places from the work list. */
  method Fill(p: Plan, keys: seq<ItemKey>, ghost waiting: nat -> set<ItemKey>, from: nat, known0: Items,
              active0: Slots, completed0: nat, ghost permanent: bool, ghost trace0: Trace)
    returns (next: nat, exhausted: bool, known: Items, active: Slots, completed: nat, ghost trace: Trace)
    requires PlanFits(p) && WaitingFits(p, keys, waiting) && from <= |keys|
    requires Running(p, waiting(from), known0, active0, completed0, permanent, trace0)
    ensures from <= next <= |keys| && Running(p, waiting(next), known, active, completed, permanent, trace)
    ensures exhausted ==> next == |keys|
    ensures !exhausted ==> |active| >= p.w.width
    ensures next == from ==> active == active0
  {
    next, exhausted, known, active, completed, trace := from, false, known0, active0, completed0, trace0;
    while |active| < p.w.width && !exhausted
      invariant from <= next <= |keys| && Running(p, waiting(next), known, active, completed, permanent, trace)
      invariant (exhausted ==> next == |keys|) && (next == from ==> active == active0)
      decreases |keys| - next, !exhausted
    {
      if next == |keys| {
        exhausted := true;
        break;
      }
      known, active, completed, trace := TakeNext(p, keys[next], waiting(next), known, active, completed, permanent,
                                                  trace);
      next := next + 1;
    }
  }

  /** Record the executions that are done, in any order. */
  method EndAll(p: Plan, done0: set<ItemKey>, ghost todo: set<ItemKey>, known0: Items, active0: Slots,
                completed0: nat, permanent0: bool, ghost trace0: Trace)
    returns (known: Items, active: Slots, completed: nat, permanent: bool, ghost trace: Trace)
    requires PlanFits(p) && Running(p, todo, known0, active0, completed0, permanent0, trace0)
    requires done0 <= active0.Keys && done0 != {}
    ensures Running(p, todo, known, active, completed, permanent, trace) && Budget(active) < Budget(active0)
  {
    known, active, completed, permanent, trace := known0, active0, completed0, permanent0, trace0;
    var done := done0;
    while done != {}
      invariant Running(p, todo, known, active, completed, permanent, trace) && done <= active.Keys
      invariant Budget(active) <= Budget(active0) && (done != done0 ==> Budget(active) < Budget(active0))
      decreases |done|
    {
      var k :| k in done;
      done := done - {k};
      ghost var before := active;
      known, active, completed, permanent, trace := EndOne(p, k, todo, known, active, completed, permanent, trace);
      BudgetShrinks(before, k, if k in active then active[k] else before[k]);
    }
  }

  lemma OneLeaves(keys: seq<ItemKey>, i: nat)
    requires Distinct(keys) && i < |keys|
    ensures keys[i] in keys[i..] && Elems(keys[i + 1..]) == Elems(keys[i..]) - {keys[i]}
  {
    var rest := keys[i + 1..];
    assert keys[i..] == [keys[i]] + rest;
    forall x | x in rest ensures x != keys[i] {
      var j :| 0 <= j < |rest| && rest[j] == x;
      assert keys[i] != keys[i + 1 + j];
    }
  }

  lemma WaitingLeaves(keys: seq<ItemKey>)
    requires Distinct(keys)
    ensures forall i :: 0 <= i < |keys| ==>
              && keys[i] in Waiting(keys)(i) && keys[i] in Elems(keys)
              && Waiting(keys)(i + 1) == Waiting(keys)(i) - {keys[i]}
    ensures Waiting(keys)(0) == Elems(keys) && Waiting(keys)(|keys|) == {}
  {
    forall i | 0 <= i < |keys|
      ensures keys[i] in Waiting(keys)(i) && keys[i] in Elems(keys)
      ensures Waiting(keys)(i + 1) == Waiting(keys)(i) - {keys[i]}
    {
      OneLeaves(keys, i);
    }
    assert keys[0..] == keys && keys[|keys|..] == [];
  }

  /** Wait until at least one execution in flight is done. */
  method FirstCompleted(active: Slots) returns (done: set<ItemKey>)
    requires active != map[]
    ensures done <= active.Keys && done != {}
  {
    var some: ItemKey :| some in active;
    assert {some} <= active.Keys && {some} != {};
    done :| done <= active.Keys && done != {};
  }

  /** Keep `width` items in flight until none is left. */
  method Loop(p: Plan, keys: seq<ItemKey>, ghost waiting: nat -> set<ItemKey>)
    returns (permanent: bool, known: Items, completed: nat, ghost trace: Trace)
    requires PlanFits(p) && WaitingFits(p, keys, waiting)
    requires Running(p, waiting(0), p.known0, map[], KeptCount(p), false, [])
    ensures Running(p, waiting(|keys|), known, map[], completed, permanent, trace)
  {
    known, completed, permanent, trace := p.known0, KeptCount(p), false, [];
    var active: Slots := map[];
    var i, exhausted := 0, false;
    while active != map[] || !exhausted
      invariant i <= |keys| && Running(p, waiting(i), known, active, completed, permanent, trace)
      invariant exhausted ==> i == |keys|
      decreases |keys| - i, Budget(active), !exhausted
    {
      i, exhausted, known, active, completed, trace := Fill(p, keys, waiting, i, known, active, completed, permanent,
                                                            trace);
      if active == map[] {
        continue;
      }
      var done := FirstCompleted(active);
      known, active, completed, permanent, trace := EndAll(p, done, waiting(i), known, active, completed, permanent,
                                                           trace);
    }
  }

  /** A chosen item that had not succeeded and was not skipped has a proper history of at most `retries` + 1 executions,
      numbered from where it stood, and its last event's record; any other has no event and its old record. */
  ghost predicate ItemRan(w: Work, keys: seq<ItemKey>, before: ItemRecord, after: ItemRecord, k: ItemKey, h: Trace) {
    if k in keys && before.status != SUCCESS && before.status != SKIPPED then
      && ProperHistory(w, k, before.number + 1, before.number + 1 + w.retries, h)
      && LastRecord(w, k, h, after)
    else h == [] && after == before
  }

  lemma EndedItemRan(w: Work, keys: seq<ItemKey>, p: Plan, known: Items, trace: Trace, k: ItemKey)
    requires PlanFits(p) && p.w == w && p.mine == Elems(keys) && known.Keys == p.known0.Keys && k in p.known0
    requires AllEnded(p, known, trace)
    ensures ItemRan(w, keys, p.known0[k], known[k], k, History(trace, k))
  {
    assert ItemEnded(p, known, trace, k);
    assert k in Elems(keys) <==> k in keys;
    RanAlone(w, keys, p.known0[k], known[k], k, History(trace, k));
  }

  lemma RanAlone(w: Work, keys: seq<ItemKey>, before: ItemRecord, after: ItemRecord, k: ItemKey, h: Trace)
    requires var open := k in keys && !Kept(before);
             && h == (if open then Solo(w, k, before.number + 1, w.retries) else [])
             && after == if open then FinalRecord(w, k, before.number + 1, w.retries) else before
    ensures ItemRan(w, keys, before, after, k, h)
  {
    SoloIsProper(w, k, before.number + 1, w.retries);
  }

  /** Run the chosen items. Whatever order executions end in, every item goes through exactly the events it would go
      through alone, at most `width` are in flight at any moment, and all of them are completed in the end. */
  method Run(w: Work, keys: seq<ItemKey>, known0: Items)
    returns (permanent: bool, known: Items, completed: nat, goal: nat, ghost trace: Trace)
    requires WorkFits(w) && Distinct(keys) && Elems(keys) <= known0.Keys
    ensures var p := Plan(w, known0, Elems(keys)); known.Keys == known0.Keys && AllEnded(p, known, trace)
    ensures Bounded(trace, w.width)
    ensures completed == goal == KeptCount(Plan(w, known0, Elems(keys))) + |Open(Plan(w, known0, Elems(keys)))|
    ensures completed == |set k | k in known0 && known0[k].status in {SUCCESS, SKIPPED}|
                         + |set k | k in keys && known0[k].status !in {SUCCESS, SKIPPED}|
    ensures permanent <==> exists e :: e in trace && e.Ended? && e.ending.status == FAILED && e.ending.permanentError
    ensures forall k :: k in known0 ==> ItemRan(w, keys, known0[k], known[k], k, History(trace, k))
  {
    var p := Plan(w, known0, Elems(keys));
    goal := KeptCount(p) + |Open(p)|;
    assert Open(p) == set k | k in keys && known0[k].status !in {SUCCESS, SKIPPED};
    assert (set k | k in known0 && Kept(known0[k])) == set k | k in known0 && known0[k].status in {SUCCESS, SKIPPED};
    WaitingLeaves(keys);
    StartsRunning(p);
    permanent, known, completed, trace := Loop(p, keys, Waiting(keys));
    EndsWithAll(p, known, completed, permanent, trace);
    forall k | k in known0 ensures ItemRan(w, keys, known0[k], known[k], k, History(trace, k)) {
      EndedItemRan(w, keys, p, known, trace, k);
    }
  }

  /** At most `most` executions, numbered from `first` on, and nothing after an end not worth retrying. */
  ghost predicate Orderly(events: Trace, first: nat, most: nat) {
    && |Starts(events)| <= most
    && (forall j :: 0 <= j < |Starts(events)| ==> Starts(events)[j] == first + j)
    && (forall j :: 0 <= j < |events| - 1 && events[j].Ended? ==>
          events[j].ending.status == FAILED && !events[j].ending.permanentError)
  }

  lemma SoloIsOrderly(w: Work, k: ItemKey, n: nat, left: nat)
    ensures Orderly(Solo(w, k, n, left), n, left + 1)
  {
    var events := Solo(w, k, n, left);
    SoloStarts(w, k, n, left);
    forall j | 0 <= j < |events| - 1 && events[j].Ended?
      ensures events[j].ending.status == FAILED && !events[j].ending.permanentError
    {
      NothingAfterLastEnd(w, k, n, left, j);
    }
  }

  /** What every run keeps of every item: a kept one is never executed, another at most `retries` + 1 times under
      consecutive numbers, and never again after an end that is not a failure worth retrying. */
  lemma EveryItemInARun(p: Plan, known: Items, trace: Trace, k: ItemKey)
    requires PlanFits(p) && known.Keys == p.known0.Keys && AllEnded(p, known, trace) && k in p.known0
    ensures k !in p.mine || Kept(p.known0[k]) ==> History(trace, k) == [] && known[k] == p.known0[k]
    ensures Orderly(History(trace, k), p.known0[k].number + 1, p.w.retries + 1)
  {
    assert ItemEnded(p, known, trace, k);
    var history := History(trace, k);
    SoloIsOrderly(p.w, k, p.known0[k].number + 1, p.w.retries);
    assert history == if k in Open(p) then Whole(p, k) else [];
  }

  /** The workers of a run never need more memory than was admitted for it. */
  lemma MemoryStaysAdmitted(trace: Trace, maxItems: int, parallel: Option<int>, retries: int, memory: int,
                            processes: bool, cpu: int, i: nat)
    requires var width := Options(maxItems, parallel, retries, memory, processes, cpu);
             width.Ok? && Bounded(trace, width.value)
    requires i <= |trace|
    ensures |InFlight(trace[..i])| * (if processes then 64 else 2) <= memory
  {
  }
}
