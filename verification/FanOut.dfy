/** A fan-out's admitted width, the items it works on and what each item's executions look like on their own. */
module FanOut {
  import opened Wrappers
  import opened Collections

  const THREAD_CEILING: nat := 256
  const DEFAULT_PARALLEL: nat := 16
  const THREAD_MEMORY_MB: nat := 2
  const PROCESS_MEMORY_MB: nat := 64

  datatype Refusal = BadMaxItems | BadRetries | BadWidth | TooManyItems | NewItemsInRerun

  function WorkerMemory(processes: bool): nat {
    if processes then PROCESS_MEMORY_MB else THREAD_MEMORY_MB
  }

  /** At most 256 workers, of 64 MB each as processes or 2 MB as threads, and no more processes than processors. */
  predicate WidthFits(width: int, memory: int, processes: bool, cpu: int) {
    1 <= width <= 256 && width * (if processes then 64 else 2) <= memory && (processes ==> width <= cpu)
  }

  /** The number of items in flight at once. `cpu` counts whole processors. */
  function Options(maxItems: int, parallel: Option<int>, retries: int, memory: int, processes: bool,
                   cpu: int): (r: Result<nat, Refusal>)
    ensures r.Ok? <==>
            maxItems >= 0 && retries >= 0 && WidthFits(if parallel.Some? then parallel.value else 1, memory,
                                                       processes, cpu)
    ensures r.Ok? ==> WidthFits(r.value, memory, processes, cpu)
    ensures r.Ok? && parallel.Some? ==> r.value == parallel.value
    ensures r.Ok? && parallel.None? ==>
              r.value <= 16 && forall wider :: r.value < wider <= 16 ==> !WidthFits(wider, memory, processes, cpu)
  {
    if maxItems < 0 then Err(BadMaxItems)
    else if retries < 0 then Err(BadRetries)
    else
      var fitting := memory / WorkerMemory(processes);
      var threads := if fitting < THREAD_CEILING then fitting else THREAD_CEILING;
      var bound := if processes && cpu < threads then cpu else threads;
      var default := if bound < DEFAULT_PARALLEL then bound else DEFAULT_PARALLEL;
      var width := if parallel.Some? then parallel.value else default;
      if 1 <= width <= bound then Ok(width) else Err(BadWidth)
  }

  // Items.

  type ItemKey = string

  datatype Status = QUEUED | RUNNING | SUCCESS | FAILED | SKIPPED | CANCEL_REQUESTED | CANCELLED

  datatype ItemRecord = ItemRecord(key: ItemKey, number: nat, status: Status, error: bool)

  predicate Kept(r: ItemRecord) {
    r.status == SUCCESS || r.status == SKIPPED
  }

  /** How an execution ends: the recorded status, and whether the error was a permanent one. */
  datatype Ending = Ending(status: Status, permanentError: bool)

  /** The item store and the item function as the loop meets them: the answer to each start, the end of each
      execution. */
  datatype Work = Work(answers: (ItemKey, nat) -> ItemRecord, endings: (ItemKey, nat) -> Ending, retries: nat,
                       width: nat)

  /** The store starts an item under the number it was given, and records how it ended. */
  ghost predicate WorkFits(w: Work) {
    && w.width >= 1
    && (forall k, n :: w.answers(k, n).status == RUNNING ==> w.answers(k, n) == ItemRecord(k, n, RUNNING, false))
    && (forall k, n :: w.endings(k, n).status in {SUCCESS, FAILED, CANCELLED})
  }

  datatype Event = Started(key: ItemKey, number: nat) | Refused(key: ItemKey, number: nat) | Ended(key: ItemKey,
      number: nat, ending: Ending)

  predicate Permanent(e: Ending) {
    e.status == FAILED && e.permanentError
  }

  predicate Retries(e: Ending, left: nat) {
    e.status == FAILED && !e.permanentError && left > 0
  }

  /** What one item's executions look like when it is the only item: from its start under number `n`, with `left`
      retries left. */
  function Solo(w: Work, k: ItemKey, n: nat, left: nat): seq<Event>
    decreases left, 1
  {
    if w.answers(k, n).status != RUNNING then [Refused(k, n)] else [Started(k, n)] + SoloEnd(w, k, n, left)
  }

  function SoloEnd(w: Work, k: ItemKey, n: nat, left: nat): seq<Event>
    decreases left, 0
  {
    var e := w.endings(k, n);
    [Ended(k, n, e)] + if Retries(e, left) then Solo(w, k, n + 1, left - 1) else []
  }

  /** The item's record in the end. */
  function FinalRecord(w: Work, k: ItemKey, n: nat, left: nat): ItemRecord
    decreases left, 1
  {
    if w.answers(k, n).status != RUNNING then w.answers(k, n) else FinalEnd(w, k, n, left)
  }

  function FinalEnd(w: Work, k: ItemKey, n: nat, left: nat): ItemRecord
    decreases left, 0
  {
    var e := w.endings(k, n);
    if Retries(e, left) then FinalRecord(w, k, n + 1, left - 1) else ItemRecord(k, n, e.status, false)
  }

  function Starts(events: seq<Event>): seq<nat> {
    if events == [] then []
    else (if events[0].Started? then [events[0].number] else []) + Starts(events[1..])
  }

  lemma StartAndEnd(start: Event, end: Event, tail: seq<Event>)
    requires start.Started? && end.Ended?
    ensures Starts([start] + ([end] + tail)) == [start.number] + Starts(tail)
  {
    assert ([end] + tail)[1..] == tail;
    assert ([start] + ([end] + tail))[1..] == [end] + tail;
  }

  /** An item is executed at most once more than its retries, under consecutive numbers. */
  lemma {:induction false} SoloStarts(w: Work, k: ItemKey, n: nat, left: nat)
    ensures |Starts(Solo(w, k, n, left))| <= left + 1
    ensures forall j :: 0 <= j < |Starts(Solo(w, k, n, left))| ==> Starts(Solo(w, k, n, left))[j] == n + j
    decreases left
  {
    var e := w.endings(k, n);
    if w.answers(k, n).status == RUNNING {
      var tail := if Retries(e, left) then Solo(w, k, n + 1, left - 1) else [];
      if Retries(e, left) {
        SoloStarts(w, k, n + 1, left - 1);
      }
      StartAndEnd(Started(k, n), Ended(k, n, e), tail);
      assert Solo(w, k, n, left) == [Started(k, n)] + ([Ended(k, n, e)] + tail);
    }
  }

  /** An execution that ends any other way than in a failure worth retrying is the item's last event. */
  lemma {:induction false} NothingAfterLastEnd(w: Work, k: ItemKey, n: nat, left: nat, j: nat)
    requires j + 1 < |Solo(w, k, n, left)| && Solo(w, k, n, left)[j].Ended?
    ensures Solo(w, k, n, left)[j].ending.status == FAILED && !Solo(w, k, n, left)[j].ending.permanentError
    decreases left
  {
    var e := w.endings(k, n);
    if w.answers(k, n).status == RUNNING && Retries(e, left) && j >= 2 {
      NothingAfterLastEnd(w, k, n + 1, left - 1, j - 2);
    }
  }

  /** One event of an item whose executions may be numbered up to `last`: a start has its answer RUNNING and is followed
      by its end; a refusal has another answer and ends the history; an end is followed by the next number when it is
      a failure, not for good, and that number is still allowed, and by nothing otherwise. */
  ghost predicate EventIsProper(w: Work, k: ItemKey, last: nat, h: seq<Event>, j: nat)
    requires j < |h|
  {
    match h[j]
    case Started(key, n) =>
      key == k && w.answers(k, n).status == RUNNING && j + 1 < |h| && h[j + 1] == Ended(k, n, w.endings(k, n))
    case Refused(key, n) =>
      key == k && w.answers(k, n).status != RUNNING && j + 1 == |h|
    case Ended(key, n, ending) =>
      key == k && j > 0
      && if ending.status == FAILED && !ending.permanentError && n < last
         then j + 1 < |h| && (h[j + 1] == Started(k, n + 1) || h[j + 1] == Refused(k, n + 1))
         else j + 1 == |h|
  }

  /** A whole history, from the start or refusal numbered `first`. */
  ghost predicate ProperHistory(w: Work, k: ItemKey, first: nat, last: nat, h: seq<Event>) {
    && h != [] && !h[0].Ended? && h[0].number == first
    && forall j :: 0 <= j < |h| ==> EventIsProper(w, k, last, h, j)
  }

  /** The record of the last event: the status an execution ended with, or the store's refusal. */
  ghost predicate LastRecord(w: Work, k: ItemKey, h: seq<Event>, record: ItemRecord) {
    h != []
    && match h[|h| - 1]
       case Started(_, _) => false
       case Refused(_, n) => record == w.answers(k, n)
       case Ended(_, n, ending) => record == ItemRecord(k, n, ending.status, false)
  }

  lemma ShiftedIsProper(w: Work, k: ItemKey, last: nat, tail: seq<Event>, h: seq<Event>, a: Event, b: Event, j: nat)
    requires h == [a] + ([b] + tail) && 2 <= j < |h| && EventIsProper(w, k, last, tail, j - 2)
    ensures EventIsProper(w, k, last, h, j)
  {
    assert h[j] == tail[j - 2] && (j + 1 < |h| ==> h[j + 1] == tail[j - 1]);
  }

  /** Alone, an item with `left` retries goes through a proper history, and its record is that of the last event. */
  lemma {:induction false} SoloIsProper(w: Work, k: ItemKey, n: nat, left: nat)
    ensures ProperHistory(w, k, n, n + left, Solo(w, k, n, left))
    ensures LastRecord(w, k, Solo(w, k, n, left), FinalRecord(w, k, n, left))
    decreases left
  {
    var h, e, last := Solo(w, k, n, left), w.endings(k, n), n + left;
    if w.answers(k, n).status == RUNNING {
      var tail := if Retries(e, left) then Solo(w, k, n + 1, left - 1) else [];
      assert SoloEnd(w, k, n, left) == [Ended(k, n, e)] + tail;
      assert h == [Started(k, n)] + ([Ended(k, n, e)] + tail);
      if Retries(e, left) {
        SoloIsProper(w, k, n + 1, left - 1);
        assert h[2] == tail[0] && h[|h| - 1] == tail[|tail| - 1];
        forall j | 2 <= j < |h| ensures EventIsProper(w, k, last, h, j) {
          assert EventIsProper(w, k, n + 1 + (left - 1), tail, j - 2);
          ShiftedIsProper(w, k, last, tail, h, Started(k, n), Ended(k, n, e), j);
        }
      }
      assert EventIsProper(w, k, last, h, 0) && EventIsProper(w, k, last, h, 1);
    }
  }

  // Binding a work list to what earlier attempts recorded.

  function Keys(records: seq<ItemRecord>): seq<ItemKey> {
    seq(|records|, (j: nat) requires j < |records| => records[j].key)
  }

  /** The entries of `keys` not in `seen`, in order. */
  function NewKeys(keys: seq<ItemKey>, seen: set<ItemKey>): seq<ItemKey> {
    if keys == [] then []
    else (if keys[0] in seen then [] else [keys[0]]) + NewKeys(keys[1..], seen)
  }

  /** Marked to run again: queued with the error that it ended with. */
  predicate Marked(r: ItemRecord) {
    r.status == QUEUED && r.error
  }

  function Prepared(was: Option<ItemRecord>, key: ItemKey): ItemRecord {
    if was.None? then ItemRecord(key, 0, QUEUED, false)
    else if Kept(was.value) then was.value.(status := SKIPPED)
    else was.value
  }

  function RecordOf(records: seq<ItemRecord>, key: ItemKey): Option<ItemRecord> {
    if records == [] then None
    else if records[0].key == key then Some(records[0])
    else RecordOf(records[1..], key)
  }

  lemma PrependDistinct(k: ItemKey, rest: seq<ItemKey>)
    ensures Distinct(rest) && k !in rest ==> Distinct([k] + rest)
    ensures [] + rest == rest
  {
  }

  lemma {:induction false} NewKeysAre(keys: seq<ItemKey>, seen: set<ItemKey>)
    ensures forall k :: k in NewKeys(keys, seen) <==> k in keys && k !in seen
    ensures Distinct(keys) ==> Distinct(NewKeys(keys, seen))
  {
    if keys != [] {
      NewKeysAre(keys[1..], seen);
      PrependDistinct(keys[0], NewKeys(keys[1..], seen));
    }
  }

  function Joined(batches: seq<seq<ItemKey>>): seq<ItemKey> {
    if batches == [] then [] else Joined(batches[..|batches| - 1]) + batches[|batches| - 1]
  }

  datatype WorkList = WorkList(keys: seq<ItemKey>, known: map<ItemKey, ItemRecord>, selected: set<ItemKey>,
                               batches: seq<seq<ItemKey>>)

  const BATCH: nat := 1000

  /** Batches of 1000, the last perhaps shorter, none empty. */
  ghost predicate BatchesFit(batches: seq<seq<ItemKey>>) {
    && (forall j :: 0 <= j < |batches| ==> 1 <= |batches[j]| <= 1000)
    && (forall j :: 0 <= j < |batches| - 1 ==> |batches[j]| == 1000)
  }

  /** The batches in which a work list is registered. */
  method Batches(all: seq<ItemKey>) returns (batches: seq<seq<ItemKey>>)
    ensures Joined(batches) == all && BatchesFit(batches)
  {
    batches := [];
    var first := 0;
    while first < |all|
      invariant first <= |all| && Joined(batches) == all[..first]
      invariant BatchesFit(batches)
      invariant first < |all| ==> forall b :: b in batches ==> |b| == 1000
    {
      var end := if first + BATCH < |all| then first + BATCH else |all|;
      assert all[..end] == all[..first] + all[first..end];
      assert (batches + [all[first..end]])[..|batches|] == batches;
      batches := batches + [all[first..end]];
      first := end;
    }
    assert all[..|all|] == all;
  }

  method KnownRecords(all: seq<ItemKey>, records: seq<ItemRecord>) returns (known: map<ItemKey, ItemRecord>)
    ensures known.Keys == Elems(all)
    ensures forall k :: k in known ==> known[k] == Prepared(RecordOf(records, k), k)
  {
    known := map[];
    for i := 0 to |all|
      invariant known.Keys == Elems(all[..i])
      invariant forall k :: k in known ==> known[k] == Prepared(RecordOf(records, k), k)
    {
      assert all[..i + 1] == all[..i] + [all[i]];
      known := known[all[i] := Prepared(RecordOf(records, all[i]), all[i])];
    }
    assert all[..|all|] == all;
  }

  /** The keys of the records marked to run again. */
  function MarkedKeys(records: seq<ItemRecord>): set<ItemKey> {
    var marked := set x | x in records && Marked(x);
    set x | x in marked :: x.key
  }

  lemma JoinDistinct(a: seq<ItemKey>, b: seq<ItemKey>)
    requires Distinct(a) && Distinct(b) && forall k :: k in b ==> k !in Elems(a)
    ensures Distinct(a + b)
  {
    forall i, j | 0 <= i < j < |a + b| ensures (a + b)[i] != (a + b)[j] {
      if i < |a| <= j {
        assert a[i] in a && b[j - |a|] in b;
      }
    }
  }

  ghost predicate IsRecorded(records: seq<ItemRecord>, key: ItemKey) {
    exists r :: r in records && r.key == key
  }

  /** Too many items, recorded and new ones together; or new ones although some item is marked to run again. */
  ghost predicate Refuses(keys: seq<ItemKey>, records: seq<ItemRecord>, maxItems: nat) {
    var added := set k | k in keys && !IsRecorded(records, k);
    || |records| + |added| > maxItems
    || (added != {} && exists r :: r in records && r.status == QUEUED && r.error)
  }

  /** The work list holds the recorded items in their order, then the new keys in theirs; a succeeded or skipped item is
      known as SKIPPED, any other recorded one as it was recorded, a new one as QUEUED; marked are those queued with an
      error. */
  ghost predicate BoundToRecords(keys: seq<ItemKey>, records: seq<ItemRecord>, list: WorkList) {
    && |list.keys| == |records| + |set k | k in keys && !IsRecorded(records, k)|
    && (forall j :: 0 <= j < |records| ==> list.keys[j] == records[j].key)
    && (forall k :: k in list.keys[|records|..] <==> k in keys && !IsRecorded(records, k))
    && (forall i, j :: 0 <= i < j < |keys| && !IsRecorded(records, keys[i]) && !IsRecorded(records, keys[j]) ==>
          ComesBefore(list.keys, keys[i], keys[j]))
    && list.known.Keys == Elems(list.keys)
    && (forall r :: r in records ==>
          r.key in list.known
          && list.known[r.key] == if r.status == SUCCESS || r.status == SKIPPED then r.(status := SKIPPED) else r)
    && (forall k :: k in keys && !IsRecorded(records, k) ==>
          k in list.known && list.known[k] == ItemRecord(k, 0, QUEUED, false))
    && (forall k :: k in list.selected <==> exists r :: r in records && r.key == k && r.status == QUEUED && r.error)
  }

  ghost predicate ComesBefore(keys: seq<ItemKey>, a: ItemKey, b: ItemKey) {
    exists p, q :: 0 <= p < q < |keys| && keys[p] == a && keys[q] == b
  }

  lemma {:induction false} NewKeysInOrder(keys: seq<ItemKey>, seen: set<ItemKey>, i: nat, j: nat)
    requires i < j < |keys| && keys[i] !in seen && keys[j] !in seen
    ensures ComesBefore(NewKeys(keys, seen), keys[i], keys[j])
  {
    var rest := NewKeys(keys[1..], seen);
    NewKeysAre(keys[1..], seen);
    if i == 0 {
      assert keys[j] == keys[1..][j - 1] && keys[j] in rest;
      var q :| 0 <= q < |rest| && rest[q] == keys[j];
      assert ([keys[0]] + rest)[0] == keys[0] && ([keys[0]] + rest)[q + 1] == keys[j];
    } else {
      NewKeysInOrder(keys[1..], seen, i - 1, j - 1);
      var p, q :| 0 <= p < q < |rest| && rest[p] == keys[i] && rest[q] == keys[j];
      var front := if keys[0] in seen then [] else [keys[0]];
      assert (front + rest)[|front| + p] == keys[i] && (front + rest)[|front| + q] == keys[j];
    }
  }

  lemma RecordedIs(records: seq<ItemRecord>, k: ItemKey)
    ensures k in Elems(Keys(records)) <==> IsRecorded(records, k)
  {
    if r :| r in records && r.key == k {
      var j :| 0 <= j < |records| && records[j] == r;
      assert Keys(records)[j] == k;
    }
  }

  lemma {:induction false} RecordOfIs(records: seq<ItemRecord>, r: ItemRecord)
    requires Distinct(Keys(records)) && r in records
    ensures RecordOf(records, r.key) == Some(r)
  {
    if records[0] != r {
      var j :| 0 <= j < |records| && records[j] == r;
      assert Keys(records)[0] != Keys(records)[j];
      assert Keys(records[1..]) == Keys(records)[1..];
      RecordOfIs(records[1..], r);
    }
  }

  lemma {:induction false} NoRecordOf(records: seq<ItemRecord>, k: ItemKey)
    requires !IsRecorded(records, k)
    ensures RecordOf(records, k) == None
  {
    if records != [] {
      assert records[0] in records;
      NoRecordOf(records[1..], k);
    }
  }

  lemma AddedAre(keys: seq<ItemKey>, records: seq<ItemRecord>, added: seq<ItemKey>)
    requires Distinct(keys) && added == NewKeys(keys, Elems(Keys(records)))
    ensures Elems(added) == set k | k in keys && !IsRecorded(records, k)
    ensures |added| == |set k | k in keys && !IsRecorded(records, k)|
    ensures forall i, j :: 0 <= i < j < |keys| && !IsRecorded(records, keys[i]) && !IsRecorded(records, keys[j]) ==>
              ComesBefore(added, keys[i], keys[j])
  {
    var seen := Elems(Keys(records));
    NewKeysAre(keys, seen);
    forall k | k in keys ensures k in seen <==> IsRecorded(records, k) {
      RecordedIs(records, k);
    }
    DistinctCardinality(added);
    forall i, j | 0 <= i < j < |keys| && !IsRecorded(records, keys[i]) && !IsRecorded(records, keys[j])
      ensures ComesBefore(added, keys[i], keys[j])
    {
      RecordedIs(records, keys[i]);
      RecordedIs(records, keys[j]);
      NewKeysInOrder(keys, seen, i, j);
    }
  }

  lemma MarkedAre(records: seq<ItemRecord>, k: ItemKey)
    ensures k in MarkedKeys(records) <==> exists r :: r in records && r.key == k && r.status == QUEUED && r.error
  {
    var marked := set x | x in records && Marked(x);
    if r :| r in records && r.key == k && r.status == QUEUED && r.error {
      assert r in marked;
    }
  }

  lemma StillBefore(front: seq<ItemKey>, added: seq<ItemKey>, a: ItemKey, b: ItemKey)
    requires ComesBefore(added, a, b)
    ensures ComesBefore(front + added, a, b)
  {
    var p, q :| 0 <= p < q < |added| && added[p] == a && added[q] == b;
    assert (front + added)[|front| + p] == a && (front + added)[|front| + q] == b;
  }

  /** The list that `PrepareWork` returns is bound to the records. */
  lemma ListIsBound(keys: seq<ItemKey>, records: seq<ItemRecord>, list: WorkList)
    requires Distinct(keys) && Distinct(Keys(records))
    requires list.keys == Keys(records) + NewKeys(keys, Elems(Keys(records)))
    requires list.known.Keys == Elems(list.keys) && list.selected == MarkedKeys(records)
    requires forall k :: k in list.known ==> list.known[k] == Prepared(RecordOf(records, k), k)
    ensures BoundToRecords(keys, records, list)
  {
    var added := NewKeys(keys, Elems(Keys(records)));
    AddedAre(keys, records, added);
    assert list.keys[|records|..] == added;
    assert forall k :: k in Elems(added) <==> k in added;
    forall i, j | 0 <= i < j < |keys| && !IsRecorded(records, keys[i]) && !IsRecorded(records, keys[j])
      ensures ComesBefore(list.keys, keys[i], keys[j])
    {
      StillBefore(Keys(records), added, keys[i], keys[j]);
    }
    forall r | r in records
      ensures r.key in list.known
      ensures list.known[r.key] == if r.status == SUCCESS || r.status == SKIPPED then r.(status := SKIPPED) else r
    {
      RecordOfIs(records, r);
      RecordedIs(records, r.key);
      assert r.key in Keys(records) && r.key in Elems(list.keys);
    }
    forall k | k in keys && !IsRecorded(records, k)
      ensures k in list.known && list.known[k] == ItemRecord(k, 0, QUEUED, false)
    {
      NoRecordOf(records, k);
      assert k in added && k in Elems(list.keys);
    }
    forall k ensures k in list.selected <==> exists r :: r in records && r.key == k && r.status == QUEUED && r.error {
      MarkedAre(records, k);
    }
  }

  lemma RefusedWhen(keys: seq<ItemKey>, records: seq<ItemRecord>, maxItems: nat)
    requires Distinct(keys)
    ensures var added := NewKeys(keys, Elems(Keys(records)));
            |records| + |added| > maxItems || (added != [] && MarkedKeys(records) != {})
            <==> Refuses(keys, records, maxItems)
  {
    var added := NewKeys(keys, Elems(Keys(records)));
    AddedAre(keys, records, added);
    assert added == [] <==> Elems(added) == {} by {
      if added != [] {
        assert added[0] in Elems(added);
      }
    }
    if r :| r in records && r.status == QUEUED && r.error {
      MarkedAre(records, r.key);
    }
    if k :| k in MarkedKeys(records) {
      MarkedAre(records, k);
    }
  }

  /** Every recorded item and then the newly discovered ones, as one bounded list. Marked items are the only ones to
      run again, and then nothing new may be discovered. */
  method PrepareWork(keys: seq<ItemKey>, records: seq<ItemRecord>, maxItems: nat) returns (r: Result<WorkList, Refusal>)
    requires Distinct(keys) && Distinct(Keys(records))
    ensures var added := NewKeys(keys, Elems(Keys(records)));
            r.Err? <==> |records| + |added| > maxItems || (added != [] && MarkedKeys(records) != {})
    ensures r.Err? ==>
            r.error == if |records| + |NewKeys(keys,
                                               Elems(Keys(records)))| > maxItems then TooManyItems else NewItemsInRerun
    ensures r.Ok? ==>
              && r.value.keys == Keys(records) + NewKeys(keys, Elems(Keys(records))) && Distinct(r.value.keys)
              && r.value.known.Keys == Elems(r.value.keys)
              && (forall k :: k in r.value.known ==> r.value.known[k] == Prepared(RecordOf(records, k), k))
              && r.value.selected == MarkedKeys(records)
              && Joined(r.value.batches) == r.value.keys && BatchesFit(r.value.batches)
    ensures r.Err? <==> Refuses(keys, records, maxItems)
    ensures r.Ok? ==> BoundToRecords(keys, records, r.value)
  {
    var recorded := Keys(records);
    var added := NewKeys(keys, Elems(recorded));
    var all := recorded + added;
    NewKeysAre(keys, Elems(recorded));
    RefusedWhen(keys, records, maxItems);
    if |all| > maxItems {
      return Err(TooManyItems);
    }
    JoinDistinct(recorded, added);
    var selected := MarkedKeys(records);
    if selected != {} && added != [] {
      return Err(NewItemsInRerun);
    }
    var batches := Batches(all);
    var known := KnownRecords(all, records);
    ListIsBound(keys, records, WorkList(all, known, selected, batches));
    return Ok(WorkList(all, known, selected, batches));
  }

  /** The items of one attempt: the marked ones, or all when none is marked. */
  function Chosen(list: WorkList, keys: seq<ItemKey>): seq<ItemKey> {
    if keys == [] then []
    else (if list.selected == {} || keys[0] in list.selected then [keys[0]] else []) + Chosen(list, keys[1..])
  }

  lemma {:induction false} ChosenAre(list: WorkList, keys: seq<ItemKey>)
    ensures forall k :: k in Chosen(list, keys) <==> k in keys && (list.selected == {} || k in list.selected)
    ensures Distinct(keys) ==> Distinct(Chosen(list, keys))
  {
    if keys != [] {
      ChosenAre(list, keys[1..]);
      PrependDistinct(keys[0], Chosen(list, keys[1..]));
    }
  }
}
