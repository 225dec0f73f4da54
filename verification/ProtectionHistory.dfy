/** What any history of calls keeps of a protected row: locks, writers, untouched cells and revisions. */
module ProtectionHistory {
  import opened Wrappers
  import opened RowProtections

  function Run(row: Row, calls: seq<Call>): Row {
    if calls == [] then row else After(Run(row, calls[..|calls| - 1]), calls[|calls| - 1])
  }

  predicate NamedBy(call: Call, c: Column) {
    call.Unlock? && (call.columns == [] || c in call.columns)
  }

  predicate IsLocked(row: Row, c: Column) {
    c in row.cells && row.cells[c].locked
  }

  predicate IsTouched(call: Call, c: Column) {
    if call.Change? then c in Columns(call.hashes) || (c == ROW && LocksRow(call)) else NamedBy(call, c)
  }

  /** A deliberate user's write locks: a new value unless the row is being inserted, a value already there when it is
      uploaded, and the row's own entry when the whole row is locked. */
  predicate LocksCell(row: Row, call: Call, c: Column)
    requires call.Change?
  {
    || (c == ROW && LocksRow(call))
    || (c in Columns(call.hashes) && ByUser(call)
        && if HasHash(row.cells, EntryOf(call.hashes, c).value) then call.request.upload.Some? else !call.inserted)
  }

  /** After one call a cell is locked exactly when it was and is not released, or the call locks it. */
  lemma LockedExactlyWhen(row: Row, call: Call, c: Column)
    ensures IsLocked(After(row, call), c) <==>
              if call.Change? then IsLocked(row, c) || LocksCell(row, call, c)
              else IsLocked(row, c) && !NamedBy(call, c)
  {
  }

  lemma CellAfter(row: Row, call: Call, c: Column)
    ensures c in row.cells ==> c in After(row, call).cells
    ensures !IsTouched(call, c) ==> CellOf(After(row, call).cells, c) == CellOf(row.cells, c)
    ensures c in row.cells && c != ROW && After(row, call).cells[c].writer != row.cells[c].writer ==>
              After(row, call).cells[c].hash != row.cells[c].hash
    ensures c in After(row, call).cells ==>
              || CellOf(row.cells, c) == Some(After(row, call).cells[c])
              || After(row, call).cells[c].touch.revision == After(row, call).revision == row.revision + 1
    ensures row.revision <= After(row, call).revision
  {
  }

  /** A locked cell becomes unlocked only through an unlocking call that names it or names no columns. */
  lemma {:induction false} LockLostOnlyByRelease(row: Row, calls: seq<Call>, c: Column) returns (i: nat)
    requires IsLocked(row, c) && !IsLocked(Run(row, calls), c)
    ensures i < |calls| && NamedBy(calls[i], c)
    ensures IsLocked(Run(row, calls[..i]), c) && !IsLocked(Run(row, calls[..i + 1]), c)
  {
    var n := |calls| - 1;
    assert calls[..n + 1] == calls;
    if IsLocked(Run(row, calls[..n]), c) {
      LockedExactlyWhen(Run(row, calls[..n]), calls[n], c);
      i := n;
    } else {
      i := LockLostOnlyByRelease(row, calls[..n], c);
      assert calls[..n][..i] == calls[..i] && calls[..n][..i + 1] == calls[..i + 1];
    }
  }

  lemma {:induction false} CellsStay(row: Row, calls: seq<Call>, c: Column)
    requires c in row.cells
    ensures c in Run(row, calls).cells
  {
    if calls != [] {
      CellsStay(row, calls[..|calls| - 1], c);
      CellAfter(Run(row, calls[..|calls| - 1]), calls[|calls| - 1], c);
    }
  }

  function HashAfter(row: Row, calls: seq<Call>, c: Column, i: nat): Option<string>
    requires i <= |calls|
  {
    var cells := Run(row, calls[..i]).cells;
    if c in cells then cells[c].hash else None
  }

  /** A business cell's writer changes over a history only when some call of it changes the cell's value hash. */
  lemma {:induction false} WriterChangesWithValue(row: Row, calls: seq<Call>, c: Column) returns (i: nat)
    requires c in row.cells && c != ROW && c in Run(row, calls).cells
    requires Run(row, calls).cells[c].writer != row.cells[c].writer
    ensures i < |calls| && HashAfter(row, calls, c, i) != HashAfter(row, calls, c, i + 1)
  {
    var n := |calls| - 1;
    CellsStay(row, calls[..n], c);
    assert calls[..n + 1] == calls;
    if Run(row, calls).cells[c].writer != Run(row, calls[..n]).cells[c].writer {
      CellAfter(Run(row, calls[..n]), calls[n], c);
      i := n;
    } else {
      i := WriterChangesWithValue(row, calls[..n], c);
      assert calls[..n][..i] == calls[..i] && calls[..n][..i + 1] == calls[..i + 1];
    }
  }

  /** A cell that no call touches is as it was, or still absent. */
  lemma {:induction false} UntouchedStays(row: Row, calls: seq<Call>, c: Column)
    requires forall i :: 0 <= i < |calls| ==> !IsTouched(calls[i], c)
    ensures CellOf(Run(row, calls).cells, c) == CellOf(row.cells, c)
  {
    if calls != [] {
      UntouchedStays(row, calls[..|calls| - 1], c);
      CellAfter(Run(row, calls[..|calls| - 1]), calls[|calls| - 1], c);
    }
  }

  /** No cell is newer than its row. */
  ghost predicate RevisionsBounded(row: Row) {
    forall c :: c in row.cells ==> row.cells[c].touch.revision <= row.revision
  }

  /** The row's revision never decreases and bounds every cell's, and a cell that differs is newer than the row was. */
  lemma {:induction false} RevisionsOrderTouches(row: Row, calls: seq<Call>)
    ensures row.revision <= Run(row, calls).revision
    ensures RevisionsBounded(row) ==> RevisionsBounded(Run(row, calls))
    ensures forall c :: c in Run(row, calls).cells ==>
              || CellOf(row.cells, c) == Some(Run(row, calls).cells[c])
              || row.revision < Run(row, calls).cells[c].touch.revision
  {
    if calls != [] {
      var front := Run(row, calls[..|calls| - 1]);
      RevisionsOrderTouches(row, calls[..|calls| - 1]);
      forall c | c in Run(row, calls).cells
        ensures || CellOf(row.cells, c) == Some(Run(row, calls).cells[c])
                || row.revision < Run(row, calls).cells[c].touch.revision
        ensures RevisionsBounded(row) ==> Run(row, calls).cells[c].touch.revision <= Run(row, calls).revision
      {
        CellAfter(front, calls[|calls| - 1], c);
      }
    }
  }
}
