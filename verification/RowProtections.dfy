/** The locks and writers kept beside the cells of one protected row. */
module RowProtections {
  import opened Wrappers

  type Column = string

  /** The row's own entry, beside its columns. */
  const ROW: Column := "*"

  datatype ActorKind = User | Service

  datatype Actor = Actor(name: string, kind: ActorKind)

  datatype Request = Request(actor: Actor, reason: string, id: string, now: nat, upload: Option<nat>)

  /** Who touched a cell last, and under which revision of the row. */
  datatype Touch = Touch(actor: Actor, at: nat, reason: string, request: string, revision: int)

  datatype Cell = Cell(hash: Option<string>, locked: bool, writer: Actor, touch: Touch)

  datatype Entry = Entry(column: Column, hash: string)

  type Cells = map<Column, Cell>

  datatype Row = Row(cells: Cells, revision: int)

  function TouchBy(r: Request, revision: int): Touch {
    Touch(r.actor, r.now, r.reason, r.id, revision)
  }

  /** How one call changes a row. */
  datatype Call =
    | Change(hashes: seq<Entry>, request: Request, inserted: bool, rowLock: bool, locked: bool)
    | Unlock(columns: seq<Column>, request: Request)

  predicate ByUser(call: Call)
    requires call.Change?
  {
    call.request.actor.kind == User && call.locked
  }

  predicate LocksRow(call: Call)
    requires call.Change?
  {
    ByUser(call) && (call.inserted || call.rowLock)
  }

  /** A cell whose written value has the hash it already had keeps its writer; only a user's upload locks it. */
  function SameValue(cell: Cell, call: Call, revision: int): Cell
    requires call.Change?
  {
    if call.request.upload.Some? && ByUser(call)
    then cell.(locked := true, touch := TouchBy(call.request, revision))
    else cell
  }

  function NewValue(was: Option<Cell>, hash: string, call: Call, revision: int): Cell
    requires call.Change?
  {
    Cell(Some(hash), (was.Some? && was.value.locked) || (ByUser(call) && !call.inserted), call.request.actor,
         TouchBy(call.request, revision))
  }

  function CellOf(cells: Cells, c: Column): Option<Cell> {
    if c in cells then Some(cells[c]) else None
  }

  predicate HasHash(cells: Cells, e: Entry) {
    e.column in cells && cells[e.column].hash == Some(e.hash)
  }

  function Written(cells: Cells, e: Entry, call: Call, revision: int): Cell
    requires call.Change?
  {
    if HasHash(cells, e) then SameValue(cells[e.column], call, revision)
    else NewValue(CellOf(cells, e.column), e.hash, call, revision)
  }

  function RowCell(call: Call, revision: int): Cell
    requires call.Change?
  {
    Cell(None, true, call.request.actor, TouchBy(call.request, revision))
  }

  ghost predicate ColumnsDiffer(hashes: seq<Entry>) {
    forall i, j :: 0 <= i < j < |hashes| ==> hashes[i].column != hashes[j].column
  }

  function Columns(hashes: seq<Entry>): set<Column> {
    set e | e in hashes :: e.column
  }

  /** The entry of a column; columns are written once each. */
  function EntryOf(hashes: seq<Entry>, c: Column): (e: Option<Entry>)
    ensures e.Some? <==> c in Columns(hashes)
    ensures e.Some? ==> e.value in hashes && e.value.column == c
  {
    if hashes == [] then None
    else if hashes[|hashes| - 1].column == c then Some(hashes[|hashes| - 1])
    else
      assert forall e :: e in hashes ==> e in hashes[..|hashes| - 1] || e == hashes[|hashes| - 1];
      EntryOf(hashes[..|hashes| - 1], c)
  }

  /** The cells after the entries of `hashes`, cell by cell. */
  function WrittenCells(cells: Cells, hashes: seq<Entry>, call: Call, revision: int): Cells
    requires call.Change?
  {
    map c | c in cells.Keys + Columns(hashes) ::
      var e := EntryOf(hashes, c);
      if e.Some? then Written(cells, e.value, call, revision) else cells[c]
  }

  /** A call releases the locked cells it names, or all of them when it names none. */
  predicate Releases(cells: Cells, call: Call, c: Column)
    requires call.Unlock?
  {
    c in cells && cells[c].locked && (call.columns == [] || c in call.columns)
  }

  function Released(cells: Cells, call: Call): set<Column>
    requires call.Unlock?
  {
    set c | c in cells && Releases(cells, call, c)
  }

  function UnlockedCell(cell: Cell, call: Call, revision: int): Cell
    requires call.Unlock?
  {
    cell.(locked := false, touch := TouchBy(call.request, revision))
  }

  /** The row a call leaves, cell by cell. */
  function After(row: Row, call: Call): Row {
    var cells := row.cells;
    if call.Change? then
      var revision := row.revision + 1;
      var written := WrittenCells(cells, call.hashes, call, revision);
      Row(if LocksRow(call) then written[ROW := RowCell(call, revision)] else written, revision)
    else
      var released := Released(cells, call);
      var revision := if released == {} then row.revision else row.revision + 1;
      Row(map c | c in cells :: if c in released then UnlockedCell(cells[c], call, revision) else cells[c], revision)
  }

  lemma ChangeIs(row: Row, call: Call, written: Cells, cells: Cells)
    requires call.Change? && written == WrittenCells(row.cells, call.hashes, call, row.revision + 1)
    requires cells == if LocksRow(call) then written[ROW := RowCell(call, row.revision + 1)] else written
    ensures After(row, call) == Row(cells, row.revision + 1)
  {
  }

  // What a call does, field by field.

  /** The touch that the call's request leaves. */
  ghost predicate TouchedBy(touch: Touch, r: Request, revision: int) {
    && touch.actor == r.actor && touch.at == r.now && touch.reason == r.reason && touch.request == r.id
    && touch.revision == revision
  }

  /** The cell held the written value's hash: writer and hash stay, and only a user's upload locks and touches it. */
  ghost predicate KeptValue(was: Cell, now: Cell, r: Request, locked: bool, revision: int) {
    && now.hash == was.hash && now.writer == was.writer
    && if r.actor.kind == User && locked && r.upload != None then now.locked && TouchedBy(now.touch, r, revision)
       else now.locked == was.locked && now.touch == was.touch
  }

  /** A new value: its writer is the one who asks, and a lock stays or comes with a deliberate user's write to a row
      that was there. */
  ghost predicate NewCell(was: Option<Cell>, now: Cell, hash: string, r: Request, inserted: bool, locked: bool,
                          revision: int) {
    && now.hash == Some(hash) && now.writer == r.actor && TouchedBy(now.touch, r, revision)
    && (now.locked <==> (was.Some? && was.value.locked) || (r.actor.kind == User && locked && !inserted))
  }

  /** What a written column holds. */
  ghost predicate WrittenEntry(before: Cells, after: Cells, e: Entry, r: Request, inserted: bool, locked: bool,
                               revision: int) {
    e.column in after
    && if e.column in before && before[e.column].hash == Some(e.hash)
       then KeptValue(before[e.column], after[e.column], r, locked, revision)
       else NewCell(if e.column in before then Some(before[e.column]) else None, after[e.column], e.hash, r, inserted,
                    locked, revision)
  }

  /** The row after `changed`: each written column as above, the row's own entry locked by a user who inserts the row or
      asks for it, every other cell as it was. */
  ghost predicate ChangedRow(before: Row, after: Row, hashes: seq<Entry>, r: Request, inserted: bool, rowLock: bool,
                             locked: bool) {
    var lock := r.actor.kind == User && locked && (inserted || rowLock);
    && after.revision == before.revision + 1
    && (forall e :: e in hashes && !(lock && e.column == "*") ==>
          WrittenEntry(before.cells, after.cells, e, r, inserted, locked, after.revision))
    && (lock ==> "*" in after.cells && after.cells["*"].hash == None && after.cells["*"].locked
                 && after.cells["*"].writer == r.actor && TouchedBy(after.cells["*"].touch, r, after.revision))
    && (forall c :: (forall e :: e in hashes ==> e.column != c) && !(lock && c == "*") ==>
          (c in after.cells <==> c in before.cells) && (c in before.cells ==> after.cells[c] == before.cells[c]))
  }

  /** The row after `unlocked`: the locked cells named, or all when none is, are released with writer and hash kept. */
  ghost predicate UnlockedRow(before: Row, after: Row, columns: seq<Column>, r: Request) {
    var some := exists c :: c in before.cells && before.cells[c].locked && (columns == [] || c in columns);
    && after.cells.Keys == before.cells.Keys
    && after.revision == before.revision + (if some then 1 else 0)
    && forall c :: c in before.cells ==>
         if before.cells[c].locked && (columns == [] || c in columns)
         then
           && !after.cells[c].locked && after.cells[c].writer == before.cells[c].writer
           && after.cells[c].hash == before.cells[c].hash && TouchedBy(after.cells[c].touch, r, before.revision + 1)
         else after.cells[c] == before.cells[c]
  }

  lemma EntryIsOne(hashes: seq<Entry>, e: Entry)
    requires ColumnsDiffer(hashes) && e in hashes
    ensures EntryOf(hashes, e.column) == Some(e)
  {
  }

  lemma EntryIsWritten(cells: Cells, e: Entry, call: Call, revision: int)
    requires call.Change? && ColumnsDiffer(call.hashes) && e in call.hashes
    ensures WrittenEntry(cells, WrittenCells(cells, call.hashes, call, revision), e, call.request, call.inserted,
                         call.locked, revision)
  {
    EntryIsOne(call.hashes, e);
    WrittenIs(cells, e, call, revision, WrittenCells(cells, call.hashes, call, revision)[e.column]);
  }

  lemma WrittenIs(cells: Cells, e: Entry, call: Call, revision: int, cell: Cell)
    requires call.Change? && cell == Written(cells, e, call, revision)
    ensures if e.column in cells && cells[e.column].hash == Some(e.hash)
            then KeptValue(cells[e.column], cell, call.request, call.locked, revision)
            else NewCell(if e.column in cells then Some(cells[e.column]) else None, cell, e.hash, call.request,
                         call.inserted, call.locked, revision)
  {
  }

  lemma OtherIsKept(cells: Cells, hashes: seq<Entry>, c: Column, call: Call, revision: int)
    requires call.Change? && forall e :: e in hashes ==> e.column != c
    ensures var written := WrittenCells(cells, hashes, call, revision);
            (c in written <==> c in cells) && (c in cells ==> written[c] == cells[c])
  {
    assert c !in Columns(hashes);
  }

  /** What `changed` does to a row, field by field. */
  lemma AfterChange(row: Row, hashes: seq<Entry>, r: Request, inserted: bool, rowLock: bool, locked: bool)
    requires ColumnsDiffer(hashes)
    ensures ChangedRow(row, After(row, Change(hashes, r, inserted, rowLock, locked)), hashes, r, inserted, rowLock,
                       locked)
  {
    var call := Change(hashes, r, inserted, rowLock, locked);
    var written := WrittenCells(row.cells, hashes, call, row.revision + 1);
    var cells := if LocksRow(call) then written[ROW := RowCell(call, row.revision + 1)] else written;
    ChangeIs(row, call, written, cells);
    forall e | e in hashes && !(LocksRow(call) && e.column == "*")
      ensures WrittenEntry(row.cells, cells, e, r, inserted, locked, row.revision + 1)
    {
      EntryIsWritten(row.cells, e, call, row.revision + 1);
      assert cells[e.column] == written[e.column];
    }
    forall c | (forall e :: e in hashes ==> e.column != c) && !(LocksRow(call) && c == "*")
      ensures (c in cells <==> c in row.cells) && (c in row.cells ==> cells[c] == row.cells[c])
    {
      OtherIsKept(row.cells, hashes, c, call, row.revision + 1);
    }
  }

  /** What `unlocked` does to a row, cell by cell. */
  lemma AfterUnlock(row: Row, columns: seq<Column>, r: Request)
    ensures UnlockedRow(row, After(row, Unlock(columns, r)), columns, r)
  {
    var released := Released(row.cells, Unlock(columns, r));
    if c :| c in row.cells && row.cells[c].locked && (columns == [] || c in columns) {
      assert c in released;
    }
  }

  /** The columns that `changed` returns are those whose value hash is new. */
  lemma {:induction false} NewHashesAre(cells: Cells, hashes: seq<Entry>)
    ensures forall c :: c in NewHashes(cells, hashes) <==>
              exists e :: e in hashes && e.column == c && !(c in cells && cells[c].hash == Some(e.hash))
  {
    if hashes != [] {
      var front, last := hashes[..|hashes| - 1], hashes[|hashes| - 1];
      assert hashes == front + [last];
      NewHashesAre(cells, front);
      forall c | c in NewHashes(cells, hashes)
        ensures exists e :: e in hashes && e.column == c && !(c in cells && cells[c].hash == Some(e.hash))
      {
        if c !in NewHashes(cells, front) {
          assert last in hashes && last.column == c;
        }
      }
    }
  }

  /** The columns whose value hash a call changes, in the order they were written. */
  function NewHashes(cells: Cells, hashes: seq<Entry>): seq<Column> {
    if hashes == [] then []
    else
      var last := hashes[|hashes| - 1];
      NewHashes(cells, hashes[..|hashes| - 1]) + if HasHash(cells, last) then [] else [last.column]
  }

  class RowProtection {
    var cells: Cells
    var revision: int

    ghost function State(): Row
      reads this
    {
      Row(cells, revision)
    }

    constructor (cells: Cells, revision: int)
      ensures State() == Row(cells, revision)
    {
      this.cells, this.revision := cells, revision;
    }

    /** Write one column: a value it already had keeps its writer, and its lock unless a user uploads it. */
    method WriteEntry(e: Entry, request: Request, inserted: bool, locked: bool, ghost call: Call)
      returns (changed: bool)
      requires call.Change? && call.request == request && call.inserted == inserted && call.locked == locked
      modifies this`cells
      ensures changed <==> !HasHash(old(cells), e)
      ensures cells == old(cells)[e.column := Written(old(cells), e, call, revision)]
    {
      changed := !HasHash(cells, e);
      if !changed {
        if request.upload.Some? && request.actor.kind == User && locked {
          cells := cells[e.column := cells[e.column].(locked := true, touch := TouchBy(request, revision))];
        }
        return;
      }
      var kept := e.column in cells && cells[e.column].locked;
      cells := cells[e.column := Cell(Some(e.hash), kept || (request.actor.kind == User && !inserted && locked),
                                      request.actor, TouchBy(request, revision))];
    }

    method WriteAll(hashes: seq<Entry>, request: Request, inserted: bool, locked: bool, ghost call: Call)
      returns (changes: seq<Column>)
      requires ColumnsDiffer(hashes) && call.Change? && call.request == request && call.inserted == inserted
      requires call.locked == locked
      modifies this`cells
      ensures cells == WrittenCells(old(cells), hashes, call, revision)
      ensures changes == NewHashes(old(cells), hashes)
    {
      ghost var before := cells;
      changes := [];
      for i := 0 to |hashes|
        invariant changes == NewHashes(before, hashes[..i])
        invariant cells == WrittenCells(before, hashes[..i], call, revision)
      {
        var e := hashes[i];
        OneMoreHash(before, hashes, i);
        OneMoreCell(before, hashes, i, call, revision);
        ghost var written := cells;
        var changed := WriteEntry(e, request, inserted, locked, call);
        assert cells == written[e.column := Written(before, e, call, revision)];
        if changed {
          changes := changes + [e.column];
        }
      }
      assert hashes[..|hashes|] == hashes;
    }

    /** The row's own entry: locked, by the one who asked. */
    method LockRow(request: Request, ghost call: Call)
      requires call.Change? && call.request == request
      modifies this`cells
      ensures cells == old(cells)[ROW := RowCell(call, revision)]
    {
      cells := cells[ROW := Cell(None, true, request.actor, TouchBy(request, revision))];
    }

    /** Record the written hashes: writers change with values, and every other cell keeps its owner. */
    method Changed(hashes: seq<Entry>, request: Request, inserted: bool, rowLock: bool, locked: bool)
      returns (changes: seq<Column>)
      requires ColumnsDiffer(hashes)
      modifies this
      ensures State() == After(old(State()), Change(hashes, request, inserted, rowLock, locked))
      ensures changes == NewHashes(old(cells), hashes)
    {
      ghost var call, row := Change(hashes, request, inserted, rowLock, locked), Row(cells, revision);
      revision := revision + 1;
      changes := WriteAll(hashes, request, inserted, locked, call);
      ghost var written := cells;
      if request.actor.kind == User && locked && (inserted || rowLock) {
        LockRow(request, call);
      }
      ChangeIs(row, call, written, cells);
    }

    /** Release the locked cells that are named, or all of them, and say which. */
    method Unlocked(columns: seq<Column>, request: Request) returns (names: set<Column>)
      modifies this
      ensures State() == After(old(State()), Unlock(columns, request))
      ensures names == Released(old(cells), Unlock(columns, request))
    {
      ghost var before := cells;
      ghost var call := Unlock(columns, request);
      names := set c | c in cells && cells[c].locked && (columns == [] || c in columns);
      if names != {} {
        revision := revision + 1;
      }
      var left := names;
      while left != {}
        invariant left <= names && cells.Keys == before.Keys && revision == old(revision) + if names == {} then 0 else 1
        invariant forall c :: c in before ==>
                    cells[c] == if c in names && c !in left then UnlockedCell(before[c], call, revision) else before[c]
      {
        var c :| c in left;
        left := left - {c};
        cells := cells[c := cells[c].(locked := false, touch := TouchBy(request, revision))];
      }
      assert cells == After(old(State()), call).cells;
    }
  }

  lemma WrittenMore(cells: Cells, front: seq<Entry>, e: Entry, call: Call, revision: int)
    requires call.Change? && e.column !in Columns(front)
    ensures WrittenCells(cells, front + [e], call, revision)
            == WrittenCells(cells, front, call, revision)[e.column := Written(cells, e, call, revision)]
  {
    var more, fewer := WrittenCells(cells, front + [e], call, revision), WrittenCells(cells, front, call, revision);
    assert more.Keys == fewer.Keys + {e.column};
    forall c | c in more ensures more[c] == fewer[e.column := Written(cells, e, call, revision)][c] {
    }
  }

  /** Writing one column of several leaves it to the columns before it. */
  lemma OneMoreCell(cells: Cells, hashes: seq<Entry>, i: nat, call: Call, revision: int)
    requires ColumnsDiffer(hashes) && i < |hashes| && call.Change?
    ensures var e, written := hashes[i], WrittenCells(cells, hashes[..i], call, revision);
            && (HasHash(written, e) <==> HasHash(cells, e))
            && Written(written, e, call, revision) == Written(cells, e, call, revision)
            && WrittenCells(cells, hashes[..i + 1], call,
                            revision) == written[e.column := Written(cells, e, call, revision)]
  {
    var e, front := hashes[i], hashes[..i];
    forall x | x in front ensures x.column != e.column {
      var k :| 0 <= k < i && hashes[k] == x;
    }
    assert hashes[..i + 1] == front + [e];
    WrittenMore(cells, front, e, call, revision);
  }

  lemma OneMoreHash(cells: Cells, hashes: seq<Entry>, i: nat)
    requires i < |hashes|
    ensures NewHashes(cells, hashes[..i + 1])
            == if HasHash(cells, hashes[i]) then NewHashes(cells, hashes[..i])
               else NewHashes(cells, hashes[..i]) + [hashes[i].column]
  {
    assert hashes[..i + 1][..i] == hashes[..i];
    assert NewHashes(cells, hashes[..i]) + [] == NewHashes(cells, hashes[..i]);
  }
}
