/**
  Local transactions with triggers on: what any run of inserts, updates and deletes leaves in
  the HLC columns, and why a cursor scan after each burst of writes loses none of them.
 */
module LocalRuns {
  import opened Wrappers
  import opened HlcText
  import opened Store
  import opened Triggers
  import Grouping
  import opened Scanner

  /** One local statement under its transaction's HLC. Inserting an existing row fails, and
      updating or deleting an absent one affects no row. */
  datatype Op =
    | Insert(table: Name, pk: Pk, cells: map<Name, Value>, hlc: Hlc)
    | Update(table: Name, pk: Pk, cells: map<Name, Value>, hlc: Hlc)
    | Delete(table: Name, pk: Pk, logId: Name, hlc: Hlc)

  function Exec(db: Db, op: Op): Db {
    match (op, RowAt(db, op.table, op.pk))
    case (Insert(t, pk, cells, hlc), None) => InsertStmt(db, t, pk, Row(cells, map[], Some(hlc)))
    case (Update(t, pk, cells, hlc), Some(row)) =>
      UpdateStmt(db, t, pk, row, Row(row.cells + cells, row.hlcs, Some(hlc)))
    case (Delete(t, pk, logId, hlc), Some(_)) =>
      DeleteStmt(db, t, {pk}, map[[Text(logId)] := LogRow(db, t, pk, hlc)])
    case _ => db
  }

  function ExecAll(db: Db, ops: seq<Op>): Db {
    if ops == [] then db else Exec(ExecAll(db, ops[..|ops| - 1]), ops[|ops| - 1])
  }

  /** The rows the INSERT and UPDATE triggers leave behind. */
  function InsertedRow(tracked: set<Name>, op: Op): Row
    requires op.Insert?
  {
    Row(op.cells, if KeyHasNull(op.pk) then map[] else Stamps(tracked, op.hlc), Some(op.hlc))
  }

  function UpdatedRow(tracked: set<Name>, op: Op, row: Row): Row
    requires op.Update?
  {
    var after := Row(row.cells + op.cells, row.hlcs, Some(op.hlc));
    if KeyHasNull(op.pk) then after
    else after.(hlcs := row.hlcs + Stamps(ChangedColumns(tracked, row, after), op.hlc))
  }

  /** One row after a statement. */
  function RowAfter(db: Db, op: Op, table: Name, pk: Pk): Option<Row> {
    var target := RowAt(db, op.table, op.pk);
    if table == op.table && pk == op.pk then
      match (op, target)
      case (Insert(_, _, _, _), None) => Some(InsertedRow(Tracked(db, table), op))
      case (Update(_, _, _, _), Some(row)) => Some(UpdatedRow(Tracked(db, table), op, row))
      case (Delete(_, _, _, _), Some(_)) => None
      case _ => target
    else if op.Delete? && target.Some? && op.table != DELETED_ROWS_TABLE
            && table == DELETED_ROWS_TABLE && pk == [Text(op.logId)] then
      Some(LogRow(db, op.table, op.pk, op.hlc))
    else RowAt(db, table, pk)
  }

  lemma {:induction false} ExecRow(db: Db, op: Op, table: Name, pk: Pk)
    requires db.triggersOn
    ensures RowAt(Exec(db, op), table, pk) == RowAfter(db, op, table, pk)
  {
    hide Tracked;
    hide ChangedColumns;
    match op
    case Insert(_, _, _, _) =>
    case Update(_, _, _, _) =>
    case Delete(_, _, _, _) => ExecDeleteRow(db, op, table, pk);
  }

  lemma {:induction false} ExecDeleteRow(db: Db, op: Op, table: Name, pk: Pk)
    requires db.triggersOn && op.Delete?
    ensures RowAt(Exec(db, op), table, pk) == RowAfter(db, op, table, pk)
  {
    hide LogRow;
  }

  /** One scanned cell under a statement: as before, gone or unstamped, updated but unstampable
      because of a NULL key, or written and stamped by the statement. */
  lemma {:induction false} StatementCell(db: Db, op: Op, table: Name, pk: Pk, c: Name)
    requires db.triggersOn && c in DataColumns(SchemaOf(db, table))
    ensures var before, after := CellAt(db, table, pk, c), CellAt(Exec(db, op), table, pk, c);
            || after == before || after.hlc == ""
            || (&& KeyHasNull(pk) && op.Update? && op.table == table && op.pk == pk && RowExists(db, table, pk)
                && c in op.cells && after == Cell(op.cells[c], before.hlc))
            || (&& !KeyHasNull(pk) && after.hlc == op.hlc
                && RowExists(Exec(db, op), table, pk) && RowAt(Exec(db, op), table, pk) != RowAt(db, table, pk)
                && (!RowExists(db, table, pk) || op.Delete? || before.value != after.value))
  {
    ExecRow(db, op, table, pk);
    TrackedIsScanned(SchemaOf(db, table));
    assert c in Tracked(db, table);
    hide Exec;
  }

  lemma {:induction false} ExecFrame(db: Db, op: Op)
    ensures Exec(db, op).schemas == db.schemas && Exec(db, op).triggersOn == db.triggersOn
  {
  }

  // ---------------------------------------------------------------------------------------
  // Reference: replaying values alone
  // ---------------------------------------------------------------------------------------

  /** The row's values after `ops`, without any HLC in sight. */
  function Content(ops: seq<Op>, table: Name, pk: Pk): Option<map<Name, Value>> {
    if ops == [] then None
    else
      var n := |ops| - 1;
      var op, before := ops[n], Content(ops[..n], table, pk);
      if op.table != table || op.pk != pk then before
      else match (op, before)
        case (Insert(_, _, cells, _), None) => Some(cells)
        case (Update(_, _, cells, _), Some(held)) => Some(held + cells)
        case (Delete(_, _, _, _), _) => None
        case _ => before
  }

  /** The HLC of the last statement that created the row or changed this column's value. */
  function LastWrite(ops: seq<Op>, table: Name, pk: Pk, column: Name): Hlc {
    if ops == [] then ""
    else
      var n := |ops| - 1;
      var op, before := ops[n], Content(ops[..n], table, pk);
      var after := Content(ops, table, pk);
      if op.table == table && op.pk == pk && after.Some?
         && (before.None? || ValueIn(before.value, column) != ValueIn(after.value, column))
      then op.hlc
      else LastWrite(ops[..n], table, pk, column)
  }

  /** The HLC of the last statement that created or updated the row. */
  function LastTouch(ops: seq<Op>, table: Name, pk: Pk): Hlc {
    if ops == [] then ""
    else
      var n := |ops| - 1;
      var op, before := ops[n], Content(ops[..n], table, pk);
      if op.table == table && op.pk == pk && ((op.Insert? && before.None?) || (op.Update? && before.Some?))
      then op.hlc
      else LastTouch(ops[..n], table, pk)
  }

  // ---------------------------------------------------------------------------------------
  // The row invariant
  // ---------------------------------------------------------------------------------------

  ghost predicate Ordered(ops: seq<Op>) {
    forall i, j :: 0 <= i < j < |ops| ==> Rank(ops[i].hlc) <= Rank(ops[j].hlc)
  }

  ghost predicate NoRows(db: Db) {
    forall table, pk :: !RowExists(db, table, pk)
  }

  lemma {:induction false} ExecAllFrame(db: Db, ops: seq<Op>)
    ensures ExecAll(db, ops).schemas == db.schemas && ExecAll(db, ops).triggersOn == db.triggersOn
  {
    if ops != [] {
      ExecAllFrame(db, ops[..|ops| - 1]);
      ExecFrame(ExecAll(db, ops[..|ops| - 1]), ops[|ops| - 1]);
    }
  }

  /** What one row should look like, according to the reference. */
  ghost predicate RowFollows(tracked: set<Name>, ops: seq<Op>, table: Name, pk: Pk, row: Option<Row>) {
    match Content(ops, table, pk)
    case None => row.None?
    case Some(cells) =>
      && row.Some? && row.value.cells == cells && row.value.rowHlc == Some(LastTouch(ops, table, pk))
      && (if KeyHasNull(pk) then row.value.hlcs == map[]
          else && row.value.hlcs.Keys == tracked
               && forall c :: c in tracked ==> row.value.hlcs[c] == LastWrite(ops, table, pk, c))
  }

  /** After any run of local statements a row's HLC map has exactly the tracked columns, each
      entry is the HLC of the last statement that changed that column, and the row HLC that of
      the last statement that touched the row. Rows with a NULL key keep an empty map: the
      trigger's own WHERE never finds them. */
  lemma {:induction false} LocalRunRow(db: Db, ops: seq<Op>, table: Name, pk: Pk)
    requires NoRows(db) && db.triggersOn && table != DELETED_ROWS_TABLE
    ensures RowFollows(Tracked(db, table), ops, table, pk, RowAt(ExecAll(db, ops), table, pk))
  {
    if ops != [] {
      var n := |ops| - 1;
      var before := ExecAll(db, ops[..n]);
      LocalRunRow(db, ops[..n], table, pk);
      ExecAllFrame(db, ops[..n]);
      ExecRow(before, ops[n], table, pk);
      assert Tracked(before, table) == Tracked(db, table);
      RowFollowsStep(Tracked(db, table), before, ops, table, pk);
    }
  }

  lemma {:induction false} RowFollowsStep(tracked: set<Name>, before: Db, ops: seq<Op>, table: Name, pk: Pk)
    requires ops != [] && table != DELETED_ROWS_TABLE && tracked == Tracked(before, table)
    requires RowFollows(tracked, ops[..|ops| - 1], table, pk, RowAt(before, table, pk))
    ensures RowFollows(tracked, ops, table, pk, RowAfter(before, ops[|ops| - 1], table, pk))
  {
    hide Exec;
    var op := ops[|ops| - 1];
    if op.table == table && op.pk == pk {
      match op
      case Insert(_, _, _, _) =>
      case Update(_, _, _, _) =>
      case Delete(_, _, _, _) =>
    }
  }

  lemma {:induction false} WritesAreOld(ops: seq<Op>, table: Name, pk: Pk, column: Name)
    requires Ordered(ops)
    ensures Rank(LastWrite(ops, table, pk, column)) <= Rank(LastTouch(ops, table, pk))
    ensures ops != [] ==> Rank(LastTouch(ops, table, pk)) <= Rank(ops[|ops| - 1].hlc)
  {
    EmptyIsOldest();
    if ops != [] {
      var n := |ops| - 1;
      WritesAreOld(ops[..n], table, pk, column);
      if n > 0 {
        assert Rank(ops[n - 1].hlc) <= Rank(ops[n].hlc);
      }
    }
  }

  /** With non-decreasing transaction HLCs the row HLC dominates every column. */
  lemma {:induction false} LocalRunDominates(db: Db, ops: seq<Op>, table: Name, pk: Pk)
    requires NoRows(db) && db.triggersOn && table != DELETED_ROWS_TABLE && Ordered(ops)
    requires RowExists(ExecAll(db, ops), table, pk)
    ensures Dominated(SchemaOf(db, table), TableOf(ExecAll(db, ops), table)[pk])
    ensures !KeyHasNull(pk) ==>
      TableOf(ExecAll(db, ops), table)[pk].hlcs.Keys == set c | c in DataColumns(SchemaOf(db, table))
  {
    LocalRunRow(db, ops, table, pk);
    TrackedIsScanned(SchemaOf(db, table));
    forall c | c in Tracked(db, table)
      ensures Rank(LastWrite(ops, table, pk, c)) <= Rank(LastTouch(ops, table, pk))
    {
      WritesAreOld(ops, table, pk, c);
    }
    assert Tracked(db, table) == set c | c in DataColumns(SchemaOf(db, table));
  }

  /** A statement that creates a row or changes a scanned value leaves its table marked dirty, so
      the next push looks at it. */
  lemma {:induction false} WrittenTablesAreDirty(db: Db, op: Op, table: Name, pk: Pk, c: Name)
    requires db.triggersOn && c in DataColumns(SchemaOf(db, table)) && RowExists(Exec(db, op), table, pk)
    requires !RowExists(db, table, pk)
             || CellAt(Exec(db, op), table, pk, c).value != CellAt(db, table, pk, c).value
    ensures table in Exec(db, op).dirty
  {
    TrackedIsScanned(SchemaOf(db, table));
    assert c in Tracked(db, table);
    ExecRow(db, op, table, pk);
    match op
    case Insert(_, _, _, _) =>
    case Delete(_, _, _, _) =>
    case Update(_, _, _, _) =>
      var before, after := RowAt(db, table, pk).value, RowAt(Exec(db, op), table, pk).value;
      assert c in ChangedColumns(Tracked(db, table), before, Row(before.cells + op.cells, before.hlcs, Some(op.hlc)));
  }

  /** And only such a table: an insert or a changed scanned value marks its own table, a delete the
      delete log. */
  lemma {:induction false} OnlyWrittenTablesAreDirty(db: Db, op: Op, table: Name)
    requires table in Exec(db, op).dirty && table !in db.dirty
    ensures db.triggersOn
    ensures if op.Delete? then table == DELETED_ROWS_TABLE != op.table && RowExists(db, op.table, op.pk)
            else table == op.table
                 && (|| !RowExists(db, table, op.pk)
                     || exists c :: c in DataColumns(SchemaOf(db, table))
                                    && CellAt(Exec(db, op), table, op.pk, c).value != CellAt(db, table, op.pk, c).value)
  {
    TrackedIsScanned(SchemaOf(db, op.table));
    if op.Update? {
      var row := RowAt(db, op.table, op.pk).value;
      var after := Row(row.cells + op.cells, row.hlcs, Some(op.hlc));
      var c :| c in ChangedColumns(Tracked(db, op.table), row, after);
      ExecRow(db, op, op.table, op.pk);
      assert CellAt(Exec(db, op), op.table, op.pk, c).value == ValueIn(after.cells, c);
    }
  }

  // ---------------------------------------------------------------------------------------
  // Cursor scans
  // ---------------------------------------------------------------------------------------

  /** The database, the rank of the newest transaction, the push cursor, and everything pushed
      so far. */
  datatype Pushing = Pushing(db: Db, newest: nat, cursor: Option<Hlc>, pushed: set<Grouping.Change>)

  predicate BeyondCursor(cursor: Option<Hlc>, hlc: Hlc) {
    cursor.Some? ==> Newer(hlc, cursor.value)
  }

  /** A statement of a transaction begun after the last scan. */
  ghost predicate Writes(s: Pushing, op: Op, s': Pushing) {
    && s' == s.(db := Exec(s.db, op), newest := Rank(op.hlc))
    && s.newest <= Rank(op.hlc) && BeyondCursor(s.cursor, op.hlc)
  }

  ghost predicate EmitsAnywhere(db: Db, cursor: Option<Hlc>, ch: Grouping.Change) {
    Emits(db, ch.table, Query(cursor, None, None), ch)
  }

  /** A scan pushes what it emits and moves the cursor to the newest of it. */
  ghost predicate Scans(s: Pushing, s': Pushing) {
    && s'.db == s.db && s'.newest == s.newest
    && (forall ch :: ch in s'.pushed <==> ch in s.pushed || EmitsAnywhere(s.db, s.cursor, ch))
    && (s'.cursor == s.cursor || exists ch :: EmitsAnywhere(s.db, s.cursor, ch) && s'.cursor == Some(ch.hlc))
    && (forall ch :: EmitsAnywhere(s.db, s.cursor, ch) ==> s'.cursor.Some? && Rank(ch.hlc) <= Rank(s'.cursor.value))
  }

  /** A row whose timestamps have the common width and are dominated by the row HLC. */
  ghost predicate WellStamped(schema: Schema, row: Row, tw: nat, nw: nat) {
    && Dominated(schema, row) && FixedWidth(row.rowHlc.value, tw, nw)
    && forall c :: c in row.hlcs ==> FixedWidth(row.hlcs[c], tw, nw)
  }

  /** Nothing at or before the cursor is unpushed. */
  ghost predicate CursorInv(s: Pushing, tw: nat, nw: nat) {
    && s.db.triggersOn
    && (s.cursor.Some? ==> FixedWidth(s.cursor.value, tw, nw))
    && forall table, pk :: RowExists(s.db, table, pk) ==> RowInv(s, table, pk, TableOf(s.db, table)[pk], tw, nw)
  }

  ghost predicate RowInv(s: Pushing, table: Name, pk: Pk, row: Row, tw: nat, nw: nat) {
    && WellStamped(SchemaOf(s.db, table), row, tw, nw)
    && (forall c :: c in row.hlcs ==> Rank(row.hlcs[c]) <= s.newest)
    && (KeyHasNull(pk) ==> row.hlcs == map[])
    && forall c :: c in DataColumns(SchemaOf(s.db, table)) && !BeyondCursor(s.cursor, EffectiveHlc(row, c).value)
         ==> ChangeOf(SchemaOf(s.db, table), table, pk, row, c) in s.pushed
  }

  ghost predicate AllPushed(s: Pushing) {
    forall table, pk, c :: RowExists(s.db, table, pk) && c in DataColumns(SchemaOf(s.db, table))
      && EffectiveHlc(TableOf(s.db, table)[pk], c).Some?
      ==> ChangeOf(SchemaOf(s.db, table), table, pk, TableOf(s.db, table)[pk], c) in s.pushed
  }

  /** A row under a statement: every column is either as before or stamped by the statement. */
  ghost predicate Evolves(schema: Schema, pk: Pk, before: Option<Row>, row: Row, hlc: Hlc) {
    && (KeyHasNull(pk) ==> row.hlcs == map[])
    && (row.rowHlc == Some(hlc) || before == Some(row))
    && (forall c | c in row.hlcs && row.hlcs[c] != hlc ::
          before.Some? && c in before.value.hlcs && before.value.hlcs[c] == row.hlcs[c])
    && (forall c | c in DataColumns(schema) && EffectiveHlc(row, c) != Some(hlc) ::
          && before.Some? && EffectiveHlc(before.value, c) == EffectiveHlc(row, c)
          && ValueIn(before.value.cells, c) == ValueIn(row.cells, c))
  }

  lemma {:induction false} UpdateEvolves(schema: Schema, tracked: set<Name>, op: Op, row: Row)
    requires op.Update? && (forall c :: c in DataColumns(schema) ==> c in tracked)
    requires KeyHasNull(op.pk) ==> row.hlcs == map[]
    ensures Evolves(schema, op.pk, Some(row), UpdatedRow(tracked, op, row), op.hlc)
  {
  }

  lemma {:induction false} InsertEvolves(schema: Schema, tracked: set<Name>, op: Op)
    requires op.Insert? && (forall c :: c in DataColumns(schema) ==> c in tracked)
    ensures Evolves(schema, op.pk, None, InsertedRow(tracked, op), op.hlc)
  {
  }

  lemma {:induction false} RowAfterEvolves(db: Db, op: Op, table: Name, pk: Pk, row: Row)
    requires RowAfter(db, op, table, pk) == Some(row)
    requires RowExists(db, table, pk) && KeyHasNull(pk) ==> TableOf(db, table)[pk].hlcs == map[]
    requires forall c :: c in DataColumns(SchemaOf(db, table)) ==> c in Tracked(db, table)
    ensures Evolves(SchemaOf(db, table), pk, RowAt(db, table, pk), row, op.hlc)
  {
    hide InsertedRow;
    hide UpdatedRow;
    if table == op.table && pk == op.pk {
      if op.Insert? && RowAt(db, table, pk).None? {
        InsertEvolves(SchemaOf(db, table), Tracked(db, table), op);
      } else if op.Update? && RowAt(db, table, pk).Some? {
        UpdateEvolves(SchemaOf(db, table), Tracked(db, table), op, RowAt(db, table, pk).value);
      }
    }
  }

  lemma {:induction false} WrittenRow(db: Db, op: Op, table: Name, pk: Pk)
    requires db.triggersOn && RowExists(Exec(db, op), table, pk)
    requires RowExists(db, table, pk) && KeyHasNull(pk) ==> TableOf(db, table)[pk].hlcs == map[]
    ensures Evolves(SchemaOf(db, table), pk, RowAt(db, table, pk), TableOf(Exec(db, op), table)[pk], op.hlc)
  {
    hide Exec;
    hide RowAfter;
    hide Evolves;
    ExecRow(db, op, table, pk);
    TrackedIsScanned(SchemaOf(db, table));
    RowAfterEvolves(db, op, table, pk, TableOf(Exec(db, op), table)[pk]);
  }

  /** A NULL-key row that came in with column HLCs, from another device, never gets them
      renewed: a local update changes the value and leaves its HLC. */
  lemma {:induction false} NullKeyWriteIsUnstamped(db: Db, op: Op, c: Name)
    requires db.triggersOn && op.Update? && RowExists(db, op.table, op.pk) && KeyHasNull(op.pk)
    requires c in TableOf(db, op.table)[op.pk].hlcs
    ensures RowExists(Exec(db, op), op.table, op.pk)
    ensures CellAt(Exec(db, op), op.table, op.pk, c).hlc == CellAt(db, op.table, op.pk, c).hlc
    ensures c in op.cells ==> CellAt(Exec(db, op), op.table, op.pk, c).value == op.cells[c]
  {
  }

  lemma {:induction false} WriteKeepsInv(s: Pushing, op: Op, s': Pushing, tw: nat, nw: nat)
    requires CursorInv(s, tw, nw) && Writes(s, op, s') && FixedWidth(op.hlc, tw, nw)
    ensures CursorInv(s', tw, nw)
  {
    hide Rank;
    ExecFrame(s.db, op);
    forall table, pk | RowExists(s'.db, table, pk)
      ensures RowInv(s', table, pk, TableOf(s'.db, table)[pk], tw, nw)
    {
      WriteKeepsRowInv(s, op, s', tw, nw, table, pk);
    }
  }

  lemma {:induction false} WriteKeepsRowInv(s: Pushing, op: Op, s': Pushing, tw: nat, nw: nat, table: Name, pk: Pk)
    requires CursorInv(s, tw, nw) && Writes(s, op, s') && FixedWidth(op.hlc, tw, nw)
    requires RowExists(s'.db, table, pk)
    ensures RowInv(s', table, pk, TableOf(s'.db, table)[pk], tw, nw)
  {
    hide Rank;
    hide FixedWidth;
    ExecFrame(s.db, op);
    if RowExists(s.db, table, pk) {
      assert RowInv(s, table, pk, TableOf(s.db, table)[pk], tw, nw);
    }
    WrittenRow(s.db, op, table, pk);
    EvolvedRowInv(s, op.hlc, s', tw, nw, table, pk, RowAt(s.db, table, pk), TableOf(s'.db, table)[pk]);
  }

  lemma {:induction false} EvolvedRowInv(s: Pushing, hlc: Hlc, s': Pushing, tw: nat, nw: nat, table: Name, pk: Pk,
                                         before: Option<Row>, row: Row)
    requires s'.db.schemas == s.db.schemas && s'.cursor == s.cursor && s'.pushed == s.pushed
    requires s.newest <= s'.newest == Rank(hlc) && BeyondCursor(s.cursor, hlc) && FixedWidth(hlc, tw, nw)
    requires before.Some? ==> RowInv(s, table, pk, before.value, tw, nw)
    requires Evolves(SchemaOf(s.db, table), pk, before, row, hlc)
    ensures RowInv(s', table, pk, row, tw, nw)
  {
    hide Rank;
    hide FixedWidth;
    assert forall c :: c in row.hlcs ==> Rank(row.hlcs[c]) <= Rank(hlc);
  }

  /** A scan at the cursor completes the record: afterwards every cell of every row has been
      pushed with the value and HLC it holds. */
  lemma {:induction false} ScanPushesAll(s: Pushing, s': Pushing, tw: nat, nw: nat)
    requires CursorInv(s, tw, nw) && Scans(s, s')
    ensures AllPushed(s') && CursorInv(s', tw, nw)
  {
    hide Rank;
    forall table, pk, c | RowExists(s.db, table, pk) && c in DataColumns(SchemaOf(s.db, table))
      ensures EffectiveHlc(TableOf(s.db, table)[pk], c).Some?
      ensures ChangeOf(SchemaOf(s.db, table), table, pk, TableOf(s.db, table)[pk], c) in s'.pushed
    {
      ScanPushesCell(s, s', tw, nw, table, pk, c);
    }
    ScanMovesCursor(s, s', tw, nw);
    forall table, pk | RowExists(s'.db, table, pk)
      ensures RowInv(s', table, pk, TableOf(s'.db, table)[pk], tw, nw)
    {
      assert RowInv(s, table, pk, TableOf(s.db, table)[pk], tw, nw);
    }
  }

  /** What a later cursor lets through, an earlier one did. */
  lemma {:induction false} EarlierCursorEmits(s: Pushing, later: Option<Hlc>, tw: nat, nw: nat, ch: Grouping.Change)
    requires CursorInv(s, tw, nw) && EmitsAnywhere(s.db, later, ch)
    requires s.cursor.Some? ==> later.Some? && Rank(s.cursor.value) <= Rank(later.value)
    ensures EmitsAnywhere(s.db, s.cursor, ch) && BeyondCursor(later, ch.hlc)
  {
    hide Rank, FixedWidth, Lex;
    var schema := SchemaOf(s.db, ch.table);
    var pk :| RowExists(s.db, ch.table, pk)
              && EmitsFrom(schema, ch.table, pk, TableOf(s.db, ch.table)[pk], Query(later, None, None), ch);
    var row := TableOf(s.db, ch.table)[pk];
    assert RowInv(s, ch.table, pk, row, tw, nw);
    PrefilterIsSafe(schema, ch.table, pk, row, Query(s.cursor, None, None), ch, tw, nw);
  }

  /** Nothing is pushed twice: right after a scan another one emits nothing. */
  lemma {:induction false} SecondScanIsEmpty(s: Pushing, s': Pushing, tw: nat, nw: nat, ch: Grouping.Change)
    requires CursorInv(s, tw, nw) && Scans(s, s')
    ensures !EmitsAnywhere(s'.db, s'.cursor, ch)
  {
    hide Rank, CursorInv;
    if s'.cursor != s.cursor {
      var x :| EmitsAnywhere(s.db, s.cursor, x) && s'.cursor == Some(x.hlc);
      assert BeyondCursor(s.cursor, x.hlc);
    }
    hide Emits;
    if EmitsAnywhere(s'.db, s'.cursor, ch) {
      EarlierCursorEmits(s, s'.cursor, tw, nw, ch);
    }
  }

  lemma {:induction false} ScanPushesCell(s: Pushing, s': Pushing, tw: nat, nw: nat, table: Name, pk: Pk, c: Name)
    requires CursorInv(s, tw, nw) && Scans(s, s')
    requires RowExists(s.db, table, pk) && c in DataColumns(SchemaOf(s.db, table))
    ensures EffectiveHlc(TableOf(s.db, table)[pk], c).Some?
    ensures ChangeOf(SchemaOf(s.db, table), table, pk, TableOf(s.db, table)[pk], c) in s'.pushed
  {
    hide Rank;
    var schema, row := SchemaOf(s.db, table), TableOf(s.db, table)[pk];
    assert RowInv(s, table, pk, row, tw, nw);
    var ch := ChangeOf(schema, table, pk, row, c);
    if BeyondCursor(s.cursor, ch.hlc) {
      PrefilterIsSafe(schema, table, pk, row, Query(s.cursor, None, None), ch, tw, nw);
      assert EmitsAnywhere(s.db, s.cursor, ch);
    }
  }

  lemma {:induction false} ScanMovesCursor(s: Pushing, s': Pushing, tw: nat, nw: nat)
    requires CursorInv(s, tw, nw) && Scans(s, s')
    ensures s'.cursor.Some? ==> FixedWidth(s'.cursor.value, tw, nw)
  {
    hide Rank;
    if s'.cursor != s.cursor {
      var ch :| EmitsAnywhere(s.db, s.cursor, ch) && s'.cursor == Some(ch.hlc);
      var pk :| RowExists(s.db, ch.table, pk)
                && EmitsFrom(SchemaOf(s.db, ch.table), ch.table, pk, TableOf(s.db, ch.table)[pk],
                             Query(s.cursor, None, None), ch);
      assert RowInv(s, ch.table, pk, TableOf(s.db, ch.table)[pk], tw, nw);
    }
  }

  ghost predicate PushStep(s: Pushing, s': Pushing, tw: nat, nw: nat) {
    Scans(s, s') || exists op :: Writes(s, op, s') && FixedWidth(op.hlc, tw, nw)
  }

  /** In every local run that interleaves writes and cursor scans, with equally wide timestamps,
      no write is lost: right after each scan everything has been pushed. */
  lemma {:induction false} CursorLosesNothing(run: seq<Pushing>, tw: nat, nw: nat)
    requires run != [] && CursorInv(run[0], tw, nw)
    requires forall i :: 0 <= i < |run| - 1 ==> PushStep(run[i], run[i + 1], tw, nw)
    ensures CursorInv(run[|run| - 1], tw, nw)
    ensures |run| > 1 && Scans(run[|run| - 2], run[|run| - 1]) ==> AllPushed(run[|run| - 1])
  {
    if |run| > 1 {
      var n := |run| - 1;
      CursorLosesNothing(run[..n], tw, nw);
      assert PushStep(run[n - 1], run[n], tw, nw);
      if Scans(run[n - 1], run[n]) {
        ScanPushesAll(run[n - 1], run[n], tw, nw);
      } else {
        var op :| Writes(run[n - 1], op, run[n]) && FixedWidth(op.hlc, tw, nw);
        WriteKeepsInv(run[n - 1], op, run[n], tw, nw);
      }
    }
  }

  /** A vault without rows is a fair start. */
  lemma {:induction false} EmptyVaultStarts(db: Db, tw: nat, nw: nat)
    requires NoRows(db) && db.triggersOn
    ensures CursorInv(Pushing(db, 0, None, {}), tw, nw)
  {
  }
}
