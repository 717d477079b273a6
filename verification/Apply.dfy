/**
  `apply_remote_changes_to_db` (`src-tauri/src/crdt/commands.rs:550-1038`): what one batch does
  to the database, as functions.
 */
module Apply {
  import opened Wrappers
  import HlcText
  import opened Store
  import Triggers
  import Keys
  import opened Grouping
  import opened RowMerge

  /** What SQLite decides: UNIQUE violations, which of several matching rows it returns first,
      for which delete-log entries the DELETE fails, the delete-log rows a firing DELETE trigger
      would append, and whether any other statement may fail. */
  datatype World = World(unique: (Name, Pk) -> bool, first: set<Pk> -> Pk, deleteFails: Name -> bool,
                         deleteLog: set<Pk> -> Table, faults: bool)

  ghost predicate ValidWorld(w: World) {
    forall s: set<Pk> :: s != {} ==> w.first(s) in s
  }

  // ---------------------------------------------------------------------------------------
  // Rows
  // ---------------------------------------------------------------------------------------

  /** The row a change names, through the WHERE clause. */
  function RowNamed(db: Db, ch: Change): Option<Pk> {
    match ch.rowPks
    case NotAnObject(_) => None
    case ObjectText(fields, _) => Some(WherePk(PkNames(SchemaOf(db, ch.table)), fields))
  }

  /** One row of the batch. `None` is an error that aborts the transaction; a table this device
      does not have is skipped. */
  function ApplyRow(db: Db, w: World, list: seq<Change>): Option<Db>
    requires list != []
  {
    var table := list[0].table;
    var schema := SchemaOf(db, table);
    if schema == [] then Some(db)
    else if list[0].rowPks.NotAnObject? || PkNames(schema) == [] then None
    else
      var fields := list[0].rowPks.fields;
      var pk := WherePk(PkNames(schema), fields);
      Some(WriteRow(db, w, table, fields, pk, MergeAll(ColumnNames(schema), StartMerge(RowAt(db, table, pk), list[0]), list)))
  }

  function WriteRow(db: Db, w: World, table: Name, fields: map<Name, Value>, pk: Pk, m: Merge): Db {
    var noted := db.(pending := db.pending + m.pending);
    if m.accepted == [] then noted
    else match RowAt(db, table, pk)
      case Some(row) =>
        Triggers.UpdateStmt(noted, table, pk, row, Row(AssignLast(row.cells, m.accepted), m.hlcs, Some(m.maxHlc)))
      case None =>
        var newPk := Keys.InsertPk(PkNames(SchemaOf(db, table)), fields);
        if RowExists(db, table, newPk) || w.unique(table, newPk) then
          noted.(conflicts := db.conflicts + [Conflict(table, m.maxHlc)])
        else Triggers.InsertStmt(noted, table, newPk, Row(AssignFirst(m.accepted), m.hlcs, Some(m.maxHlc)))
  }

  function ApplyRows(db: Db, w: World, gs: seq<Group<RowKey>>): Option<Db>
    requires forall i :: 0 <= i < |gs| ==> gs[i].members != []
  {
    if gs == [] then Some(db)
    else match ApplyRows(db, w, gs[..|gs| - 1])
      case None => None
      case Some(mid) => ApplyRow(mid, w, gs[|gs| - 1].members)
  }

  // ---------------------------------------------------------------------------------------
  // Delete-log propagation
  // ---------------------------------------------------------------------------------------

  /** A delete-log row as the propagation reads it: `Unreadable` is a type error that aborts,
      `Skipped` an unsafe or malformed entry. */
  datatype LogEntry = Missing | Unreadable | Skipped | Entry(table: Name, fields: map<Name, Value>, hlc: Hlc)

  predicate IsText(v: Value) { v.Text? || v.Json? }

  function ReadEntry(db: Db, id: Name): LogEntry {
    match RowAt(db, DELETED_ROWS_TABLE, [Text(id)])
    case None => Missing
    case Some(row) =>
      var target, keys := ValueIn(row.cells, "table_name"), ValueIn(row.cells, "row_pks");
      if !IsText(target) || !IsText(keys) || row.rowHlc.None? then Unreadable
      else match (target, keys)
        case (Text(t), Json(ObjectText(fields, _))) =>
          if IsSafeIdentifier(t) && fields != map[] && (forall c :: c in fields ==> IsSafeIdentifier(c))
          then Entry(t, fields, row.rowHlc.value) else Skipped
        case _ => Skipped
  }

  /** The map-built clause on a row: null-safe equality on the columns it names. */
  predicate Matches(names: seq<Name>, pk: Pk, row: Row, fields: map<Name, Value>) {
    && |pk| == |names|
    && (forall i :: 0 <= i < |names| && names[i] in fields ==> pk[i] == fields[names[i]])
    && (forall c :: c in fields && c !in names ==> ValueIn(row.cells, c) == fields[c])
  }

  /** The rows it selects; a clause on an unknown column is a statement error, which is
      swallowed and selects nothing. */
  function Matching(db: Db, table: Name, fields: map<Name, Value>): set<Pk> {
    var schema := SchemaOf(db, table);
    if fields.Keys <= ColumnNames(schema) then
      set pk | pk in TableOf(db, table) && Matches(PkNames(schema), pk, TableOf(db, table)[pk], fields)
    else {}
  }

  /** `should_propagate_delete`: a delete is honoured unless the row is strictly newer. */
  predicate ShouldPropagate(deleteHlc: Hlc, rowHlc: Option<Hlc>) {
    match rowHlc
    case None => true
    case Some(h) => !HlcText.Newer(h, deleteHlc)
  }

  /** A DELETE that fails is logged and passed over. */
  function PropagateOne(db: Db, w: World, id: Name): Option<Db>
    requires ValidWorld(w)
  {
    match ReadEntry(db, id)
    case Missing => Some(db)
    case Skipped => Some(db)
    case Unreadable => None
    case Entry(table, fields, hlc) =>
      var hit := Matching(db, table, fields);
      if hit != {} && ShouldPropagate(hlc, TableOf(db, table)[w.first(hit)].rowHlc) && !w.deleteFails(id) then
        Some(Triggers.DeleteStmt(db, table, hit, w.deleteLog(hit)))
      else Some(db)
  }

  function PropagateAll(db: Db, w: World, ids: seq<Name>): Option<Db>
    requires ValidWorld(w)
  {
    if ids == [] then Some(db)
    else match PropagateAll(db, w, ids[..|ids| - 1])
      case None => None
      case Some(mid) => PropagateOne(mid, w, ids[|ids| - 1])
  }

  /** The delete-log ids a batch brings in. */
  function InboundDeleteIds(cs: seq<Change>): set<Name> {
    set ch | ch in cs && ch.table == DELETED_ROWS_TABLE && ch.rowPks.ObjectText?
             && "id" in ch.rowPks.fields && ch.rowPks.fields["id"].Text? :: ch.rowPks.fields["id"].s
  }

  // ---------------------------------------------------------------------------------------
  // A committed batch
  // ---------------------------------------------------------------------------------------

  /** An order in which a HashSet may be iterated. */
  ghost predicate Enumerates(order: seq<Name>, ids: set<Name>) {
    && |order| == |ids|
    && (forall id :: id in ids <==> id in order)
    && (forall i, j :: 0 <= i < j < |order| ==> order[i] != order[j])
  }

  lemma {:induction false} EnumerateNone()
    ensures Enumerates([], {})
  {
  }

  lemma {:induction false} EnumerateOneMore(order: seq<Name>, ids: set<Name>, id: Name)
    requires Enumerates(order, ids) && id !in ids
    ensures Enumerates(order + [id], ids + {id})
  {
  }

  /** `after` is a possible outcome of committing the batch: some row grouping, some order of
      the inbound deletes, and `mid` the database between the two passes. */
  ghost predicate CommitsVia(before: Db, cs: seq<Change>, w: World, after: Db,
                             gs: seq<Group<RowKey>>, mid: Db, order: seq<Name>)
    requires ValidWorld(w)
  {
    && RowGrouping(cs, gs)
    && Enumerates(order, InboundDeleteIds(cs))
    && ApplyRows(before.(triggersOn := false), w, gs) == Some(mid)
    && PropagateAll(mid, w, order).Some?
    && after == PropagateAll(mid, w, order).value.(triggersOn := true)
  }

  ghost predicate Commits(before: Db, cs: seq<Change>, w: World, after: Db)
    requires ValidWorld(w)
  {
    exists gs, mid, order :: CommitsVia(before, cs, w, after, gs, mid, order)
  }
}
