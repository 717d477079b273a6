/**
  The triggers of `src-tauri/src/crdt/trigger.rs`, by what they do to rows. Every INSERT,
  UPDATE and DELETE below, local or remote, goes through these statements, so a trigger
  fires exactly when `triggers_enabled` is on.
 */
module Triggers {
  import opened Wrappers
  import opened Store

  const LAST_PUSH_HLC_COLUMN := "last_push_hlc_timestamp"
  const LAST_PULL_SERVER_TIMESTAMP_COLUMN := "last_pull_server_timestamp"
  const UPDATED_AT_COLUMN := "updated_at"
  const CREATED_AT_COLUMN := "created_at"

  predicate IsTracked(c: ColumnInfo) {
    && !c.isPk
    && c.name != HLC_TIMESTAMP_COLUMN
    && c.name != COLUMN_HLCS_COLUMN
    && c.name != LAST_PUSH_HLC_COLUMN
    && c.name != LAST_PULL_SERVER_TIMESTAMP_COLUMN
    && c.name != UPDATED_AT_COLUMN
    && c.name != CREATED_AT_COLUMN
  }

  /** `cols_to_track`. */
  function TrackedColumns(schema: Schema): seq<Name> {
    if schema == [] then []
    else (if IsTracked(schema[0]) then [schema[0].name] else []) + TrackedColumns(schema[1..])
  }

  function Tracked(db: Db, table: Name): set<Name> {
    var cols := TrackedColumns(SchemaOf(db, table));
    set i | 0 <= i < |cols| :: cols[i]
  }

  /** The triggers find the row with `"pk" = NEW."pk"`, which no NULL key satisfies. */
  predicate KeyHasNull(pk: Pk) {
    Null in pk
  }

  function Stamps(cols: set<Name>, hlc: Hlc): map<Name, Hlc> {
    map c | c in cols :: hlc
  }

  function ChangedColumns(cols: set<Name>, before: Row, after: Row): set<Name> {
    set c | c in cols && ValueIn(before.cells, c) != ValueIn(after.cells, c)
  }

  function InsertStmt(db: Db, table: Name, pk: Pk, row: Row): Db {
    if db.triggersOn && row.rowHlc.Some? then
      var stamped := if KeyHasNull(pk) then row
                     else row.(hlcs := Stamps(Tracked(db, table), row.rowHlc.value));
      Put(db, table, pk, stamped).(dirty := db.dirty + {table})
    else Put(db, table, pk, row)
  }

  function UpdateStmt(db: Db, table: Name, pk: Pk, before: Row, after: Row): Db {
    if db.triggersOn && after.rowHlc.Some? then
      var changed := ChangedColumns(Tracked(db, table), before, after);
      var stamped := if KeyHasNull(pk) then after
                     else after.(hlcs := after.hlcs + Stamps(changed, after.rowHlc.value));
      Put(db, table, pk, stamped).(dirty := if changed == {} then db.dirty else db.dirty + {table})
    else Put(db, table, pk, after)
  }

  /** `json_object('pk1', OLD."pk1", ..)`. */
  function KeyFields(names: seq<Name>, pk: Pk): map<Name, Value> {
    map i | 0 <= i < |names| && i < |pk| && names[i] !in names[..i] :: names[i] := pk[i]
  }

  /** The row the BEFORE DELETE trigger appends to the delete log; the log's own INSERT trigger
      stamps its columns. */
  function LogRow(db: Db, table: Name, pk: Pk, hlc: Hlc): Row {
    Row(map["table_name" := Text(table),
            "row_pks" := Json(ObjectText(KeyFields(PkNames(SchemaOf(db, table)), pk), ""))],
        Stamps(Tracked(db, DELETED_ROWS_TABLE), hlc), Some(hlc))
  }

  /** Deletes the rows `pks`; `log` is what their BEFORE DELETE triggers append when they fire.
      The delete log itself has no such trigger. */
  function DeleteStmt(db: Db, table: Name, pks: set<Pk>, log: Table): Db {
    var logged :=
      if db.triggersOn && table != DELETED_ROWS_TABLE then
        db.(tables := db.tables[DELETED_ROWS_TABLE := TableOf(db, DELETED_ROWS_TABLE) + log],
            dirty := db.dirty + {DELETED_ROWS_TABLE})
      else db;
    Remove(logged, table, pks)
  }
}
