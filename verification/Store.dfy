/**
  The vault database as the sync engine sees it: CRDT tables of rows, each row with its
  values, its per-column HLC map (`haex_column_hlcs`) and its row HLC (`haex_hlc`), plus the
  bookkeeping tables for dirty tables, pending columns and UNIQUE conflicts.
 */
module Store {
  import opened Wrappers

  type Name = string
  type Hlc = string

  /** A SQL value. A text that holds JSON is kept as what `serde_json` reads from it. */
  datatype Value = Null | Integer(n: int) | Text(s: string) | Json(text: JsonText)

  /** A JSON text: either no object, or an object together with how it was spelled, so that
      two different texts can hold the same object. */
  datatype JsonText = NotAnObject(s: string) | ObjectText(fields: map<Name, Value>, spelling: string)

  datatype ColumnInfo = ColumnInfo(name: Name, isPk: bool)
  type Schema = seq<ColumnInfo>

  /** The values of the key columns, in schema order; NULL is allowed. */
  type Pk = seq<Value>

  datatype Row = Row(cells: map<Name, Value>, hlcs: map<Name, Hlc>, rowHlc: Option<Hlc>)
  type Table = map<Pk, Row>

  datatype Conflict = Conflict(table: Name, hlc: Hlc)

  datatype Db = Db(
    schemas: map<Name, Schema>,
    tables: map<Name, Table>,
    dirty: set<Name>,
    pending: set<(Name, Name)>,
    conflicts: seq<Conflict>,
    triggersOn: bool)

  const HLC_TIMESTAMP_COLUMN := "haex_hlc"
  const COLUMN_HLCS_COLUMN := "haex_column_hlcs"
  const DELETED_ROWS_TABLE := "haex_deleted_rows"

  /** Letters, digits, `_` and `-`; of Rust's Unicode letters and digits only the ASCII ones. */
  predicate IsSafeIdentifier(name: Name) {
    name != [] &&
    forall i :: 0 <= i < |name| ==>
      'a' <= name[i] <= 'z' || 'A' <= name[i] <= 'Z' || '0' <= name[i] <= '9' || name[i] == '_' || name[i] == '-'
  }

  /** A safe name cannot end the quotes it is put in, nor hide a second statement: no punctuation and
      no blank is in it. */
  lemma {:induction false} SafeNameStaysQuoted(name: Name, c: char)
    requires IsSafeIdentifier(name) && c in name
    ensures ' ' < c <= 'z' && c !in "\"'`;,.:()[]<>=!?*+/\\&%$#@^"
  {
    var i :| 0 <= i < |name| && name[i] == c;
  }

  // ---------------------------------------------------------------------------------------
  // Schemas and keys
  // ---------------------------------------------------------------------------------------

  function ColumnNames(schema: Schema): set<Name> {
    set i | 0 <= i < |schema| :: schema[i].name
  }

  function PkNames(schema: Schema): seq<Name> {
    if schema == [] then []
    else (if schema[0].isPk then [schema[0].name] else []) + PkNames(schema[1..])
  }

  /** The row a key object names: missing key columns count as NULL. */
  function WherePk(names: seq<Name>, fields: map<Name, Value>): Pk {
    seq(|names|, i requires 0 <= i < |names| => if names[i] in fields then fields[names[i]] else Null)
  }

  function SchemaOf(db: Db, table: Name): Schema {
    if table in db.schemas then db.schemas[table] else []
  }

  function TableOf(db: Db, table: Name): Table {
    if table in db.tables then db.tables[table] else map[]
  }

  predicate RowExists(db: Db, table: Name, pk: Pk) {
    pk in TableOf(db, table)
  }

  function RowAt(db: Db, table: Name, pk: Pk): Option<Row> {
    if RowExists(db, table, pk) then Some(TableOf(db, table)[pk]) else None
  }

  function Put(db: Db, table: Name, pk: Pk, row: Row): Db {
    db.(tables := db.tables[table := TableOf(db, table)[pk := row]])
  }

  function Remove(db: Db, table: Name, pks: set<Pk>): Db {
    db.(tables := db.tables[table := TableOf(db, table) - pks])
  }

  // ---------------------------------------------------------------------------------------
  // Cells: one column of one row, with the HLC it was last written under
  // ---------------------------------------------------------------------------------------

  datatype Cell = Cell(value: Value, hlc: Hlc)

  function ValueIn(cells: map<Name, Value>, column: Name): Value {
    if column in cells then cells[column] else Null
  }

  /** `column_hlcs.get(..).unwrap_or("")`. */
  function HlcIn(hlcs: map<Name, Hlc>, column: Name): Hlc {
    if column in hlcs then hlcs[column] else ""
  }

  function RowCell(row: Option<Row>, column: Name): Cell {
    match row
    case None => Cell(Null, "")
    case Some(r) => Cell(ValueIn(r.cells, column), HlcIn(r.hlcs, column))
  }

  function CellAt(db: Db, table: Name, pk: Pk, column: Name): Cell {
    RowCell(RowAt(db, table, pk), column)
  }
}
