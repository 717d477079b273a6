/**
  The outbound scanner (`src-tauri/src/crdt/scanner.rs`): which column changes a scan emits,
  the loops that collect them, and when the SQL prefilter on the row HLC is safe.
 */
module Scanner {
  import opened Wrappers
  import opened HlcText
  import opened Store
  import opened Triggers
  import opened Grouping

  const EXCLUDED_SYNC_COLUMNS: seq<Name> :=
    ["last_push_hlc_timestamp", "last_pull_server_timestamp", "updated_at", "created_at"]

  const SPACE_SCOPED_CRDT_TABLES: seq<Name> :=
    ["haex_space_devices", "haex_space_members", "haex_peer_shares", "haex_mls_sync_keys",
     "haex_device_mls_enrollments"]

  const MEMBERSHIP_SYSTEM_TABLES: seq<Name> :=
    ["haex_space_devices", "haex_space_members", "haex_mls_sync_keys", "haex_device_mls_enrollments"]

  const SPACE_ID_COLUMN := "space_id"

  /** The second half of `partition_columns`. */
  function DataColumns(schema: Schema): seq<Name> {
    if schema == [] then []
    else
      (if !schema[0].isPk && schema[0].name != HLC_TIMESTAMP_COLUMN && schema[0].name != COLUMN_HLCS_COLUMN
          && schema[0].name !in EXCLUDED_SYNC_COLUMNS then [schema[0].name] else [])
      + DataColumns(schema[1..])
  }

  /** The triggers stamp exactly the columns the scanner reads, for every schema. */
  lemma {:induction false} TrackedIsScanned(schema: Schema)
    ensures TrackedColumns(schema) == DataColumns(schema)
  {
    if schema != [] {
      TrackedIsScanned(schema[1..]);
      var c := schema[0].name;
      assert c in EXCLUDED_SYNC_COLUMNS <==>
             c == EXCLUDED_SYNC_COLUMNS[0] || c == EXCLUDED_SYNC_COLUMNS[1]
             || c == EXCLUDED_SYNC_COLUMNS[2] || c == EXCLUDED_SYNC_COLUMNS[3];
    }
  }

  /** Which columns are synced, by their names in the schema. */
  lemma {:induction false} DataColumnsExactly(schema: Schema, c: Name)
    ensures c in DataColumns(schema) <==>
            && (exists i :: 0 <= i < |schema| && schema[i].name == c && !schema[i].isPk)
            && c != "haex_hlc" && c != "haex_column_hlcs" && c != "last_push_hlc_timestamp"
            && c != "last_pull_server_timestamp" && c != "updated_at" && c != "created_at"
  {
    assert c in EXCLUDED_SYNC_COLUMNS <==>
           c == EXCLUDED_SYNC_COLUMNS[0] || c == EXCLUDED_SYNC_COLUMNS[1]
           || c == EXCLUDED_SYNC_COLUMNS[2] || c == EXCLUDED_SYNC_COLUMNS[3];
    if schema != [] {
      var rest := schema[1..];
      DataColumnsExactly(rest, c);
      assert forall i :: 0 <= i < |rest| ==> rest[i] == schema[i + 1];
      if exists i :: 0 <= i < |schema| && schema[i].name == c && !schema[i].isPk {
        var i :| 0 <= i < |schema| && schema[i].name == c && !schema[i].isPk;
        assert i > 0 ==> rest[i - 1].name == c && !rest[i - 1].isPk;
      }
    }
  }

  lemma {:induction false} DataColumnIndex(schema: Schema, c: Name) returns (i: nat)
    requires c in DataColumns(schema)
    ensures i < |schema| && schema[i].name == c && !schema[i].isPk
    ensures c != HLC_TIMESTAMP_COLUMN && c != COLUMN_HLCS_COLUMN
  {
    if c in DataColumns(schema[1..]) {
      i := DataColumnIndex(schema[1..], c);
      i := i + 1;
    } else {
      i := 0;
    }
  }

  lemma {:induction false} PkColumnIndex(schema: Schema, c: Name) returns (i: nat)
    requires c in PkNames(schema)
    ensures i < |schema| && schema[i].name == c && schema[i].isPk
  {
    if c in PkNames(schema[1..]) {
      i := PkColumnIndex(schema[1..], c);
      i := i + 1;
    } else {
      i := 0;
    }
  }

  /** What a scanner emits is never a key or CRDT metadata column. */
  lemma {:induction false} DataColumnsAreOrdinary(schema: Schema, c: Name)
    requires c in DataColumns(schema)
    ensures c in ColumnNames(schema) && c != HLC_TIMESTAMP_COLUMN && c != COLUMN_HLCS_COLUMN
    ensures (forall i, j :: 0 <= i < j < |schema| ==> schema[i].name != schema[j].name) ==> c !in PkNames(schema)
  {
    var i := DataColumnIndex(schema, c);
    if c in PkNames(schema) {
      var j := PkColumnIndex(schema, c);
      assert i != j;
    }
  }

  /** The JSON text of a row's key. */
  function KeyText(schema: Schema, pk: Pk): JsonText {
    ObjectText(KeyFields(PkNames(schema), pk), "")
  }

  ghost predicate Distinct(names: seq<Name>) {
    forall i, j :: 0 <= i < j < |names| ==> names[i] != names[j]
  }

  /** Reading the key text back names the same row, NULL keys included. */
  lemma {:induction false} KeyRoundTrip(names: seq<Name>, pk: Pk)
    requires Distinct(names) && |pk| == |names|
    ensures WherePk(names, KeyFields(names, pk)) == pk
    ensures forall i :: 0 <= i < |names| ==> names[i] in KeyFields(names, pk)
  {
    forall i | 0 <= i < |names|
      ensures names[i] in KeyFields(names, pk) && KeyFields(names, pk)[names[i]] == pk[i]
    {
      assert names[i] !in names[..i];
    }
  }

  /** Key columns are distinct and keys have one value for each, as in every SQL table. */
  ghost predicate KeysFit(db: Db, table: Name) {
    && Distinct(PkNames(SchemaOf(db, table)))
    && (SchemaOf(db, table) != [] ==> forall pk :: RowExists(db, table, pk) ==> |pk| == |PkNames(SchemaOf(db, table))|)
  }

  /** Different rows have different key texts. */
  lemma {:induction false} KeyTextIsInjective(db: Db, table: Name, p: Pk, q: Pk)
    requires KeysFit(db, table) && SchemaOf(db, table) != [] && RowExists(db, table, p) && RowExists(db, table, q)
    ensures KeyText(SchemaOf(db, table), p) == KeyText(SchemaOf(db, table), q) <==> p == q
  {
    hide KeyFields, WherePk;
    KeyRoundTrip(PkNames(SchemaOf(db, table)), p);
    KeyRoundTrip(PkNames(SchemaOf(db, table)), q);
  }

  /** The column's own HLC, or the row's as a fallback. */
  function EffectiveHlc(row: Row, column: Name): Option<Hlc> {
    if column in row.hlcs then Some(row.hlcs[column]) else row.rowHlc
  }

  /** `after_hlc`, `space_id_filter` and `origin_node_filter`. */
  datatype Query = Query(after: Option<Hlc>, space: Option<string>, origin: Option<nat>)

  const EVERYTHING := Query(None, None, None)

  /** The per-column filter: strictly newer than the cursor, and from the wanted node. */
  predicate Passes(q: Query, hlc: Hlc) {
    && (q.after.Some? ==> Newer(hlc, q.after.value))
    && (q.origin.Some? ==> IsFromNode(hlc, q.origin.value))
  }

  /** `"haex_hlc" > ?` on text, and never true of NULL. */
  predicate Prefilter(q: Query, row: Row) {
    q.after.Some? ==> row.rowHlc.Some? && Lex(row.rowHlc.value, q.after.value) == Greater
  }

  predicate InSpace(q: Query, schema: Schema, pk: Pk, row: Row) {
    q.space.Some? ==>
      && SPACE_ID_COLUMN in ColumnNames(schema)
      && ColumnIs(PkNames(schema), pk, row, SPACE_ID_COLUMN, Text(q.space.value))
  }

  predicate ColumnIs(names: seq<Name>, pk: Pk, row: Row, column: Name, v: Value) {
    if column in names then exists i :: 0 <= i < |names| && i < |pk| && names[i] == column && pk[i] == v
    else ValueIn(row.cells, column) == v
  }

  function ChangeOf(schema: Schema, table: Name, pk: Pk, row: Row, column: Name): Change
    requires EffectiveHlc(row, column).Some?
  {
    Change(table, KeyText(schema, pk), column, EffectiveHlc(row, column).value, ValueIn(row.cells, column))
  }

  /** The row loop's body emits this for one column of one row. */
  predicate ColumnEmits(q: Query, row: Row, column: Name) {
    EffectiveHlc(row, column).Some? && Passes(q, EffectiveHlc(row, column).value)
  }

  /** A scan of `table` emits `ch`. */
  ghost predicate Emits(db: Db, table: Name, q: Query, ch: Change) {
    var schema := SchemaOf(db, table);
    exists pk :: RowExists(db, table, pk) && EmitsFrom(schema, table, pk, TableOf(db, table)[pk], q, ch)
  }

  ghost predicate EmitsFrom(schema: Schema, table: Name, pk: Pk, row: Row, q: Query, ch: Change) {
    && Prefilter(q, row) && InSpace(q, schema, pk, row)
    && ch.column in DataColumns(schema) && ColumnEmits(q, row, ch.column)
    && ch == ChangeOf(schema, table, pk, row, ch.column)
  }

  // ---------------------------------------------------------------------------------------
  // The scanning loops
  // ---------------------------------------------------------------------------------------

  /** No change occurs twice. */
  ghost predicate Once(cs: seq<Change>) {
    forall ch :: ch in cs ==> multiset(cs)[ch] == 1
  }

  /** Column names are distinct and keys have one value per key column, as in every SQL table. */
  ghost predicate WellFormed(schema: Schema, rows: Table) {
    && (forall i, j :: 0 <= i < j < |schema| ==> schema[i].name != schema[j].name)
    && (forall pk :: pk in rows ==> |pk| == |PkNames(schema)|)
  }

  ghost predicate TablesWellFormed(db: Db, tables: seq<Name>) {
    forall table :: table in tables ==> WellFormed(SchemaOf(db, table), TableOf(db, table))
  }

  lemma {:induction false} ColumnsAreDistinct(schema: Schema)
    requires forall i, j :: 0 <= i < j < |schema| ==> schema[i].name != schema[j].name
    ensures Distinct(DataColumns(schema)) && Distinct(PkNames(schema))
  {
    if schema != [] {
      var rest := schema[1..];
      assert forall i :: 0 <= i < |rest| ==> rest[i] == schema[i + 1];
      ColumnsAreDistinct(rest);
      if schema[0].name in DataColumns(rest) {
        var i := DataColumnIndex(rest, schema[0].name);
      } else if schema[0].name in PkNames(rest) {
        var i := PkColumnIndex(rest, schema[0].name);
      }
    }
  }

  lemma {:induction false} OnceConcat(a: seq<Change>, b: seq<Change>)
    requires Once(a) && Once(b) && forall ch :: ch in a ==> ch !in b
    ensures Once(a + b)
  {
    forall ch | ch in a + b ensures multiset(a + b)[ch] == 1 {
      assert multiset(a + b)[ch] == multiset(a)[ch] + multiset(b)[ch];
      assert ch in a <==> ch in multiset(a);
      assert ch in b <==> ch in multiset(b);
    }
  }

  method ScanRow(schema: Schema, table: Name, pk: Pk, row: Row, q: Query) returns (changes: seq<Change>)
    requires Prefilter(q, row) && InSpace(q, schema, pk, row)
    ensures forall ch :: ch in changes <==> EmitsFrom(schema, table, pk, row, q, ch)
    ensures Distinct(DataColumns(schema)) ==> Once(changes)
  {
    hide EmitsFrom, Passes, Prefilter, InSpace, KeyText;
    changes := [];
    var columns := DataColumns(schema);
    for i := 0 to |columns|
      invariant Distinct(columns) ==> Once(changes)
      invariant forall ch :: ch in changes <==> ch.column in columns[..i] && EmitsFrom(schema, table, pk, row, q, ch)
    {
      var column := columns[i];
      assert columns[..i + 1] == columns[..i] + [column];
      ColumnEmitted(schema, table, pk, row, q, column);
      var hlcToUse := EffectiveHlc(row, column);
      if hlcToUse.Some? && Passes(q, hlcToUse.value) {
        var change := ChangeOf(schema, table, pk, row, column);
        if Distinct(columns) {
          assert change !in changes;
          OnceConcat(changes, [change]);
        }
        changes := changes + [change];
      }
    }
    assert columns[..|columns|] == columns;
    EmittedColumns(schema, table, pk, row, q);
  }

  /** A row emits one change of a data column, or none. */
  lemma {:induction false} ColumnEmitted(schema: Schema, table: Name, pk: Pk, row: Row, q: Query, column: Name)
    requires Prefilter(q, row) && InSpace(q, schema, pk, row) && column in DataColumns(schema)
    ensures forall ch: Change | ch.column == column ::
      EmitsFrom(schema, table, pk, row, q, ch) <==>
      && EffectiveHlc(row, column).Some? && Passes(q, EffectiveHlc(row, column).value)
      && ch == ChangeOf(schema, table, pk, row, column)
  {
    hide Passes, Prefilter, InSpace, KeyText, DataColumns;
  }

  lemma {:induction false} EmittedColumns(schema: Schema, table: Name, pk: Pk, row: Row, q: Query)
    ensures forall ch :: EmitsFrom(schema, table, pk, row, q, ch) ==> ch.column in DataColumns(schema)
  {
    hide Passes, Prefilter, InSpace, KeyText, DataColumns;
  }

  /** `scan_table_for_local_changes_scoped`; `None` is the missing-primary-key error. */
  method ScanTable(db: Db, table: Name, q: Query) returns (r: Option<seq<Change>>)
    ensures r.None? <==> SchemaOf(db, table) != [] && PkNames(SchemaOf(db, table)) == []
    ensures r.Some? && SchemaOf(db, table) != [] ==> forall ch :: ch in r.value <==> Emits(db, table, q, ch)
    ensures SchemaOf(db, table) == [] ==> r == Some([])
    ensures r.Some? && WellFormed(SchemaOf(db, table), TableOf(db, table)) ==> Once(r.value)
  {
    hide Rank;
    var schema := SchemaOf(db, table);
    if schema == [] {
      return Some([]);
    }
    if PkNames(schema) == [] {
      return None;
    }
    if q.space.Some? && SPACE_ID_COLUMN !in ColumnNames(schema) {
      return Some([]);
    }
    var rows := TableOf(db, table);
    var rest := rows.Keys;
    var changes: seq<Change> := [];
    while rest != {}
      invariant rest <= rows.Keys
      invariant forall ch :: ch in changes <==>
        exists pk :: pk in rows && pk !in rest && EmitsFrom(schema, table, pk, rows[pk], q, ch)
      invariant WellFormed(schema, rows) ==> Once(changes)
      decreases rest
    {
      var pk :| pk in rest;
      ghost var seen := changes;
      if Prefilter(q, rows[pk]) && InSpace(q, schema, pk, rows[pk]) {
        var emitted := ScanRow(schema, table, pk, rows[pk], q);
        if WellFormed(schema, rows) {
          EmittedOnce(schema, table, rows, rest, pk, q, changes, emitted);
        }
        changes := changes + emitted;
      }
      ExtendEmitted(schema, table, rows, rest, pk, q, seen, changes);
      rest := rest - {pk};
    }
    return Some(changes);
  }

  /** Rows with different keys are named by different key texts. */
  lemma {:induction false} EmittedOnce(schema: Schema, table: Name, rows: Table, rest: set<Pk>, pk: Pk, q: Query,
                                       seen: seq<Change>, emitted: seq<Change>)
    requires WellFormed(schema, rows) && pk in rest && rest <= rows.Keys
    requires forall ch :: ch in seen <==>
      exists p :: p in rows && p !in rest && EmitsFrom(schema, table, p, rows[p], q, ch)
    requires forall ch :: ch in emitted <==> EmitsFrom(schema, table, pk, rows[pk], q, ch)
    requires Once(seen) && (Distinct(DataColumns(schema)) ==> Once(emitted))
    ensures Once(seen + emitted)
  {
    hide Rank;
    ColumnsAreDistinct(schema);
    KeyRoundTrip(PkNames(schema), pk);
    forall ch | ch in seen ensures ch !in emitted {
      var p :| p in rows && p !in rest && EmitsFrom(schema, table, p, rows[p], q, ch);
      KeyRoundTrip(PkNames(schema), p);
    }
    OnceConcat(seen, emitted);
  }

  lemma {:induction false} ExtendEmitted(schema: Schema, table: Name, rows: Table, rest: set<Pk>, pk: Pk, q: Query,
                                         seen: seq<Change>, now: seq<Change>)
    requires pk in rest && rest <= rows.Keys
    requires forall ch :: ch in seen <==>
      exists p :: p in rows && p !in rest && EmitsFrom(schema, table, p, rows[p], q, ch)
    requires forall ch :: ch in now <==> ch in seen || EmitsFrom(schema, table, pk, rows[pk], q, ch)
    ensures forall ch :: ch in now <==>
      exists p :: p in rows && p !in rest - {pk} && EmitsFrom(schema, table, p, rows[p], q, ch)
  {
    forall ch
      ensures ch in now <==> exists p :: p in rows && p !in rest - {pk} && EmitsFrom(schema, table, p, rows[p], q, ch)
    {
      if ch in seen {
        var p :| p in rows && p !in rest && EmitsFrom(schema, table, p, rows[p], q, ch);
        assert p !in rest - {pk};
      } else if ch in now {
        assert pk !in rest - {pk};
      }
    }
  }

  lemma {:induction false} InsertAscending(cs: seq<Change>, ch: Change, at: nat)
    requires Ascending(cs) && at <= |cs|
    requires at > 0 ==> Rank(cs[at - 1].hlc) <= Rank(ch.hlc)
    requires forall k :: at <= k < |cs| ==> Rank(ch.hlc) <= Rank(cs[k].hlc)
    ensures Ascending(cs[..at] + [ch] + cs[at..])
  {
    hide Rank;
    var r := cs[..at] + [ch] + cs[at..];
    forall i, j | 0 <= i < j < |r| ensures Rank(r[i].hlc) <= Rank(r[j].hlc) {
      if i < at {
        assert r[i] == cs[i] && Rank(cs[i].hlc) <= Rank(cs[at - 1].hlc);
      }
      if j > at {
        assert r[j] == cs[j - 1];
      }
      if i > at {
        assert r[i] == cs[i - 1];
      }
    }
  }

  lemma {:induction false} InsertCounts(cs: seq<Change>, ch: Change, at: nat)
    requires at <= |cs|
    ensures multiset(cs[..at] + [ch] + cs[at..]) == multiset(cs) + multiset{ch}
  {
    assert cs == cs[..at] + cs[at..];
  }

  /** `all_changes.sort_by(compare_hlc_strings)`. */
  method SortByHlc(cs: seq<Change>) returns (r: seq<Change>)
    ensures multiset(r) == multiset(cs) && Ascending(r)
  {
    hide Rank;
    r := [];
    for i := 0 to |cs|
      invariant multiset(r) == multiset(cs[..i]) && Ascending(r)
    {
      var at: nat := |r|;
      while at > 0 && Newer(r[at - 1].hlc, cs[i].hlc)
        invariant at <= |r|
        invariant forall k :: at <= k < |r| ==> Rank(cs[i].hlc) <= Rank(r[k].hlc)
      {
        at := at - 1;
      }
      InsertAscending(r, cs[i], at);
      InsertCounts(r, cs[i], at);
      r := r[..at] + [cs[i]] + r[at..];
      assert cs[..i + 1] == cs[..i] + [cs[i]];
    }
    assert cs[..|cs|] == cs;
  }

  /** A table that cannot be scanned: it has columns but no primary key. */
  predicate Keyless(db: Db, table: Name) {
    SchemaOf(db, table) != [] && PkNames(SchemaOf(db, table)) == []
  }

  /** `scan_space_scoped_tables_for_local_changes`: only whitelisted tables, only rows of the
      space, each change once, in ascending HLC order; it fails on the first keyless table. */
  method ScanSpace(db: Db, space: string, after: Option<Hlc>, origin: Option<nat>) returns (r: Option<seq<Change>>)
    ensures r.None? <==> exists table :: table in SPACE_SCOPED_CRDT_TABLES && Keyless(db, table)
    ensures r.Some? ==> Ascending(r.value)
    ensures r.Some? ==> forall ch :: ch in r.value <==>
      ch.table in SPACE_SCOPED_CRDT_TABLES && SchemaOf(db, ch.table) != []
      && Emits(db, ch.table, Query(after, Some(space), origin), ch)
    ensures r.Some? && TablesWellFormed(db, SPACE_SCOPED_CRDT_TABLES) ==> Once(r.value)
  {
    hide Rank;
    var q := Query(after, Some(space), origin);
    var all: seq<Change> := [];
    for i := 0 to |SPACE_SCOPED_CRDT_TABLES|
      invariant forall table :: table in SPACE_SCOPED_CRDT_TABLES[..i] ==> !Keyless(db, table)
      invariant forall ch :: ch in all <==>
        ch.table in SPACE_SCOPED_CRDT_TABLES[..i] && SchemaOf(db, ch.table) != [] && Emits(db, ch.table, q, ch)
      invariant TablesWellFormed(db, SPACE_SCOPED_CRDT_TABLES[..i]) ==> Once(all)
    {
      var table := SPACE_SCOPED_CRDT_TABLES[i];
      assert SPACE_SCOPED_CRDT_TABLES[..i + 1] == SPACE_SCOPED_CRDT_TABLES[..i] + [table];
      var changes := ScanTable(db, table, q);
      if changes.None? {
        assert Keyless(db, table);
        return None;
      }
      assert forall ch :: Emits(db, table, q, ch) ==> ch.table == table;
      if Once(all) && Once(changes.value) {
        WhitelistIsDistinct(i);
        OnceConcat(all, changes.value);
      }
      all := all + changes.value;
    }
    assert SPACE_SCOPED_CRDT_TABLES[..|SPACE_SCOPED_CRDT_TABLES|] == SPACE_SCOPED_CRDT_TABLES;
    var sorted := SortByHlc(all);
    forall ch ensures ch in sorted <==> ch in all {
      assert ch in multiset(sorted) <==> ch in multiset(all);
    }
    return Some(sorted);
  }

  lemma {:induction false} WhitelistIsDistinct(i: nat)
    requires i < |SPACE_SCOPED_CRDT_TABLES|
    ensures SPACE_SCOPED_CRDT_TABLES[i] !in SPACE_SCOPED_CRDT_TABLES[..i]
  {
    forall j | 0 <= j < i ensures SPACE_SCOPED_CRDT_TABLES[j] != SPACE_SCOPED_CRDT_TABLES[i] {
      assert |SPACE_SCOPED_CRDT_TABLES[0]| == 18 && |SPACE_SCOPED_CRDT_TABLES[1]| == 18;
      assert SPACE_SCOPED_CRDT_TABLES[0][11] == 'd' && SPACE_SCOPED_CRDT_TABLES[1][11] == 'm';
      assert |SPACE_SCOPED_CRDT_TABLES[2]| == 16 && |SPACE_SCOPED_CRDT_TABLES[3]| == 18;
      assert SPACE_SCOPED_CRDT_TABLES[0][5] == 's' && SPACE_SCOPED_CRDT_TABLES[1][5] == 's';
      assert SPACE_SCOPED_CRDT_TABLES[3][5] == 'm';
      assert |SPACE_SCOPED_CRDT_TABLES[4]| == 27;
    }
  }

  predicate IsMembershipTable(ch: Change) {
    ch.table in MEMBERSHIP_SYSTEM_TABLES
  }

  lemma {:induction false} SelectKeepsOnce<K>(cs: seq<Change>, keyOf: Change -> K, k: K)
    ensures forall ch :: multiset(Select(cs, keyOf, k))[ch] <= multiset(cs)[ch]
  {
    if cs != [] {
      var n := |cs| - 1;
      assert cs == cs[..n] + [cs[n]];
      SelectKeepsOnce(cs[..n], keyOf, k);
    }
  }

  /** `scan_membership_tables_for_local_changes`: the space scan without the tables that need
      write permission, still failing where that scan fails. */
  method ScanMembership(db: Db, space: string, after: Option<Hlc>, origin: Option<nat>) returns (r: Option<seq<Change>>)
    ensures r.None? <==> exists table :: table in SPACE_SCOPED_CRDT_TABLES && Keyless(db, table)
    ensures r.Some? ==> Ascending(r.value)
    ensures r.Some? ==> forall ch :: ch in r.value <==>
      ch.table in SPACE_SCOPED_CRDT_TABLES && ch.table != "haex_peer_shares" && SchemaOf(db, ch.table) != []
      && Emits(db, ch.table, Query(after, Some(space), origin), ch)
    ensures r.Some? && TablesWellFormed(db, SPACE_SCOPED_CRDT_TABLES) ==> Once(r.value)
  {
    hide Rank;
    var all := ScanSpace(db, space, after, origin);
    if all.None? {
      return None;
    }
    SelectMembers(all.value, IsMembershipTable, true);
    SelectAscends(all.value, IsMembershipTable, true);
    SelectKeepsOnce(all.value, IsMembershipTable, true);
    MembershipIsWhitelisted();
    r := Some(Select(all.value, IsMembershipTable, true));
    if Once(all.value) {
      forall ch | ch in r.value ensures multiset(r.value)[ch] == 1 {
        assert ch in multiset(r.value) && multiset(all.value)[ch] == 1;
      }
    }
  }

  /** What every member may push is everything space-scoped but the shares. */
  lemma {:induction false} MembershipIsWhitelisted()
    ensures forall table :: table in MEMBERSHIP_SYSTEM_TABLES <==> table in SPACE_SCOPED_CRDT_TABLES && table != "haex_peer_shares"
  {
    assert |"haex_peer_shares"| == 16 && SPACE_SCOPED_CRDT_TABLES[2] == "haex_peer_shares";
    forall i | 0 <= i < |MEMBERSHIP_SYSTEM_TABLES|
      ensures MEMBERSHIP_SYSTEM_TABLES[i] in SPACE_SCOPED_CRDT_TABLES && |MEMBERSHIP_SYSTEM_TABLES[i]| != 16
    {
      assert MEMBERSHIP_SYSTEM_TABLES[i] == SPACE_SCOPED_CRDT_TABLES[if i < 2 then i else i + 1];
    }
    forall i | 0 <= i < |SPACE_SCOPED_CRDT_TABLES| && i != 2
      ensures SPACE_SCOPED_CRDT_TABLES[i] in MEMBERSHIP_SYSTEM_TABLES
    {
      assert SPACE_SCOPED_CRDT_TABLES[i] == MEMBERSHIP_SYSTEM_TABLES[if i < 2 then i else i - 1];
    }
  }

  /** What may cross a space: nothing of identities, backends, settings, tokens, or the delete log. */
  lemma {:induction false} SharedTables(table: Name)
    ensures table in SPACE_SCOPED_CRDT_TABLES <==>
            || table == "haex_space_devices" || table == "haex_space_members" || table == "haex_mls_sync_keys"
            || table == "haex_device_mls_enrollments" || table == "haex_peer_shares"
  {
    var all := SPACE_SCOPED_CRDT_TABLES;
    assert table in all <==> table == all[0] || table == all[1] || table == all[2] || table == all[3] || table == all[4];
  }

  /** What a space scan emits comes from a row of that space. */
  lemma {:induction false} EmittedRowIsInSpace(db: Db, table: Name, space: string, after: Option<Hlc>, origin: Option<nat>,
                                               ch: Change) returns (pk: Pk)
    requires Emits(db, table, Query(after, Some(space), origin), ch)
    ensures RowExists(db, table, pk) && ch.rowPks == KeyText(SchemaOf(db, table), pk)
    ensures var names := PkNames(SchemaOf(db, table));
            if "space_id" in names then exists i :: 0 <= i < |names| && i < |pk| && names[i] == "space_id" && pk[i] == Text(space)
            else CellAt(db, table, pk, "space_id").value == Text(space)
  {
    hide Rank, Lex;
    pk :| RowExists(db, table, pk)
          && EmitsFrom(SchemaOf(db, table), table, pk, TableOf(db, table)[pk], Query(after, Some(space), origin), ch);
  }

  // ---------------------------------------------------------------------------------------
  // The prefilter
  // ---------------------------------------------------------------------------------------

  /** The scan without the SQL prefilter: the numeric column filter alone. */
  ghost predicate EmitsUnfiltered(schema: Schema, table: Name, pk: Pk, row: Row, q: Query, ch: Change) {
    && InSpace(q, schema, pk, row)
    && ch.column in DataColumns(schema) && ColumnEmits(q, row, ch.column)
    && ch == ChangeOf(schema, table, pk, row, ch.column)
  }

  /** The row HLC is at least as new as every column's. */
  ghost predicate Dominated(schema: Schema, row: Row) {
    && row.rowHlc.Some?
    && forall c :: c in DataColumns(schema) && c in row.hlcs ==> Rank(row.hlcs[c]) <= Rank(row.rowHlc.value)
  }

  /** A row without an HLC is never emitted by a cursor scan, even where a column has one of its own. */
  lemma {:induction false} NullRowNeverPasses(schema: Schema, table: Name, pk: Pk, row: Row, q: Query, ch: Change)
    requires row.rowHlc == None && q.after.Some?
    ensures !EmitsFrom(schema, table, pk, row, q, ch)
  {
  }

  /** On a row whose HLC dominates its columns, with timestamps as wide as the cursor, the
      prefilter drops nothing the column filter would keep. */
  lemma {:induction false} PrefilterIsSafe(schema: Schema, table: Name, pk: Pk, row: Row, q: Query, ch: Change,
                                           timeWidth: nat, nodeWidth: nat)
    requires Dominated(schema, row) && FixedWidth(row.rowHlc.value, timeWidth, nodeWidth)
    requires q.after.Some? ==> FixedWidth(q.after.value, timeWidth, nodeWidth)
    ensures EmitsFrom(schema, table, pk, row, q, ch) <==> EmitsUnfiltered(schema, table, pk, row, q, ch)
  {
    if q.after.Some? {
      LexIsCompare(row.rowHlc.value, q.after.value, timeWidth, nodeWidth);
      CompareIsRank(row.rowHlc.value, q.after.value);
    }
  }

  /** The row is outside the space, or the column filter keeps none of its columns. */
  ghost predicate NothingToEmit(schema: Schema, pk: Pk, row: Row, q: Query) {
    InSpace(q, schema, pk, row) ==> forall c :: c in DataColumns(schema) ==> !ColumnEmits(q, row, c)
  }

  /** SQLite lets a row with a printed timestamp past a printed cursor exactly when being newer
      and coming out alike as text go together. */
  lemma {:induction false} PrefilterPasses(row: Row, q: Query, t: Timestamp, u: Timestamp)
    requires t.Valid() && u.Valid() && row.rowHlc == Some(Print(t)) && q.after == Some(Print(u))
    ensures Prefilter(q, row) <==> (CompareTimestamps(t, u) == Greater <==> TextOrderAgrees(t, u))
  {
    TextOrderIsNumeric(t, u);
  }

  /** At a cursor `u`, the prefilter loses no change of a row stamped `t` exactly when it lets the
      row pass or there is nothing to lose; on a row whose HLC dominates its columns, only the
      text order of `t` and `u` counts. */
  lemma {:induction false} PrefilterLosesNothing(schema: Schema, table: Name, pk: Pk, row: Row, q: Query,
                                                 t: Timestamp, u: Timestamp)
    requires t.Valid() && u.Valid() && row.rowHlc == Some(Print(t)) && q.after == Some(Print(u))
    ensures (forall ch :: EmitsUnfiltered(schema, table, pk, row, q, ch) ==> EmitsFrom(schema, table, pk, row, q, ch))
            <==> ((CompareTimestamps(t, u) == Greater <==> TextOrderAgrees(t, u)) || NothingToEmit(schema, pk, row, q))
    ensures Dominated(schema, row) ==>
            ((forall ch :: EmitsUnfiltered(schema, table, pk, row, q, ch) ==> EmitsFrom(schema, table, pk, row, q, ch))
             <==> TextOrderAgrees(t, u) || NothingToEmit(schema, pk, row, q))
  {
    PrefilterPasses(row, q, t, u);
    OrderIsomorphism(t, u);
    CompareIsRank(Print(t), Print(u));
    hide Rank;
    hide TextOrderAgrees;
    if !NothingToEmit(schema, pk, row, q) {
      var c :| c in DataColumns(schema) && ColumnEmits(q, row, c);
      assert EmitsUnfiltered(schema, table, pk, row, q, ChangeOf(schema, table, pk, row, c));
    }
  }
}
