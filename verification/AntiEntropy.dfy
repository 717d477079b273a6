/**
  Anti-entropy between two replicas: a full scan of A over some tables, and over one space or all
  of them, applied at B joins A's cells into B's, and a scan back makes the two agree on what
  either would scan next.
 */
module AntiEntropy {
  import opened Wrappers
  import opened HlcText
  import opened Store
  import Keys
  import opened Grouping
  import RowMerge
  import opened Apply
  import opened Convergence
  import opened Scanner

  /** What is exchanged: the tables scanned, and the space whose rows are, if only one. */
  datatype Scope = Scope(tables: set<Name>, space: Option<string>)

  function QueryOf(scope: Scope): Query {
    Query(None, scope.space, None)
  }

  /** What the scan of the scope's tables returns, in whatever order; for the whitelist and one
      space this is `Scanner.ScanSpace` without cursor and origin. */
  ghost predicate FullScan(db: Db, scope: Scope, cs: seq<Change>) {
    forall ch :: ch in cs <==>
      ch.table in scope.tables && SchemaOf(db, ch.table) != [] && Emits(db, ch.table, QueryOf(scope), ch)
  }

  /** The row is there and in scope. */
  predicate Sent(db: Db, scope: Scope, table: Name, pk: Pk) {
    table in scope.tables && RowExists(db, table, pk)
    && InSpace(QueryOf(scope), SchemaOf(db, table), pk, TableOf(db, table)[pk])
  }

  /** A cell as a scan shows it: under its own HLC, or under the row's where it has none. */
  function Shown(db: Db, table: Name, pk: Pk, c: Name): Cell {
    match RowAt(db, table, pk)
    case None => Cell(Null, "")
    case Some(row) => Cell(ValueIn(row.cells, c), match EffectiveHlc(row, c) case None => "" case Some(h) => h)
  }

  lemma {:induction false} OwnHlcIsShown(db: Db, table: Name, pk: Pk, c: Name)
    ensures Rank(CellAt(db, table, pk, c).hlc) > 0 ==> Shown(db, table, pk, c) == CellAt(db, table, pk, c)
    ensures Shown(db, table, pk, c).value == CellAt(db, table, pk, c).value
    ensures !RowExists(db, table, pk) ==> Shown(db, table, pk, c) == CellAt(db, table, pk, c)
  {
    EmptyIsOldest();
  }

  ghost predicate WellKeyed(db: Db, scope: Scope) {
    forall table :: table in scope.tables ==> KeysFit(db, table)
  }

  /** Every scanned column of every row in scope is shown under a timestamp, its own or the row's. */
  ghost predicate Dated(db: Db, scope: Scope) {
    forall table, pk, c :: Sent(db, scope, table, pk) && c in DataColumns(SchemaOf(db, table))
      ==> Rank(Shown(db, table, pk, c).hlc) > 0
  }

  /** No delete-log row is in scope; with the whitelist none ever is. */
  ghost predicate NoDeletesSent(db: Db, scope: Scope) {
    forall pk :: !Sent(db, scope, DELETED_ROWS_TABLE, pk)
  }

  ghost predicate Readable(db: Db, scope: Scope) {
    WellKeyed(db, scope) && Dated(db, scope)
  }

  ghost predicate Scannable(db: Db, scope: Scope) {
    Readable(db, scope) && NoDeletesSent(db, scope)
  }

  lemma {:induction false} ScannableIsReadable(db: Db, scope: Scope)
    requires Scannable(db, scope)
    ensures Readable(db, scope)
  {
  }

  /** One value per HLC, across the two replicas, for columns with an HLC of their own. */
  ghost predicate Consistent(a: Db, b: Db, scope: Scope) {
    forall table, pk, c :: Sent(a, scope, table, pk) && c in DataColumns(SchemaOf(a, table))
      && Rank(CellAt(a, table, pk, c).hlc) == Rank(CellAt(b, table, pk, c).hlc) > 0
      ==> CellAt(a, table, pk, c) == CellAt(b, table, pk, c)
  }

  function JoinCells(mine: Cell, theirs: Cell): Cell {
    if Newer(theirs.hlc, mine.hlc) then theirs else mine
  }

  // ---------------------------------------------------------------------------------------
  // What a full scan holds
  // ---------------------------------------------------------------------------------------

  /** The one change a scan emits for a cell. */
  function CellChange(db: Db, table: Name, pk: Pk, c: Name): Change {
    Change(table, KeyText(SchemaOf(db, table), pk), c, Shown(db, table, pk, c).hlc, Shown(db, table, pk, c).value)
  }

  lemma {:induction false} ScanHasCell(db: Db, scope: Scope, cs: seq<Change>, table: Name, pk: Pk, c: Name)
    requires FullScan(db, scope, cs) && Readable(db, scope)
    requires Sent(db, scope, table, pk) && c in DataColumns(SchemaOf(db, table))
    ensures CellChange(db, table, pk, c) in cs && Rank(Shown(db, table, pk, c).hlc) > 0
  {
    hide Rank, Lex, InSpace;
    EmptyIsOldest();
    var row := TableOf(db, table)[pk];
    assert Rank(Shown(db, table, pk, c).hlc) > 0;
    assert EmitsFrom(SchemaOf(db, table), table, pk, row, QueryOf(scope), CellChange(db, table, pk, c));
  }

  lemma {:induction false} ScanHasOnlyCells(db: Db, scope: Scope, cs: seq<Change>, ch: Change) returns (pk: Pk)
    requires FullScan(db, scope, cs) && Readable(db, scope) && ch in cs
    ensures SchemaOf(db, ch.table) != [] && Sent(db, scope, ch.table, pk)
    ensures ch.column in DataColumns(SchemaOf(db, ch.table)) && ch == CellChange(db, ch.table, pk, ch.column)
    ensures RowNamed(db, ch) == Some(pk) && |pk| == |PkNames(SchemaOf(db, ch.table))|
    ensures Keys.KeyNamed(PkNames(SchemaOf(db, ch.table)), ch.rowPks.fields)
  {
    hide Rank, Lex, InSpace;
    pk :| RowExists(db, ch.table, pk)
          && EmitsFrom(SchemaOf(db, ch.table), ch.table, pk, TableOf(db, ch.table)[pk], QueryOf(scope), ch);
    assert KeysFit(db, ch.table);
    KeyRoundTrip(PkNames(SchemaOf(db, ch.table)), pk);
  }

  lemma {:induction false} ScanMerges(a: Db, b: Db, scope: Scope, cs: seq<Change>)
    requires FullScan(a, scope, cs) && Readable(a, scope) && b.schemas == a.schemas
    ensures Mergeable(b, cs)
  {
    hide Rank, FullScan, Dated, WellKeyed;
    forall ch | ch in cs ensures WellNamed(b, ch) {
      var pk := ScanHasOnlyCells(a, scope, cs, ch);
    }
    forall x, y | x in cs && y in cs && RowKeyOf(x) == RowKeyOf(y) && x.column == y.column
      ensures x.value == y.value
    {
      var p := ScanHasOnlyCells(a, scope, cs, x);
      var q := ScanHasOnlyCells(a, scope, cs, y);
      assert RowNamed(a, x) == RowNamed(a, y);
    }
  }

  lemma {:induction false} ScanIsMergeable(a: Db, b: Db, scope: Scope, cs: seq<Change>)
    requires FullScan(a, scope, cs) && Scannable(a, scope) && b.schemas == a.schemas
    ensures Mergeable(b, cs) && NoDeletes(cs)
  {
    hide Rank, FullScan, Readable, Mergeable;
    ScanMerges(a, b, scope, cs);
    forall ch | ch in cs ensures ch.table != DELETED_ROWS_TABLE {
      var pk := ScanHasOnlyCells(a, scope, cs, ch);
    }
  }

  /** The change a scan emits for a cell names the cell's row, at any replica. */
  lemma {:induction false} SentNames(a: Db, b: Db, scope: Scope, table: Name, pk: Pk, c: Name)
    requires Readable(a, scope) && b.schemas == a.schemas && Sent(a, scope, table, pk) && SchemaOf(a, table) != []
    ensures RowNamed(b, CellChange(a, table, pk, c)) == Some(pk)
  {
    hide Rank, Dated, Shown, InSpace;
    assert KeysFit(a, table);
    KeyRoundTrip(PkNames(SchemaOf(a, table)), pk);
  }

  /** For one cell, A's scan holds A's cell if the row is in scope, and nothing else. */
  lemma {:induction false} ScanRelevant(a: Db, b: Db, scope: Scope, cs: seq<Change>, table: Name, pk: Pk, c: Name)
    requires FullScan(a, scope, cs) && Readable(a, scope) && b.schemas == a.schemas
    requires c in DataColumns(SchemaOf(a, table))
    ensures Relevant(b, cs, table, pk, c) == if Sent(a, scope, table, pk) then {CellChange(a, table, pk, c)} else {}
  {
    hide Rank, FullScan, Dated;
    forall ch | ch in Relevant(b, cs, table, pk, c)
      ensures Sent(a, scope, table, pk) && ch == CellChange(a, table, pk, c)
    {
      var p := ScanHasOnlyCells(a, scope, cs, ch);
      assert RowNamed(b, ch) == RowNamed(a, ch);
    }
    if Sent(a, scope, table, pk) {
      ScanHasCell(a, scope, cs, table, pk, c);
      SentNames(a, b, scope, table, pk, c);
    }
  }

  lemma {:induction false} ScanCreates(a: Db, b: Db, scope: Scope, cs: seq<Change>, table: Name, pk: Pk)
    requires FullScan(a, scope, cs) && Readable(a, scope) && b.schemas == a.schemas
    requires Sent(a, scope, table, pk) && DataColumns(SchemaOf(a, table)) != []
    ensures Creates(b, cs, table, pk)
  {
    hide Rank, FullScan, Readable, Sent, RowNamed, Shown, KeyText;
    var c := DataColumns(SchemaOf(a, table))[0];
    ScanHasCell(a, scope, cs, table, pk, c);
    SentNames(a, b, scope, table, pk, c);
    DataColumnsAreOrdinary(SchemaOf(a, table), c);
    var ch := CellChange(a, table, pk, c);
    assert ch in cs && RowNamed(b, ch) == Some(pk) && Rank(ch.hlc) > 0;
  }

  // ---------------------------------------------------------------------------------------
  // One direction
  // ---------------------------------------------------------------------------------------

  /** B after applying A's scan. B has A's rows in scope, and every scanned cell of them is the join
      of B's own cell and what A shows; all other rows are untouched; B can be scanned in turn. */
  ghost predicate Absorbed(a: Db, b: Db, after: Db, scope: Scope) {
    && after.schemas == a.schemas
    && (forall table, pk, c :: c in DataColumns(SchemaOf(a, table)) && Sent(a, scope, table, pk) ==>
          CellAt(after, table, pk, c) == JoinCells(CellAt(b, table, pk, c), Shown(a, table, pk, c)))
    && (forall table, pk :: !Sent(a, scope, table, pk) ==> RowAt(after, table, pk) == RowAt(b, table, pk))
    && (forall table, pk :: DataColumns(SchemaOf(a, table)) != [] && Sent(a, scope, table, pk) ==>
          RowExists(after, table, pk))
    && Scannable(after, scope)
  }

  lemma {:induction false} SettledByOne(before: Cell, after: Cell, ch: Change)
    requires RowMerge.Settled(before, after, {ch})
    ensures after == JoinCells(before, Cell(ch.value, ch.hlc))
  {
    assert ch in {ch};
  }

  lemma {:induction false} ScannedCell(a: Db, b: Db, scope: Scope, cs: seq<Change>, after: Db,
                                       table: Name, pk: Pk, c: Name)
    requires FullScan(a, scope, cs) && Readable(a, scope) && b.schemas == a.schemas && Joins(b, after, cs)
    requires c in DataColumns(SchemaOf(a, table)) && Sent(a, scope, table, pk)
    ensures CellAt(after, table, pk, c) == JoinCells(CellAt(b, table, pk, c), Shown(a, table, pk, c))
    ensures Rank(CellAt(after, table, pk, c).hlc) > 0
  {
    hide Rank, FullScan, Readable, Sent;
    DataColumnsAreOrdinary(SchemaOf(a, table), c);
    ScanRelevant(a, b, scope, cs, table, pk, c);
    ScanHasCell(a, scope, cs, table, pk, c);
    SettledByOne(CellAt(b, table, pk, c), CellAt(after, table, pk, c), CellChange(a, table, pk, c));
  }

  /** Rows out of A's scope stay as they are at B. */
  lemma {:induction false} UnscannedRow(a: Db, b: Db, scope: Scope, cs: seq<Change>, w: World, after: Db,
                                        table: Name, pk: Pk)
    requires FullScan(a, scope, cs) && Scannable(a, scope) && b.schemas == a.schemas
    requires ValidWorld(w) && Commits(b, cs, w, after)
    requires !Sent(a, scope, table, pk)
    ensures RowAt(after, table, pk) == RowAt(b, table, pk)
  {
    hide Rank, Commits, FullScan, Scannable, Sent;
    ScannableIsReadable(a, scope);
    ScanIsMergeable(a, b, scope, cs);
    forall ch | ch in cs ensures WellNamed(b, ch) && (ch.table != table || RowNamed(b, ch) != Some(pk)) {
      var p := ScanHasOnlyCells(a, scope, cs, ch);
      assert RowNamed(b, ch) == RowNamed(a, ch);
    }
    CommitLeavesOthers(b, cs, w, after, table, pk);
  }

  /** A table with a space column that is no key column scans it as data. */
  lemma {:induction false} SpaceIsData(schema: Schema)
    requires SPACE_ID_COLUMN in ColumnNames(schema) && SPACE_ID_COLUMN !in PkNames(schema)
    ensures SPACE_ID_COLUMN in DataColumns(schema)
  {
    var i :| 0 <= i < |schema| && schema[i].name == SPACE_ID_COLUMN;
    if i > 0 {
      assert schema[1..][i - 1].name == SPACE_ID_COLUMN;
      SpaceIsData(schema[1..]);
    } else {
      assert |SPACE_ID_COLUMN| == 8 && SPACE_ID_COLUMN[0] == 's' && HLC_TIMESTAMP_COLUMN[0] == 'h';
      assert |COLUMN_HLCS_COLUMN| > 8;
      assert forall k :: 0 <= k < |EXCLUDED_SYNC_COLUMNS| ==> |EXCLUDED_SYNC_COLUMNS[k]| > 8;
    }
  }

  lemma {:induction false} DatedAfter(a: Db, b: Db, scope: Scope, cs: seq<Change>, w: World, after: Db,
                                      table: Name, pk: Pk, c: Name)
    requires FullScan(a, scope, cs) && Scannable(a, scope) && Scannable(b, scope)
    requires b.schemas == a.schemas && Joins(b, after, cs)
    requires ValidWorld(w) && Commits(b, cs, w, after)
    requires Sent(after, scope, table, pk) && c in DataColumns(SchemaOf(after, table))
    ensures Rank(Shown(after, table, pk, c).hlc) > 0
  {
    hide Rank, FullScan, Commits, InSpace;
    if Sent(a, scope, table, pk) {
      ScannedCell(a, b, scope, cs, after, table, pk, c);
      OwnHlcIsShown(after, table, pk, c);
    } else {
      UnscannedRow(a, b, scope, cs, w, after, table, pk);
      assert Sent(b, scope, table, pk) && Shown(after, table, pk, c) == Shown(b, table, pk, c);
    }
  }

  lemma {:induction false} KeysFitAfter(a: Db, b: Db, scope: Scope, cs: seq<Change>, w: World, after: Db, table: Name)
    requires FullScan(a, scope, cs) && Scannable(a, scope) && Scannable(b, scope)
    requires b.schemas == a.schemas && after.schemas == a.schemas && table in scope.tables
    requires ValidWorld(w) && Commits(b, cs, w, after)
    ensures KeysFit(after, table)
  {
    hide Rank, FullScan, Commits, Dated, InSpace;
    assert KeysFit(a, table) && KeysFit(b, table);
    forall pk | SchemaOf(after, table) != [] && RowExists(after, table, pk)
      ensures |pk| == |PkNames(SchemaOf(after, table))|
    {
      if !Sent(a, scope, table, pk) {
        UnscannedRow(a, b, scope, cs, w, after, table, pk);
      }
    }
  }

  /** What B becomes can be scanned again. */
  lemma {:induction false} ScannableAfter(a: Db, b: Db, scope: Scope, cs: seq<Change>, w: World, after: Db)
    requires FullScan(a, scope, cs) && Scannable(a, scope) && Scannable(b, scope)
    requires b.schemas == a.schemas && Joins(b, after, cs)
    requires ValidWorld(w) && Commits(b, cs, w, after)
    ensures Scannable(after, scope)
  {
    hide Rank, FullScan, Commits, KeysFit, InSpace;
    forall table | table in scope.tables ensures KeysFit(after, table) {
      KeysFitAfter(a, b, scope, cs, w, after, table);
    }
    forall table, pk, c | Sent(after, scope, table, pk) && c in DataColumns(SchemaOf(after, table))
      ensures Rank(Shown(after, table, pk, c).hlc) > 0
    {
      DatedAfter(a, b, scope, cs, w, after, table, pk, c);
    }
    forall pk ensures !Sent(after, scope, DELETED_ROWS_TABLE, pk) {
      UnscannedRow(a, b, scope, cs, w, after, DELETED_ROWS_TABLE, pk);
      assert !Sent(b, scope, DELETED_ROWS_TABLE, pk);
      assert SchemaOf(after, DELETED_ROWS_TABLE) == SchemaOf(b, DELETED_ROWS_TABLE);
    }
  }

  lemma {:induction false} ScanAppliedIsJoin(a: Db, b: Db, scope: Scope, cs: seq<Change>, w: World, after: Db)
    requires FullScan(a, scope, cs) && Scannable(a, scope) && Scannable(b, scope)
    requires b.schemas == a.schemas
    requires ValidWorld(w) && NoConflicts(w) && Commits(b, cs, w, after)
    ensures Absorbed(a, b, after, scope)
  {
    hide Rank, FullScan, Scannable, Commits, Sent;
    ScannableIsReadable(a, scope);
    ScanIsMergeable(a, b, scope, cs);
    CommitJoins(b, cs, w, after);
    ScannableAfter(a, b, scope, cs, w, after);
    forall table, pk, c | c in DataColumns(SchemaOf(a, table)) && Sent(a, scope, table, pk)
      ensures CellAt(after, table, pk, c) == JoinCells(CellAt(b, table, pk, c), Shown(a, table, pk, c))
    {
      ScannedCell(a, b, scope, cs, after, table, pk, c);
    }
    forall table, pk | !Sent(a, scope, table, pk) ensures RowAt(after, table, pk) == RowAt(b, table, pk) {
      UnscannedRow(a, b, scope, cs, w, after, table, pk);
    }
    forall table, pk | DataColumns(SchemaOf(a, table)) != [] && Sent(a, scope, table, pk)
      ensures RowExists(after, table, pk)
    {
      ScanCreates(a, b, scope, cs, table, pk);
    }
  }

  /** After the exchange A's row is in scope at B too, exactly unless B had it out of scope and A's
      space is not newer. */
  lemma {:induction false} StaysInScope(a: Db, b: Db, scope: Scope, after: Db, table: Name, pk: Pk)
    requires Absorbed(a, b, after, scope) && Scannable(a, scope) && b.schemas == a.schemas
    requires Sent(a, scope, table, pk) && DataColumns(SchemaOf(a, table)) != []
    ensures Sent(after, scope, table, pk) <==>
            || !RowExists(b, table, pk) || Sent(b, scope, table, pk)
            || Newer(Shown(a, table, pk, SPACE_ID_COLUMN).hlc, CellAt(b, table, pk, SPACE_ID_COLUMN).hlc)
  {
    hide Rank;
    EmptyIsOldest();
    var schema := SchemaOf(a, table);
    assert RowExists(after, table, pk);
    if scope.space.Some? && SPACE_ID_COLUMN !in PkNames(schema) {
      SpaceIsData(schema);
      OwnHlcIsShown(a, table, pk, SPACE_ID_COLUMN);
      assert Rank(Shown(a, table, pk, SPACE_ID_COLUMN).hlc) > 0;
    }
  }

  /** For a row that A sends or does not have, what B shows afterwards is the join of what both
      showed before, exactly unless B shows a column under the row's HLC only and A's, not newer,
      differs: a column without an HLC of its own yields to any change. */
  lemma {:induction false} ShownJoin(a: Db, b: Db, scope: Scope, after: Db, table: Name, pk: Pk, c: Name)
    requires Absorbed(a, b, after, scope) && Scannable(a, scope) && c in DataColumns(SchemaOf(a, table))
    requires RowExists(a, table, pk) ==> Sent(a, scope, table, pk)
    ensures var mine, theirs := Shown(b, table, pk, c), Shown(a, table, pk, c);
            Shown(after, table, pk, c) == JoinCells(mine, theirs)
            <==> || !RowExists(a, table, pk) || !RowExists(b, table, pk)
                 || Rank(CellAt(b, table, pk, c).hlc) > 0
                 || Newer(theirs.hlc, mine.hlc) || theirs == mine
  {
    hide Rank, InSpace;
    EmptyIsOldest();
    OwnHlcIsShown(a, table, pk, c);
    OwnHlcIsShown(b, table, pk, c);
    OwnHlcIsShown(after, table, pk, c);
    if RowExists(a, table, pk) {
      assert Rank(Shown(a, table, pk, c).hlc) > 0;
    }
  }

  // ---------------------------------------------------------------------------------------
  // There and back
  // ---------------------------------------------------------------------------------------

  /** In tables with scanned columns the two replicas have the same rows in scope, and show the same
      value under the same HLC in every scanned column of them. */
  ghost predicate Agree(a: Db, b: Db, scope: Scope) {
    && (forall table, pk, c :: c in DataColumns(SchemaOf(a, table)) && Sent(a, scope, table, pk) ==>
          Shown(a, table, pk, c) == Shown(b, table, pk, c))
    && (forall table, pk :: DataColumns(SchemaOf(a, table)) != [] ==>
          (Sent(a, scope, table, pk) <==> Sent(b, scope, table, pk)))
  }

  /** When a round makes the replicas agree on a row. Only a row that both have, and that is in scope
      at one of them only, can fail: sent by A, its space must be newer than B's; sent by B, which
      A's scan did not reach, B's cells must all win over A's. */
  ghost predicate RowMeets(a: Db, b: Db, scope: Scope, table: Name, pk: Pk) {
    RowExists(a, table, pk) && RowExists(b, table, pk) ==>
      && (Sent(a, scope, table, pk) && !Sent(b, scope, table, pk) ==>
            Newer(Shown(a, table, pk, SPACE_ID_COLUMN).hlc, CellAt(b, table, pk, SPACE_ID_COLUMN).hlc))
      && (!Sent(a, scope, table, pk) && Sent(b, scope, table, pk) ==>
            forall c :: c in DataColumns(SchemaOf(a, table)) ==>
              CellYields(CellAt(a, table, pk, c), Shown(b, table, pk, c)))
  }

  predicate CellYields(mine: Cell, theirs: Cell) {
    Newer(theirs.hlc, mine.hlc) || mine == theirs
  }

  ghost predicate RowAgrees(a: Db, b: Db, scope: Scope, table: Name, pk: Pk) {
    && (Sent(a, scope, table, pk) <==> Sent(b, scope, table, pk))
    && (Sent(a, scope, table, pk) ==>
          forall c :: c in DataColumns(SchemaOf(a, table)) ==> Shown(a, table, pk, c) == Shown(b, table, pk, c))
  }

  /** One round of scanning and applying in both directions. */
  lemma {:induction false} AntiEntropyRound(a: Db, b: Db, scope: Scope, forth: seq<Change>, w: World, b': Db,
                                            back: seq<Change>, w': World, a': Db)
    requires Scannable(a, scope) && Scannable(b, scope) && b.schemas == a.schemas && Consistent(a, b, scope)
    requires ValidWorld(w) && NoConflicts(w) && FullScan(a, scope, forth) && Commits(b, forth, w, b')
    requires ValidWorld(w') && NoConflicts(w') && FullScan(b', scope, back) && Commits(a, back, w', a')
    ensures Absorbed(a, b, b', scope) && Absorbed(b', a, a', scope)
    ensures Agree(a', b', scope) <==>
            forall table, pk :: DataColumns(SchemaOf(a, table)) != [] ==> RowMeets(a, b, scope, table, pk)
  {
    hide Rank, FullScan, Commits, Scannable, Sent, Consistent, RowMeets;
    ScanAppliedIsJoin(a, b, scope, forth, w, b');
    ScanAppliedIsJoin(b', a, scope, back, w', a');
    forall table, pk | DataColumns(SchemaOf(a, table)) != []
      ensures RowAgrees(a', b', scope, table, pk) <==> RowMeets(a, b, scope, table, pk)
    {
      RoundRow(a, b, scope, b', a', table, pk);
    }
    assert Agree(a', b', scope) <==>
           forall table, pk :: DataColumns(SchemaOf(a, table)) != [] ==> RowAgrees(a', b', scope, table, pk) by {
      AgreeByRows(a', b', scope);
    }
  }

  lemma {:induction false} AgreeByRows(a: Db, b: Db, scope: Scope)
    ensures Agree(a, b, scope) <==>
            forall table, pk :: DataColumns(SchemaOf(a, table)) != [] ==> RowAgrees(a, b, scope, table, pk)
  {
    hide Sent, Rank;
    if forall table, pk :: DataColumns(SchemaOf(a, table)) != [] ==> RowAgrees(a, b, scope, table, pk) {
      forall table, pk, c | c in DataColumns(SchemaOf(a, table)) && Sent(a, scope, table, pk)
        ensures Shown(a, table, pk, c) == Shown(b, table, pk, c)
      {
        assert RowAgrees(a, b, scope, table, pk);
      }
      forall table, pk | DataColumns(SchemaOf(a, table)) != []
        ensures Sent(a, scope, table, pk) <==> Sent(b, scope, table, pk)
      {
        assert RowAgrees(a, b, scope, table, pk);
      }
    }
  }

  lemma {:induction false} RoundRow(a: Db, b: Db, scope: Scope, b': Db, a': Db, table: Name, pk: Pk)
    requires Scannable(a, scope) && Scannable(b, scope) && b.schemas == a.schemas && Consistent(a, b, scope)
    requires Absorbed(a, b, b', scope) && Absorbed(b', a, a', scope) && DataColumns(SchemaOf(a, table)) != []
    ensures RowAgrees(a', b', scope, table, pk) <==> RowMeets(a, b, scope, table, pk)
  {
    hide Rank, InSpace;
    if Sent(a, scope, table, pk) {
      StaysInScope(a, b, scope, b', table, pk);
      if Sent(b', scope, table, pk) {
        StaysInScope(b', a, scope, a', table, pk);
        forall c | c in DataColumns(SchemaOf(a, table)) ensures Shown(a', table, pk, c) == Shown(b', table, pk, c) {
          RoundCell(a, b, scope, b', a', table, pk, c);
        }
      }
    } else if Sent(b, scope, table, pk) {
      assert RowAt(b', table, pk) == RowAt(b, table, pk);
      StaysInScope(b', a, scope, a', table, pk);
      OneWayRow(a, b, scope, b', a', table, pk);
    } else {
      assert RowAt(b', table, pk) == RowAt(b, table, pk);
      assert RowAt(a', table, pk) == RowAt(a, table, pk);
    }
  }

  /** A row that only B sends: A takes over what is newer. */
  lemma {:induction false} OneWayRow(a: Db, b: Db, scope: Scope, b': Db, a': Db, table: Name, pk: Pk)
    requires Scannable(b, scope) && b.schemas == a.schemas && a'.schemas == a.schemas
    requires DataColumns(SchemaOf(a, table)) != []
    requires !Sent(a, scope, table, pk) && Sent(b, scope, table, pk) && RowAt(b', table, pk) == RowAt(b, table, pk)
    requires b'.schemas == b.schemas && Absorbed(b', a, a', scope)
    requires Sent(a', scope, table, pk) <==>
             || !RowExists(a, table, pk) || Sent(a, scope, table, pk)
             || Newer(Shown(b', table, pk, SPACE_ID_COLUMN).hlc, CellAt(a, table, pk, SPACE_ID_COLUMN).hlc)
    ensures RowAgrees(a', b', scope, table, pk) <==> RowMeets(a, b, scope, table, pk)
  {
    hide Rank;
    EmptyIsOldest();
    forall c | c in DataColumns(SchemaOf(a, table))
      ensures Shown(a', table, pk, c) == Shown(b', table, pk, c)
              <==> CellYields(CellAt(a, table, pk, c), Shown(b, table, pk, c))
    {
      OwnHlcIsShown(a', table, pk, c);
      assert Rank(Shown(b, table, pk, c).hlc) > 0;
    }
    if RowExists(a, table, pk) && scope.space.Some? && SPACE_ID_COLUMN !in PkNames(SchemaOf(a, table)) {
      SpaceIsData(SchemaOf(a, table));
      OwnHlcIsShown(b, table, pk, SPACE_ID_COLUMN);
    }
  }

  lemma {:induction false} RoundCell(a: Db, b: Db, scope: Scope, b': Db, a': Db, table: Name, pk: Pk, c: Name)
    requires Scannable(a, scope) && b.schemas == a.schemas && Consistent(a, b, scope)
    requires Absorbed(a, b, b', scope) && Absorbed(b', a, a', scope)
    requires c in DataColumns(SchemaOf(a, table)) && Sent(a, scope, table, pk) && Sent(b', scope, table, pk)
    ensures Shown(a', table, pk, c) == Shown(b', table, pk, c)
  {
    hide Rank, InSpace;
    EmptyIsOldest();
    OwnHlcIsShown(a, table, pk, c);
    OwnHlcIsShown(b', table, pk, c);
    OwnHlcIsShown(a', table, pk, c);
    assert Rank(Shown(b', table, pk, c).hlc) > 0;
    assert Rank(Shown(a, table, pk, c).hlc) > 0;
  }

  /** Without a space filter every row meets, so a round always makes the replicas agree. */
  lemma {:induction false} AllSpacesMeet(a: Db, b: Db, tables: set<Name>, table: Name, pk: Pk)
    ensures RowMeets(a, b, Scope(tables, None), table, pk)
  {
  }

  /** The whitelist of space-scoped tables sends no deletes. */
  lemma {:induction false} WhitelistSendsNoDeletes(db: Db, space: Option<string>)
    ensures NoDeletesSent(db, Scope((set t | t in SPACE_SCOPED_CRDT_TABLES), space))
  {
    assert |DELETED_ROWS_TABLE| == 17;
    assert forall i :: 0 <= i < |SPACE_SCOPED_CRDT_TABLES| ==> |SPACE_SCOPED_CRDT_TABLES[i]| != 17;
  }
}
