/**
  A delete end to end: deleted at one replica, logged by the trigger, found by the scan, applied at
  another replica and propagated there.
 */
module DeleteSync {
  import opened Wrappers
  import opened HlcText
  import opened Store
  import Triggers
  import opened Grouping
  import opened RowMerge
  import opened Apply
  import opened Convergence
  import Keys
  import opened Scanner
  import opened LocalRuns
  import opened Deletes
  import opened AntiEntropy

  /** The delete log's columns: an `id` key, and the two texts among the synced columns. */
  predicate LogColumns(db: Db) {
    LogKeyed(db) && "table_name" in DataColumns(SchemaOf(db, DELETED_ROWS_TABLE))
    && "row_pks" in DataColumns(SchemaOf(db, DELETED_ROWS_TABLE))
  }

  /** No log row names the log itself. */
  ghost predicate LogIsSane(db: Db) {
    forall pk :: CellAt(db, DELETED_ROWS_TABLE, pk, "table_name").value != Text(DELETED_ROWS_TABLE)
  }

  /** What the statement of a local delete has to satisfy for its entry to be read back. */
  ghost predicate Deletable(db: Db, op: Op) {
    && db.triggersOn && op.Delete? && op.table != DELETED_ROWS_TABLE && RowExists(db, op.table, op.pk)
    && IsSafeIdentifier(op.table) && PkNames(SchemaOf(db, op.table)) != []
    && Distinct(PkNames(SchemaOf(db, op.table))) && |op.pk| == |PkNames(SchemaOf(db, op.table))|
    && forall c :: c in PkNames(SchemaOf(db, op.table)) ==> IsSafeIdentifier(c)
  }

  /** The changes to one row all carry its HLC. */
  lemma {:induction false} NewRowHlc(db: Db, w: World, gs: seq<Group<RowKey>>, table: Name, pk: Pk, hlc: Hlc)
    requires RowLists(gs) && !db.triggersOn && ApplyRows(db, w, gs).Some?
    requires forall ch :: ch in Flatten(gs) ==> WellNamed(db, ch)
    requires forall ch :: ch in Flatten(gs) && ch.table == table && RowNamed(db, ch) == Some(pk) ==> ch.hlc == hlc
    requires !RowExists(db, table, pk)
    ensures var end := ApplyRows(db, w, gs).value;
            SameSetting(db, end) && (RowExists(end, table, pk) ==> TableOf(end, table)[pk].rowHlc == Some(hlc))
  {
    hide Rank, ApplyRow;
    if gs != [] {
      var n := |gs| - 1;
      var mid, list := ApplyRows(db, w, gs[..n]).value, gs[n].members;
      NewRowHlc(db, w, gs[..n], table, pk, hlc);
      RowFrame(mid, w, list);
      assert list[0] in Flatten(gs);
      assert WellNamed(mid, list[0]) by {
        assert WellNamed(db, list[0]);
      }
      if list[0].table == table && RowNamed(db, list[0]) == Some(pk) {
        GroupHlc(mid, w, list, table, pk, hlc);
      } else {
        assert RowNamed(mid, list[0]) == RowNamed(db, list[0]);
        RowLeavesOthers(mid, w, list, table, pk);
      }
    }
  }

  lemma {:induction false} GroupHlc(db: Db, w: World, list: seq<Change>, table: Name, pk: Pk, hlc: Hlc)
    requires OneRow(list) && !db.triggersOn && ApplyRow(db, w, list).Some?
    requires list[0].table == table && RowNamed(db, list[0]) == Some(pk)
    requires forall ch :: ch in list ==> ch.hlc == hlc
    requires RowExists(db, table, pk) ==> TableOf(db, table)[pk].rowHlc == Some(hlc)
    ensures RowExists(ApplyRow(db, w, list).value, table, pk)
            ==> TableOf(ApplyRow(db, w, list).value, table)[pk].rowHlc == Some(hlc)
  {
    hide Rank, ApplyRow, MergeAll, Keys.InsertPk;
    GroupWrites(db, w, list, table, pk);
    assert list[0] in list;
    if SchemaOf(db, table) != [] {
      MergeFacts(ColumnNames(SchemaOf(db, table)), StartMerge(RowAt(db, table, pk), list[0]), list);
    }
  }

  /** A's log row, as applied at B. */
  lemma {:induction false} LogRowArrives(a: Db, op: Op, b: Db, scope: Scope, cs: seq<Change>, w: World,
                                         gs: seq<Group<RowKey>>, mid: Db)
    requires op.Delete? && Deletable(a, op) && LogColumns(a) && b.schemas == a.schemas && Rank(op.hlc) > 0
    requires Readable(Exec(a, op), scope) && scope.space == None && DELETED_ROWS_TABLE in scope.tables
    requires FullScan(Exec(a, op), scope, cs) && RowGrouping(cs, gs)
    requires NoConflicts(w) && !b.triggersOn && ApplyRows(b, w, gs) == Some(mid)
    requires !RowExists(b, DELETED_ROWS_TABLE, [Text(op.logId)])
    ensures mid.schemas == b.schemas && Announced(mid, cs, op.logId)
    ensures var e := ReadEntry(mid, op.logId); Targets(mid, e, op.table, op.pk) && e.hlc == op.hlc
    ensures Joins(b, mid, cs)
  {
    hide Rank, FullScan, Readable, ApplyRows, RowGrouping, Exec, Sent, ReadEntry, Mergeable, Deletable, Joins;
    var a' := Exec(a, op);
    var key := [Text(op.logId)];
    ExecFrame(a, op);
    SameMembers(cs, gs);
    ScanMerges(a', b, scope, cs);
    MergeableLater(b, b, cs, Flatten(gs));
    RowsJoin(b, w, gs);
    JoinsSameElements(b, mid, Flatten(gs), cs);
    LogRowAtA(a, op);
    assert Sent(a', scope, DELETED_ROWS_TABLE, key) by {
      LogRowIsSent(a, op, scope);
    }
    LogCells(a, op, b, scope, cs, mid);
    LogHlc(a, op, b, scope, cs, w, gs, mid);
    LogEntryReads(a, op, mid);
    SentNames(a', mid, scope, DELETED_ROWS_TABLE, key, "table_name");
    ScanHasCell(a', scope, cs, DELETED_ROWS_TABLE, key, "table_name");
    assert CellChange(a', DELETED_ROWS_TABLE, key, "table_name") in cs;
  }

  lemma {:induction false} LogRowAtA(a: Db, op: Op)
    requires op.Delete? && Deletable(a, op)
    ensures RowAt(Exec(a, op), DELETED_ROWS_TABLE, [Text(op.logId)]) == Some(Triggers.LogRow(a, op.table, op.pk, op.hlc))
    ensures Exec(a, op).schemas == a.schemas
  {
    hide Exec;
    ExecRow(a, op, DELETED_ROWS_TABLE, [Text(op.logId)]);
    ExecFrame(a, op);
  }

  lemma {:induction false} LogRowIsSent(a: Db, op: Op, scope: Scope)
    requires op.Delete? && Deletable(a, op) && scope.space == None && DELETED_ROWS_TABLE in scope.tables
    ensures Sent(Exec(a, op), scope, DELETED_ROWS_TABLE, [Text(op.logId)])
  {
    hide Exec, Deletable;
    LogRowAtA(a, op);
  }

  /** What A shows of its log row. */
  lemma {:induction false} LogRowShown(a: Db, op: Op, c: Name)
    requires op.Delete? && Deletable(a, op) && LogColumns(a) && c in DataColumns(SchemaOf(a, DELETED_ROWS_TABLE))
    ensures Shown(Exec(a, op), DELETED_ROWS_TABLE, [Text(op.logId)], c)
            == Cell(ValueIn(Triggers.LogRow(a, op.table, op.pk, op.hlc).cells, c), op.hlc)
  {
    hide Exec, Deletable;
    LogRowAtA(a, op);
    TrackedIsScanned(SchemaOf(a, DELETED_ROWS_TABLE));
    assert c in Triggers.Tracked(a, DELETED_ROWS_TABLE);
  }

  lemma {:induction false} LogCells(a: Db, op: Op, b: Db, scope: Scope, cs: seq<Change>, mid: Db)
    requires op.Delete? && Deletable(a, op) && LogColumns(a) && b.schemas == a.schemas
    requires Readable(Exec(a, op), scope) && Sent(Exec(a, op), scope, DELETED_ROWS_TABLE, [Text(op.logId)])
    requires FullScan(Exec(a, op), scope, cs) && Joins(b, mid, cs)
    requires !RowExists(b, DELETED_ROWS_TABLE, [Text(op.logId)])
    ensures forall c :: c == "table_name" || c == "row_pks" ==>
              CellAt(mid, DELETED_ROWS_TABLE, [Text(op.logId)], c)
              == Cell(ValueIn(Triggers.LogRow(a, op.table, op.pk, op.hlc).cells, c), op.hlc)
    ensures RowExists(mid, DELETED_ROWS_TABLE, [Text(op.logId)])
  {
    hide Rank, FullScan, Readable, Exec, Sent, Deletable, Triggers.LogRow, Joins;
    EmptyIsOldest();
    ExecFrame(a, op);
    var a', key := Exec(a, op), [Text(op.logId)];
    forall c | c == "table_name" || c == "row_pks"
      ensures CellAt(mid, DELETED_ROWS_TABLE, key, c)
              == Cell(ValueIn(Triggers.LogRow(a, op.table, op.pk, op.hlc).cells, c), op.hlc)
    {
      ScannedCell(a', b, scope, cs, mid, DELETED_ROWS_TABLE, key, c);
      ScanHasCell(a', scope, cs, DELETED_ROWS_TABLE, key, c);
      LogRowShown(a, op, c);
    }
    ScanCreates(a', b, scope, cs, DELETED_ROWS_TABLE, key);
    JoinsCreates(b, mid, cs, DELETED_ROWS_TABLE, key);
  }

  lemma {:induction false} JoinsCreates(b: Db, mid: Db, cs: seq<Change>, table: Name, pk: Pk)
    requires Joins(b, mid, cs) && Creates(b, cs, table, pk)
    ensures RowExists(mid, table, pk)
  {
    hide Rank, RowNamed;
    assert SchemaOf(b, table) != [];
  }

  lemma {:induction false} LogHlc(a: Db, op: Op, b: Db, scope: Scope, cs: seq<Change>, w: World,
                                  gs: seq<Group<RowKey>>, mid: Db)
    requires op.Delete? && Deletable(a, op) && LogColumns(a) && b.schemas == a.schemas
    requires Readable(Exec(a, op), scope) && FullScan(Exec(a, op), scope, cs) && RowGrouping(cs, gs)
    requires !b.triggersOn && ApplyRows(b, w, gs) == Some(mid) && RowLists(gs)
    requires !RowExists(b, DELETED_ROWS_TABLE, [Text(op.logId)]) && RowExists(mid, DELETED_ROWS_TABLE, [Text(op.logId)])
    ensures TableOf(mid, DELETED_ROWS_TABLE)[[Text(op.logId)]].rowHlc == Some(op.hlc) && mid.schemas == b.schemas
  {
    hide Rank, FullScan, Readable, Exec, Sent, Deletable, Triggers.LogRow, ApplyRows, RowGrouping, LogColumns;
    var a', key := Exec(a, op), [Text(op.logId)];
    ExecFrame(a, op);
    SameMembers(cs, gs);
    ScanMerges(a', b, scope, cs);
    forall ch | ch in Flatten(gs) && ch.table == DELETED_ROWS_TABLE && RowNamed(b, ch) == Some(key)
      ensures ch.hlc == op.hlc
    {
      var p := ScanHasOnlyCells(a', scope, cs, ch);
      assert RowNamed(b, ch) == RowNamed(a', ch);
      LogRowShown(a, op, ch.column);
    }
    NewRowHlc(b, w, gs, DELETED_ROWS_TABLE, key, op.hlc);
  }

  lemma {:induction false} LogEntryReads(a: Db, op: Op, mid: Db)
    requires op.Delete? && Deletable(a, op) && mid.schemas == a.schemas && RowExists(mid, DELETED_ROWS_TABLE, [Text(op.logId)])
    requires TableOf(mid, DELETED_ROWS_TABLE)[[Text(op.logId)]].rowHlc == Some(op.hlc)
    requires forall c :: c == "table_name" || c == "row_pks" ==>
              CellAt(mid, DELETED_ROWS_TABLE, [Text(op.logId)], c)
              == Cell(ValueIn(Triggers.LogRow(a, op.table, op.pk, op.hlc).cells, c), op.hlc)
    ensures var e := ReadEntry(mid, op.logId); Targets(mid, e, op.table, op.pk) && e.hlc == op.hlc
  {
    hide Triggers.KeyFields;
    var names := PkNames(SchemaOf(a, op.table));
    KeyRoundTrip(names, op.pk);
    KeyFieldsNameKeys(names, op.pk);
    var row := TableOf(mid, DELETED_ROWS_TABLE)[[Text(op.logId)]];
    var cells := Triggers.LogRow(a, op.table, op.pk, op.hlc).cells;
    assert |"table_name"| != |"row_pks"|;
    assert cells["table_name"] == Text(op.table) && cells["row_pks"] == Json(ObjectText(Triggers.KeyFields(names, op.pk), ""));
    assert ValueIn(row.cells, "table_name") == Text(op.table) by {
      assert CellAt(mid, DELETED_ROWS_TABLE, [Text(op.logId)], "table_name").value == ValueIn(row.cells, "table_name");
    }
    assert ValueIn(row.cells, "row_pks") == cells["row_pks"] by {
      assert CellAt(mid, DELETED_ROWS_TABLE, [Text(op.logId)], "row_pks").value == ValueIn(row.cells, "row_pks");
    }
    assert ReadEntry(mid, op.logId) == Entry(op.table, Triggers.KeyFields(names, op.pk), op.hlc);
  }

  /** The logs of both replicas being sane, so is what the exchange leaves. */
  lemma {:induction false} LogStaysSane(a: Db, b: Db, scope: Scope, cs: seq<Change>, mid: Db, id: Name)
    requires FullScan(a, scope, cs) && Readable(a, scope) && b.schemas == a.schemas && Joins(b, mid, cs)
    requires LogIsSane(a) && LogIsSane(b) && LogColumns(a)
    ensures ReadEntry(mid, id).Entry? ==> ReadEntry(mid, id).table != DELETED_ROWS_TABLE
  {
    hide Rank, FullScan, Readable, Sent;
    var key, c := [Text(id)], "table_name";
    ScanRelevant(a, b, scope, cs, DELETED_ROWS_TABLE, key, c);
    DataColumnsAreOrdinary(SchemaOf(a, DELETED_ROWS_TABLE), c);
    OwnHlcIsShown(a, DELETED_ROWS_TABLE, key, c);
    assert Settled(CellAt(b, DELETED_ROWS_TABLE, key, c), CellAt(mid, DELETED_ROWS_TABLE, key, c),
                   Relevant(b, cs, DELETED_ROWS_TABLE, key, c));
    assert CellAt(mid, DELETED_ROWS_TABLE, key, c).value != Text(DELETED_ROWS_TABLE);
  }

  /** A row deleted at A, whose scan with the delete log is applied at B, is gone at B afterwards,
      unless it was written after the delete, or the DELETE failed. */
  lemma {:induction false} DeleteReachesReplica(a: Db, op: Op, b: Db, scope: Scope, cs: seq<Change>, w: World, b': Db)
    requires op.Delete? && Deletable(a, op) && LogColumns(a) && b.schemas == a.schemas && Rank(op.hlc) > 0
    requires LogIsSane(Exec(a, op)) && LogIsSane(b)
    requires Readable(Exec(a, op), scope) && scope.space == None && DELETED_ROWS_TABLE in scope.tables
    requires FullScan(Exec(a, op), scope, cs)
    requires !RowExists(b, DELETED_ROWS_TABLE, [Text(op.logId)])
    requires ValidWorld(w) && NoConflicts(w) && Commits(b, cs, w, b')
    ensures RowExists(b', op.table, op.pk) ==>
              w.deleteFails(op.logId) || WrittenAfter(TableOf(b', op.table)[op.pk], op.hlc)
  {
    hide Rank, FullScan, Readable, ApplyRows, RowGrouping, Exec, Sent, ReadEntry, Deletable, PropagateAll, RowNamed;
    hide LogIsSane, Joins;
    var gs, mid, order :| CommitsVia(b, cs, w, b', gs, mid, order);
    var start, a' := b.(triggersOn := false), Exec(a, op);
    ExecFrame(a, op);
    LogRowArrives(a, op, start, scope, cs, w, gs, mid);
    assert LogIsSane(start) by {
      SameTablesSane(b, start);
    }
    forall id | Announced(mid, cs, id) && ReadEntry(mid, id).Entry?
      ensures ReadEntry(mid, id).table != DELETED_ROWS_TABLE
    {
      LogStaysSane(a', start, scope, cs, mid, id);
    }
    var ch :| ch in cs && ch.table == DELETED_ROWS_TABLE && RowNamed(mid, ch) == Some([Text(op.logId)]);
    DeletedOrNewer(b, cs, w, b', gs, mid, order, ch, op.logId, op.table, op.pk);
  }

  lemma {:induction false} SameTablesSane(db: Db, start: Db)
    requires LogIsSane(db) && start.tables == db.tables
    ensures LogIsSane(start)
  {
    forall pk ensures CellAt(start, DELETED_ROWS_TABLE, pk, "table_name").value != Text(DELETED_ROWS_TABLE) {
      assert CellAt(start, DELETED_ROWS_TABLE, pk, "table_name") == CellAt(db, DELETED_ROWS_TABLE, pk, "table_name");
    }
  }
}
