/**
  Delete-log propagation (`src-tauri/src/crdt/commands.rs:423-548, 972-978`): what the inbound
  deletes of one batch do, independently of the order in which the set is iterated, and where
  the guarantee ends.
 */
module Deletes {
  import opened Wrappers
  import opened HlcText
  import opened Store
  import Triggers
  import opened Grouping
  import opened RowMerge
  import opened Apply
  import opened Convergence
  import Idempotence
  import Keys
  import Scanner
  import opened LocalRuns

  /** The entry names exactly the key columns of a table other than the delete log. */
  ghost predicate FullKey(db: Db, e: LogEntry) {
    && e.Entry? && e.table != DELETED_ROWS_TABLE
    && (forall c :: c in e.fields <==> c in PkNames(SchemaOf(db, e.table)))
  }

  ghost predicate Regular(db: Db, ids: set<Name>) {
    forall id :: id in ids && ReadEntry(db, id).Entry? ==> FullKey(db, ReadEntry(db, id))
  }

  ghost predicate Targets(db: Db, e: LogEntry, table: Name, pk: Pk) {
    FullKey(db, e) && e.table == table && WherePk(PkNames(SchemaOf(db, table)), e.fields) == pk
  }

  /** The row was written after `hlc`. */
  predicate WrittenAfter(row: Row, hlc: Hlc) {
    row.rowHlc.Some? && Newer(row.rowHlc.value, hlc)
  }

  /** Some entry deletes the row: it targets it, the row was not written after it, and the DELETE
      does not fail. */
  ghost predicate KilledBy(db: Db, w: World, ids: set<Name>, table: Name, pk: Pk) {
    RowExists(db, table, pk) &&
    exists id :: id in ids && Targets(db, ReadEntry(db, id), table, pk) && !w.deleteFails(id)
                 && !WrittenAfter(TableOf(db, table)[pk], ReadEntry(db, id).hlc)
  }

  ghost predicate Survivors(mid: Db, w: World, ids: set<Name>, after: Db) {
    && after.schemas == mid.schemas
    && forall table, pk ::
         RowAt(after, table, pk) == if KilledBy(mid, w, ids, table, pk) then None else RowAt(mid, table, pk)
  }

  lemma {:induction false} PkNamesAreColumns(schema: Schema, c: Name)
    requires c in PkNames(schema)
    ensures c in ColumnNames(schema)
  {
    if schema[0].isPk && schema[0].name == c {
    } else {
      PkNamesAreColumns(schema[1..], c);
      var i :| 0 <= i < |schema[1..]| && schema[1..][i].name == c;
      assert schema[i + 1].name == c;
    }
  }

  /** A full key selects the one row it names, if that row is there. */
  lemma {:induction false} FullKeySelectsOne(db: Db, table: Name, fields: map<Name, Value>)
    requires forall c :: c in fields <==> c in PkNames(SchemaOf(db, table))
    ensures var pk := WherePk(PkNames(SchemaOf(db, table)), fields);
            Matching(db, table, fields) == if RowExists(db, table, pk) then {pk} else {}
  {
    var names := PkNames(SchemaOf(db, table));
    var pk := WherePk(names, fields);
    forall c | c in fields ensures c in ColumnNames(SchemaOf(db, table)) {
      PkNamesAreColumns(SchemaOf(db, table), c);
    }
    forall p: Pk, row ensures Matches(names, p, row, fields) <==> p == pk {
      assert forall i :: 0 <= i < |names| ==> names[i] in names;
      if |p| == |names| && forall i :: 0 <= i < |names| ==> p[i] == fields[names[i]] {
        assert p == pk;
      }
    }
  }

  /** While the log is untouched, an entry reads the same and its targets only disappear. */
  lemma {:induction false} PropagateStep(mid: Db, cur: Db, w: World, ids: set<Name>, id: Name)
    requires ValidWorld(w) && !cur.triggersOn
    requires Survivors(mid, w, ids, cur) && Regular(mid, ids + {id})
    requires PropagateOne(cur, w, id).Some?
    ensures Survivors(mid, w, ids + {id}, PropagateOne(cur, w, id).value)
  {
    hide Rank;
    var next := PropagateOne(cur, w, id).value;
    assert ReadEntry(cur, id) == ReadEntry(mid, id) by {
      assert RowAt(cur, DELETED_ROWS_TABLE, [Text(id)]) == RowAt(mid, DELETED_ROWS_TABLE, [Text(id)]);
    }
    assert id in ids + {id};
    forall table, pk
      ensures RowAt(next, table, pk) == if KilledBy(mid, w, ids + {id}, table, pk) then None else RowAt(mid, table, pk)
    {
      KilledByOneMore(mid, w, ids, id, table, pk);
      PropagatedRow(cur, w, id, table, pk);
      assert RowAt(cur, table, pk) == if KilledBy(mid, w, ids, table, pk) then None else RowAt(mid, table, pk);
    }
  }

  /** One entry removes its target if the target is there and not strictly newer, and the DELETE
      succeeds. */
  lemma {:induction false} PropagatedRow(db: Db, w: World, id: Name, table: Name, pk: Pk)
    requires ValidWorld(w) && !db.triggersOn && PropagateOne(db, w, id).Some?
    requires ReadEntry(db, id).Entry? ==> FullKey(db, ReadEntry(db, id))
    ensures var e := ReadEntry(db, id);
            RowAt(PropagateOne(db, w, id).value, table, pk) ==
            if Targets(db, e, table, pk) && RowExists(db, table, pk) && !w.deleteFails(id)
               && !WrittenAfter(TableOf(db, table)[pk], e.hlc)
            then None else RowAt(db, table, pk)
    ensures PropagateOne(db, w, id).value.schemas == db.schemas
  {
    hide Rank;
    var e := ReadEntry(db, id);
    if e.Entry? {
      var target := WherePk(PkNames(SchemaOf(db, e.table)), e.fields);
      FullKeySelectsOne(db, e.table, e.fields);
      assert w.first({target}) in {target};
    }
  }

  lemma {:induction false} KilledByOneMore(mid: Db, w: World, ids: set<Name>, id: Name, table: Name, pk: Pk)
    ensures var e := ReadEntry(mid, id);
            KilledBy(mid, w, ids + {id}, table, pk) <==>
            KilledBy(mid, w, ids, table, pk)
            || (RowExists(mid, table, pk) && Targets(mid, e, table, pk) && !w.deleteFails(id)
                && !WrittenAfter(TableOf(mid, table)[pk], e.hlc))
  {
    assert id in ids + {id};
  }

  function Elements(order: seq<Name>): set<Name> {
    set id | id in order
  }

  lemma {:induction false} PropagateSurvivors(mid: Db, w: World, order: seq<Name>)
    requires ValidWorld(w) && !mid.triggersOn && Regular(mid, Elements(order))
    requires PropagateAll(mid, w, order).Some?
    ensures Survivors(mid, w, Elements(order), PropagateAll(mid, w, order).value)
    ensures !PropagateAll(mid, w, order).value.triggersOn
  {
    Idempotence.PropagationKeepsSetting(mid, w, order);
    hide Rank;
    hide PropagateOne;
    hide ReadEntry;
    if order == [] {
      assert Elements(order) == {};
    } else {
      var n := |order| - 1;
      assert order == order[..n] + [order[n]];
      assert Elements(order) == Elements(order[..n]) + {order[n]};
      PropagateSurvivors(mid, w, order[..n]);
      PropagateStep(mid, PropagateAll(mid, w, order[..n]).value, w, Elements(order[..n]), order[n]);
    }
  }

  // ---------------------------------------------------------------------------------------
  // Which entries a batch brings
  // ---------------------------------------------------------------------------------------

  /** The delete log is keyed by `id`. */
  predicate LogKeyed(db: Db) {
    PkNames(SchemaOf(db, DELETED_ROWS_TABLE)) == ["id"]
  }

  /** The batch has a change to the log row `id`. */
  ghost predicate Announced(db: Db, cs: seq<Change>, id: Name) {
    exists ch :: ch in cs && ch.table == DELETED_ROWS_TABLE && RowNamed(db, ch) == Some([Text(id)])
  }

  /** The ids collected for propagation are those of the log rows the batch has changes for. */
  lemma {:induction false} InboundAreAnnounced(db: Db, cs: seq<Change>, id: Name)
    requires LogKeyed(db)
    ensures id in InboundDeleteIds(cs) <==> Announced(db, cs, id)
  {
    forall ch: Change | ch.table == DELETED_ROWS_TABLE && ch.rowPks.ObjectText?
      ensures RowNamed(db, ch) == Some([Text(id)]) <==> "id" in ch.rowPks.fields && ch.rowPks.fields["id"] == Text(id)
    {
      var named := RowNamed(db, ch).value;
      assert |named| == 1 && ["id"][0] == "id";
      if named[0] == Text(id) {
        assert named == [Text(id)];
      }
    }
    if Announced(db, cs, id) {
      var ch :| ch in cs && ch.table == DELETED_ROWS_TABLE && RowNamed(db, ch) == Some([Text(id)]);
      assert ch.rowPks.fields["id"].s == id;
    }
    if id in InboundDeleteIds(cs) {
      var ch :| ch in cs && ch.table == DELETED_ROWS_TABLE && ch.rowPks.ObjectText?
                && "id" in ch.rowPks.fields && ch.rowPks.fields["id"].Text? && ch.rowPks.fields["id"].s == id;
      assert RowNamed(db, ch) == Some([Text(id)]);
    }
  }

  /** Some announced entry deletes the row. */
  ghost predicate Killed(db: Db, w: World, cs: seq<Change>, table: Name, pk: Pk) {
    RowExists(db, table, pk) &&
    exists id :: Announced(db, cs, id) && Targets(db, ReadEntry(db, id), table, pk) && !w.deleteFails(id)
                 && !WrittenAfter(TableOf(db, table)[pk], ReadEntry(db, id).hlc)
  }

  ghost predicate FullKeys(db: Db, cs: seq<Change>) {
    forall id :: Announced(db, cs, id) && ReadEntry(db, id).Entry? ==> FullKey(db, ReadEntry(db, id))
  }

  /** What a batch's deletes leave: exactly the rows no announced entry kills, and the delete log
      itself, with no row added. It says nothing about the order of the set. */
  lemma {:induction false} BatchDeletes(before: Db, cs: seq<Change>, w: World, after: Db,
                                        gs: seq<Group<RowKey>>, mid: Db, order: seq<Name>)
    requires ValidWorld(w) && CommitsVia(before, cs, w, after, gs, mid, order)
    requires LogKeyed(mid) && FullKeys(mid, cs)
    ensures forall table, pk :: RowAt(after, table, pk) ==
              if Killed(mid, w, cs, table, pk) then None else RowAt(mid, table, pk)
    ensures forall pk :: RowAt(after, DELETED_ROWS_TABLE, pk) == RowAt(mid, DELETED_ROWS_TABLE, pk)
  {
    hide Rank, ReadEntry, ApplyRows, InboundDeleteIds, PropagateAll, RowGrouping, LogKeyed;
    var ids := InboundDeleteIds(cs);
    SameMembers(cs, gs);
    Idempotence.RowsKeepSetting(before.(triggersOn := false), w, gs);
    forall id ensures id in ids <==> Announced(mid, cs, id) {
      InboundAreAnnounced(mid, cs, id);
    }
    assert Elements(order) == ids;
    PropagateSurvivors(mid, w, order);
    var end := PropagateAll(mid, w, order).value;
    forall table, pk ensures RowAt(after, table, pk) == RowAt(end, table, pk) {}
    forall table, pk ensures Killed(mid, w, cs, table, pk) <==> KilledBy(mid, w, ids, table, pk) {}
  }

  /** No announced entry names the delete log itself; no trigger writes such an entry. */
  ghost predicate LogSpared(db: Db, cs: seq<Change>) {
    forall id :: Announced(db, cs, id) && ReadEntry(db, id).Entry? ==> ReadEntry(db, id).table != DELETED_ROWS_TABLE
  }

  /** While entries are propagated, rows only go, log rows stay, and each entry's target is gone or
      was written after it, once it had its turn. */
  lemma {:induction false} PropagationDeletes(mid: Db, w: World, order: seq<Name>, id: Name, table: Name, pk: Pk)
    requires ValidWorld(w) && !mid.triggersOn && PropagateAll(mid, w, order).Some?
    requires forall i :: i in order && ReadEntry(mid, i).Entry? ==> ReadEntry(mid, i).table != DELETED_ROWS_TABLE
    requires Targets(mid, ReadEntry(mid, id), table, pk)
    ensures var end := PropagateAll(mid, w, order).value;
            && SameSetting(mid, end)
            && (forall p :: RowAt(end, DELETED_ROWS_TABLE, p) == RowAt(mid, DELETED_ROWS_TABLE, p))
            && (RowExists(end, table, pk) ==> RowAt(end, table, pk) == RowAt(mid, table, pk))
            && (id in order && RowExists(end, table, pk) ==>
                  w.deleteFails(id) || WrittenAfter(TableOf(end, table)[pk], ReadEntry(mid, id).hlc))
  {
    hide Rank, PropagateOne, ReadEntry;
    if order != [] {
      var n := |order| - 1;
      assert order == order[..n] + [order[n]];
      PropagationDeletes(mid, w, order[..n], id, table, pk);
      var cur := PropagateAll(mid, w, order[..n]).value;
      SameLogReads(mid, cur, order[n]);
      SameLogReads(mid, cur, id);
      OneEntryDeletes(cur, w, order[n], table, pk);
    }
  }

  lemma {:induction false} SameLogReads(mid: Db, cur: Db, id: Name)
    requires forall p :: RowAt(cur, DELETED_ROWS_TABLE, p) == RowAt(mid, DELETED_ROWS_TABLE, p)
    ensures ReadEntry(cur, id) == ReadEntry(mid, id)
  {
    assert RowAt(cur, DELETED_ROWS_TABLE, [Text(id)]) == RowAt(mid, DELETED_ROWS_TABLE, [Text(id)]);
  }

  lemma {:induction false} OneEntryDeletes(db: Db, w: World, id: Name, table: Name, pk: Pk)
    requires ValidWorld(w) && !db.triggersOn && PropagateOne(db, w, id).Some?
    requires ReadEntry(db, id).Entry? ==> ReadEntry(db, id).table != DELETED_ROWS_TABLE
    ensures var after := PropagateOne(db, w, id).value;
            && SameSetting(db, after)
            && (forall p :: RowAt(after, DELETED_ROWS_TABLE, p) == RowAt(db, DELETED_ROWS_TABLE, p))
            && (RowExists(after, table, pk) ==> RowAt(after, table, pk) == RowAt(db, table, pk))
            && (Targets(db, ReadEntry(db, id), table, pk) && RowExists(after, table, pk) ==>
                  w.deleteFails(id) || WrittenAfter(TableOf(after, table)[pk], ReadEntry(db, id).hlc))
  {
    hide Rank;
    if Targets(db, ReadEntry(db, id), table, pk) {
      PropagatedRow(db, w, id, table, pk);
    }
  }

  /** The per-batch delete rule: if the batch has a change to the log row `id`, the row that entry
      names is gone afterwards, or was written after it, or the entry's DELETE failed. */
  lemma {:induction false} DeletedOrNewer(before: Db, cs: seq<Change>, w: World, after: Db,
                                          gs: seq<Group<RowKey>>, mid: Db, order: seq<Name>,
                                          ch: Change, id: Name, table: Name, pk: Pk)
    requires ValidWorld(w) && CommitsVia(before, cs, w, after, gs, mid, order)
    requires LogKeyed(mid) && LogSpared(mid, cs)
    requires ch in cs && ch.table == DELETED_ROWS_TABLE && RowNamed(mid, ch) == Some([Text(id)])
    requires Targets(mid, ReadEntry(mid, id), table, pk)
    ensures RowExists(after, table, pk) ==>
              w.deleteFails(id) || WrittenAfter(TableOf(after, table)[pk], ReadEntry(mid, id).hlc)
  {
    hide Rank, ReadEntry, ApplyRows, InboundDeleteIds, PropagateAll, RowGrouping, LogKeyed;
    SameMembers(cs, gs);
    Idempotence.RowsKeepSetting(before.(triggersOn := false), w, gs);
    forall i ensures i in InboundDeleteIds(cs) <==> Announced(mid, cs, i) {
      InboundAreAnnounced(mid, cs, i);
    }
    assert Announced(mid, cs, id);
    PropagationDeletes(mid, w, order, id, table, pk);
    var end := PropagateAll(mid, w, order).value;
    assert RowAt(after, table, pk) == RowAt(end, table, pk);
  }

  /** Iterating the set in another order gives the same rows. */
  lemma {:induction false} DeleteOrderIrrelevant(before: Db, cs: seq<Change>, w: World, after: Db, after': Db,
                                                 gs: seq<Group<RowKey>>, mid: Db, order: seq<Name>, order': seq<Name>)
    requires ValidWorld(w) && CommitsVia(before, cs, w, after, gs, mid, order)
    requires CommitsVia(before, cs, w, after', gs, mid, order')
    requires LogKeyed(mid) && FullKeys(mid, cs)
    ensures forall table, pk :: RowAt(after, table, pk) == RowAt(after', table, pk)
  {
    BatchDeletes(before, cs, w, after, gs, mid, order);
    BatchDeletes(before, cs, w, after', gs, mid, order');
  }

  // ---------------------------------------------------------------------------------------
  // Entries of any shape
  // ---------------------------------------------------------------------------------------

  /** The value of a column, key or not. */
  function ColumnAt(names: seq<Name>, pk: Pk, row: Row, c: Name): Value
    requires |pk| == |names|
  {
    if names == [] then ValueIn(row.cells, c)
    else if names[0] == c then pk[0]
    else ColumnAt(names[1..], pk[1..], row, c)
  }

  lemma {:induction false} ColumnAtKey(names: seq<Name>, pk: Pk, row: Row, i: nat)
    requires |pk| == |names| && i < |names| && Scanner.Distinct(names)
    ensures ColumnAt(names, pk, row, names[i]) == pk[i]
  {
    if i > 0 {
      assert names[1..][i - 1] == names[i] && pk[1..][i - 1] == pk[i];
      ColumnAtKey(names[1..], pk[1..], row, i - 1);
    }
  }

  lemma {:induction false} ColumnAtData(names: seq<Name>, pk: Pk, row: Row, c: Name)
    requires |pk| == |names| && c !in names
    ensures ColumnAt(names, pk, row, c) == ValueIn(row.cells, c)
  {
    if names != [] {
      ColumnAtData(names[1..], pk[1..], row, c);
    }
  }

  /** The row has the entry's value in every column the entry names. */
  ghost predicate Agrees(names: seq<Name>, pk: Pk, row: Row, fields: map<Name, Value>) {
    |pk| == |names| && forall c :: c in fields ==> ColumnAt(names, pk, row, c) == fields[c]
  }

  lemma {:induction false} MatchesAgree(names: seq<Name>, pk: Pk, row: Row, fields: map<Name, Value>)
    requires Scanner.Distinct(names)
    ensures Matches(names, pk, row, fields) <==> Agrees(names, pk, row, fields)
  {
    if |pk| == |names| {
      forall i | 0 <= i < |names| ensures ColumnAt(names, pk, row, names[i]) == pk[i] {
        ColumnAtKey(names, pk, row, i);
      }
      forall c | c !in names ensures ColumnAt(names, pk, row, c) == ValueIn(row.cells, c) {
        ColumnAtData(names, pk, row, c);
      }
      if Matches(names, pk, row, fields) {
        forall c | c in fields ensures ColumnAt(names, pk, row, c) == fields[c] {
          if c in names {
            var i :| 0 <= i < |names| && names[i] == c;
          }
        }
      }
    }
  }

  /** What any readable entry does, also one that names part of a key or other columns: if one of the
      rows that agree with it, the first SQLite returns, was not written after it, all of them go.
      An entry that names a column the table does not have does nothing. */
  lemma {:induction false} EntryRemovesAgreeing(db: Db, w: World, id: Name, pk: Pk)
    requires ValidWorld(w) && !db.triggersOn && PropagateOne(db, w, id).Some? && ReadEntry(db, id).Entry?
    requires Scanner.Distinct(PkNames(SchemaOf(db, ReadEntry(db, id).table)))
    ensures var e := ReadEntry(db, id);
            var names, rows := PkNames(SchemaOf(db, e.table)), TableOf(db, e.table);
            var agreeing := set p | p in rows && Agrees(names, p, rows[p], e.fields);
            RowAt(PropagateOne(db, w, id).value, e.table, pk) ==
            if && pk in agreeing && (forall c :: c in e.fields ==> c in ColumnNames(SchemaOf(db, e.table)))
               && !w.deleteFails(id) && !WrittenAfter(rows[w.first(agreeing)], e.hlc)
            then None else RowAt(db, e.table, pk)
  {
    hide Rank;
    var e := ReadEntry(db, id);
    var names, rows := PkNames(SchemaOf(db, e.table)), TableOf(db, e.table);
    var agreeing := set p | p in rows && Agrees(names, p, rows[p], e.fields);
    forall p | p in rows ensures Matches(names, p, rows[p], e.fields) <==> Agrees(names, p, rows[p], e.fields) {
      MatchesAgree(names, p, rows[p], e.fields);
    }
    hide Matches, Agrees, ReadEntry;
    if forall c :: c in e.fields ==> c in ColumnNames(SchemaOf(db, e.table)) {
      assert Matching(db, e.table, e.fields) == agreeing;
    }
  }

  /** A log row whose target table or key columns have unsafe names, or whose key text is no object
      or an empty one, deletes nothing; nor does an id without a log row. */
  lemma {:induction false} MalformedEntryIsSkipped(db: Db, w: World, id: Name)
    requires ValidWorld(w)
    requires match RowAt(db, DELETED_ROWS_TABLE, [Text(id)])
             case None => true
             case Some(row) =>
               var target, keys := ValueIn(row.cells, "table_name"), ValueIn(row.cells, "row_pks");
               && IsText(target) && IsText(keys) && row.rowHlc.Some?
               && (|| !target.Text? || !IsSafeIdentifier(target.s) || !keys.Json? || keys.text.NotAnObject?
                   || keys.text.fields == map[] || exists c :: c in keys.text.fields && !IsSafeIdentifier(c))
    ensures PropagateOne(db, w, id) == Some(db)
  {
  }

  /** A log row that is not two texts under an HLC aborts the batch. */
  lemma {:induction false} UnreadableEntryAborts(db: Db, w: World, id: Name)
    requires ValidWorld(w)
    ensures PropagateOne(db, w, id).None? <==>
            match RowAt(db, DELETED_ROWS_TABLE, [Text(id)])
            case None => false
            case Some(row) => !IsText(ValueIn(row.cells, "table_name")) || !IsText(ValueIn(row.cells, "row_pks")) || row.rowHlc.None?
  {
    hide Rank;
  }

  /** What a local delete writes to the log is an entry that, read back, names exactly the
      deleted row under the delete's HLC, NULL keys included. */
  lemma {:induction false} LoggedDeleteNamesRow(db: Db, op: Op)
    requires db.triggersOn && op.Delete? && op.table != DELETED_ROWS_TABLE && RowExists(db, op.table, op.pk)
    requires IsSafeIdentifier(op.table) && PkNames(SchemaOf(db, op.table)) != []
    requires Scanner.Distinct(PkNames(SchemaOf(db, op.table))) && |op.pk| == |PkNames(SchemaOf(db, op.table))|
    requires forall c :: c in PkNames(SchemaOf(db, op.table)) ==> IsSafeIdentifier(c)
    ensures !RowExists(Exec(db, op), op.table, op.pk)
    ensures var e := ReadEntry(Exec(db, op), op.logId);
            Targets(Exec(db, op), e, op.table, op.pk) && e.hlc == op.hlc
  {
    var names := PkNames(SchemaOf(db, op.table));
    ExecRow(db, op, op.table, op.pk);
    ExecRow(db, op, DELETED_ROWS_TABLE, [Text(op.logId)]);
    ExecFrame(db, op);
    Scanner.KeyRoundTrip(names, op.pk);
    KeyFieldsNameKeys(names, op.pk);
    hide Exec;
    ReadLogRow(Exec(db, op), op.logId, Triggers.LogRow(db, op.table, op.pk, op.hlc), op.table,
               Triggers.KeyFields(names, op.pk), op.hlc);
  }

  /** No statement writes the log row `id` itself or logs under that id again. */
  ghost predicate LeavesLogRow(ops: seq<Op>, id: Name) {
    forall op :: op in ops ==> !(op.table == DELETED_ROWS_TABLE && op.pk == [Text(id)]) && !(op.Delete? && op.logId == id)
  }

  lemma {:induction false} LogRowStays(db: Db, ops: seq<Op>, id: Name)
    requires db.triggersOn && LeavesLogRow(ops, id)
    ensures RowAt(ExecAll(db, ops), DELETED_ROWS_TABLE, [Text(id)]) == RowAt(db, DELETED_ROWS_TABLE, [Text(id)])
    ensures ExecAll(db, ops).schemas == db.schemas
  {
    hide Exec, Triggers.LogRow;
    if ops != [] {
      var n := |ops| - 1;
      assert ops == ops[..n] + [ops[n]];
      LogRowStays(db, ops[..n], id);
      ExecAllFrame(db, ops[..n]);
      ExecFrame(ExecAll(db, ops[..n]), ops[n]);
      ExecRow(ExecAll(db, ops[..n]), ops[n], DELETED_ROWS_TABLE, [Text(id)]);
    }
  }

  /** Whatever is written and deleted later, the entry of a delete stays in the log and names the
      deleted row, until it is removed itself. */
  lemma {:induction false} LoggedDeleteStays(db: Db, op: Op, later: seq<Op>)
    requires db.triggersOn && op.Delete? && op.table != DELETED_ROWS_TABLE && RowExists(db, op.table, op.pk)
    requires IsSafeIdentifier(op.table) && PkNames(SchemaOf(db, op.table)) != []
    requires Scanner.Distinct(PkNames(SchemaOf(db, op.table))) && |op.pk| == |PkNames(SchemaOf(db, op.table))|
    requires forall c :: c in PkNames(SchemaOf(db, op.table)) ==> IsSafeIdentifier(c)
    requires LeavesLogRow(later, op.logId)
    ensures var end := ExecAll(Exec(db, op), later);
            var e := ReadEntry(end, op.logId);
            Targets(end, e, op.table, op.pk) && e.hlc == op.hlc
  {
    hide Exec, ExecAll;
    LoggedDeleteNamesRow(db, op);
    ExecFrame(db, op);
    LogRowStays(Exec(db, op), later, op.logId);
  }

  lemma {:induction false} KeyFieldsNameKeys(names: seq<Name>, pk: Pk)
    requires Scanner.Distinct(names) && |pk| == |names|
    ensures forall c :: c in Triggers.KeyFields(names, pk) <==> c in names
    ensures names != [] ==> Triggers.KeyFields(names, pk) != map[]
  {
    Scanner.KeyRoundTrip(names, pk);
    if names != [] {
      assert names[0] in Triggers.KeyFields(names, pk);
    }
  }

  lemma {:induction false} ReadLogRow(db: Db, id: Name, row: Row, table: Name, fields: map<Name, Value>, hlc: Hlc)
    requires RowAt(db, DELETED_ROWS_TABLE, [Text(id)]) == Some(row) && row.rowHlc == Some(hlc)
    requires row.cells == map["table_name" := Text(table), "row_pks" := Json(ObjectText(fields, ""))]
    requires IsSafeIdentifier(table) && fields != map[] && forall c :: c in fields ==> IsSafeIdentifier(c)
    ensures ReadEntry(db, id) == Entry(table, fields, hlc)
  {
    assert "table_name" != "row_pks";
  }

  // ---------------------------------------------------------------------------------------
  // Where the guarantee ends
  // ---------------------------------------------------------------------------------------

  /** A later batch does not consult the delete log: any stamped change, however old, brings a
      deleted row back. */
  lemma {:induction false} LateChangeResurrects(db: Db, w: World, ch: Change, id: Name, pk: Pk)
    requires !db.triggersOn && NoConflicts(w) && WellNamed(db, ch) && PkNames(SchemaOf(db, ch.table)) != []
    requires RowNamed(db, ch) == Some(pk) && !RowExists(db, ch.table, pk)
    requires Targets(db, ReadEntry(db, id), ch.table, pk) && Rank(ch.hlc) < Rank(ReadEntry(db, id).hlc)
    requires ch.column in ColumnNames(SchemaOf(db, ch.table)) && Rank(ch.hlc) > 0
    ensures ApplyRow(db, w, [ch]).Some? && RowExists(ApplyRow(db, w, [ch]).value, ch.table, pk)
  {
    assert ch in [ch] && SchemaOf(db, ch.table) != [];
    RowCreated(db, w, [ch], ch.table, pk);
  }

  /** Where the row stands in the order of HLCs; a row without one stands first. */
  function RowRank(row: Row): nat {
    match row.rowHlc
    case None => 0
    case Some(h) => Rank(h)
  }

  ghost predicate NamesRow(db: Db, ch: Change, table: Name, pk: Pk) {
    ch.table == table && RowNamed(db, ch) == Some(pk)
  }

  /** The row HLC a group leaves is the newest of its first and accepted changes, not the newest of
      the row. It does not fall exactly when no change brings news, or the first change or one with
      news is as new as the row HLC was. */
  lemma {:induction false} GroupHlcHolds(db: Db, w: World, list: seq<Change>, pk: Pk)
    requires OneRow(list) && !db.triggersOn && ApplyRow(db, w, list).Some?
    requires SchemaOf(db, list[0].table) != [] && NamesRow(db, list[0], list[0].table, pk)
    requires RowExists(db, list[0].table, pk)
    ensures RowExists(ApplyRow(db, w, list).value, list[0].table, pk)
    ensures var known, row := ColumnNames(SchemaOf(db, list[0].table)), TableOf(db, list[0].table)[pk];
            RowRank(row) <= RowRank(TableOf(ApplyRow(db, w, list).value, list[0].table)[pk])
            <==> || (forall ch :: ch in list ==> !BringsNews(known, row.hlcs, ch))
                 || RowRank(row) <= Rank(list[0].hlc)
                 || (exists ch :: ch in list && BringsNews(known, row.hlcs, ch) && RowRank(row) <= Rank(ch.hlc))
  {
    hide Rank, ApplyRow, MergeAll;
    var row := TableOf(db, list[0].table)[pk];
    RowFrame(db, w, list);
    GroupWrites(db, w, list, list[0].table, pk);
    MergedRowHlc(ColumnNames(SchemaOf(db, list[0].table)), StartMerge(Some(row), list[0]), list, RowRank(row));
    MergeFacts(ColumnNames(SchemaOf(db, list[0].table)), StartMerge(Some(row), list[0]), list);
  }

  /** A group that does not name an existing row leaves it alone; one that does changes it by what it
      holds, whatever else is in the database. */
  lemma {:induction false} GroupOnRow(db: Db, mid: Db, w: World, list: seq<Change>, table: Name, pk: Pk)
    requires OneRow(list) && !db.triggersOn && !mid.triggersOn && ApplyRow(mid, w, list).Some?
    requires mid.schemas == db.schemas && RowAt(mid, table, pk) == RowAt(db, table, pk) && RowExists(db, table, pk)
    ensures ApplyRow(db, w, list).Some?
    ensures RowAt(ApplyRow(mid, w, list).value, table, pk) == RowAt(ApplyRow(db, w, list).value, table, pk)
    ensures !NamesRow(db, list[0], table, pk) ==> RowAt(ApplyRow(mid, w, list).value, table, pk) == RowAt(db, table, pk)
  {
    hide MergeAll, Keys.InsertPk, WherePk;
    assert ApplyRow(db, w, list).Some?;
    hide ApplyRow;
    GroupWrites(db, w, list, table, pk);
    GroupWrites(mid, w, list, table, pk);
  }

  /** If at most one group names an existing row, the batch leaves it as that group would alone. */
  lemma {:induction false} GroupsOnRow(db: Db, w: World, gs: seq<Group<RowKey>>, table: Name, pk: Pk)
    requires RowLists(gs) && !db.triggersOn && ApplyRows(db, w, gs).Some? && RowExists(db, table, pk)
    requires forall i, j :: 0 <= i < j < |gs| && NamesRow(db, gs[i].members[0], table, pk)
               ==> !NamesRow(db, gs[j].members[0], table, pk)
    ensures forall i :: 0 <= i < |gs| && NamesRow(db, gs[i].members[0], table, pk) ==>
              && ApplyRow(db, w, gs[i].members).Some?
              && RowAt(ApplyRows(db, w, gs).value, table, pk) == RowAt(ApplyRow(db, w, gs[i].members).value, table, pk)
    ensures (forall i :: 0 <= i < |gs| ==> !NamesRow(db, gs[i].members[0], table, pk))
              ==> RowAt(ApplyRows(db, w, gs).value, table, pk) == RowAt(db, table, pk)
  {
    hide ApplyRow, NamesRow;
    if gs != [] {
      var n := |gs| - 1;
      var mid, last := ApplyRows(db, w, gs[..n]).value, gs[n].members;
      GroupsOnRow(db, w, gs[..n], table, pk);
      Idempotence.RowsKeepSetting(db, w, gs[..n]);
      if NamesRow(db, last[0], table, pk) {
        assert RowAt(mid, table, pk) == RowAt(db, table, pk);
        GroupOnRow(db, mid, w, last, table, pk);
      } else {
        GroupSkips(db, mid, w, last, table, pk, gs[..n]);
      }
    }
  }

  lemma {:induction false} GroupSkips(db: Db, mid: Db, w: World, list: seq<Change>, table: Name, pk: Pk,
                                      before: seq<Group<RowKey>>)
    requires OneRow(list) && !mid.triggersOn && ApplyRow(mid, w, list).Some? && mid.schemas == db.schemas
    requires !db.triggersOn && RowLists(before) && ApplyRows(db, w, before) == Some(mid) && RowExists(db, table, pk)
    requires !NamesRow(db, list[0], table, pk)
    ensures RowAt(ApplyRow(mid, w, list).value, table, pk) == RowAt(mid, table, pk)
  {
    hide ApplyRow;
    RowsStay(db, w, before, table, pk);
    GroupOnRow(mid, mid, w, list, table, pk);
  }

  lemma {:induction false} RowsStay(db: Db, w: World, gs: seq<Group<RowKey>>, table: Name, pk: Pk)
    requires RowLists(gs) && !db.triggersOn && ApplyRows(db, w, gs).Some? && RowExists(db, table, pk)
    ensures RowExists(ApplyRows(db, w, gs).value, table, pk)
  {
    hide ApplyRow;
    if gs != [] {
      var n := |gs| - 1;
      RowsStay(db, w, gs[..n], table, pk);
      Idempotence.RowsKeepSetting(db, w, gs[..n]);
      RowFrame(ApplyRows(db, w, gs[..n]).value, w, gs[n].members);
    }
  }

  /** All changes to the row spell its key the same way, as a scanner does. */
  ghost predicate OneSpelling(db: Db, cs: seq<Change>, table: Name, pk: Pk) {
    forall x, y :: x in cs && y in cs && NamesRow(db, x, table, pk) && NamesRow(db, y, table, pk) ==> x.rowPks == y.rowPks
  }

  /** The one group that names the row holds exactly the changes that do. */
  lemma {:induction false} TheGroup(db: Db, cs: seq<Change>, gs: seq<Group<RowKey>>, table: Name, pk: Pk, i: nat)
    requires RowGrouping(cs, gs) && OneSpelling(db, cs, table, pk) && i < |gs| && NamesRow(db, gs[i].members[0], table, pk)
    ensures forall ch :: ch in gs[i].members <==> ch in cs && NamesRow(db, ch, table, pk)
    ensures forall j :: 0 <= j < |gs| && j != i ==> !NamesRow(db, gs[j].members[0], table, pk)
  {
    hide Rank, MinRank, WherePk;
    SameMembers(cs, gs);
    var first := gs[i].members[0];
    MemberOfFlatten(gs, i, first);
    forall ch | ch in gs[i].members ensures ch in cs && NamesRow(db, ch, table, pk) {
      MemberOfFlatten(gs, i, ch);
      SameRowSameAnswer(db, ch, first);
    }
    forall ch | ch in cs && NamesRow(db, ch, table, pk) ensures ch in gs[i].members {
      var j := GroupOf(gs, ch);
      assert gs[j].key == RowKeyOf(ch) == RowKeyOf(first) == gs[i].key;
    }
    forall j | 0 <= j < |gs| && j != i ensures !NamesRow(db, gs[j].members[0], table, pk) {
      var other := gs[j].members[0];
      MemberOfFlatten(gs, j, other);
      assert RowKeyOf(other) == gs[j].key != gs[i].key;
    }
  }

  /** Over a whole batch: the HLC of a row that is there, and still is afterwards, does not fall
      exactly when no change to it brings news or one with news is as new. */
  lemma {:induction false} RowHlcHolds(before: Db, cs: seq<Change>, w: World, after: Db, table: Name, pk: Pk)
    requires ValidWorld(w) && Commits(before, cs, w, after) && OneSpelling(before, cs, table, pk)
    requires RowExists(before, table, pk) && RowExists(after, table, pk) && SchemaOf(before, table) != []
    ensures var known, row := ColumnNames(SchemaOf(before, table)), TableOf(before, table)[pk];
            RowRank(row) <= RowRank(TableOf(after, table)[pk])
            <==> || (forall ch :: ch in cs && NamesRow(before, ch, table, pk) ==> !BringsNews(known, row.hlcs, ch))
                 || (exists ch :: ch in cs && NamesRow(before, ch, table, pk)
                                  && BringsNews(known, row.hlcs, ch) && RowRank(row) <= Rank(ch.hlc))
  {
    hide Rank, ApplyRow, ApplyRows, PropagateAll, BringsNews, RowRank, OneSpelling;
    var gs, mid, order :| CommitsVia(before, cs, w, after, gs, mid, order);
    var start := before.(triggersOn := false);
    SameMembers(cs, gs);
    Idempotence.RowsKeepSetting(start, w, gs);
    Idempotence.PropagationRemoves(mid, w, order);
    assert RowAt(after, table, pk) == RowAt(mid, table, pk);
    SameNames(before, start, cs, table, pk);
    GroupsHold(start, cs, w, gs, table, pk);
  }

  lemma {:induction false} SameNames(before: Db, start: Db, cs: seq<Change>, table: Name, pk: Pk)
    requires start.schemas == before.schemas
    ensures forall ch :: NamesRow(start, ch, table, pk) <==> NamesRow(before, ch, table, pk)
    ensures OneSpelling(start, cs, table, pk) <==> OneSpelling(before, cs, table, pk)
  {
    assert forall ch :: RowNamed(start, ch) == RowNamed(before, ch);
  }

  lemma {:induction false} GroupsHold(db: Db, cs: seq<Change>, w: World, gs: seq<Group<RowKey>>, table: Name, pk: Pk)
    requires RowGrouping(cs, gs) && RowLists(gs) && !db.triggersOn && ApplyRows(db, w, gs).Some?
    requires OneSpelling(db, cs, table, pk) && RowExists(db, table, pk) && SchemaOf(db, table) != []
    ensures RowExists(ApplyRows(db, w, gs).value, table, pk)
    ensures var known, row := ColumnNames(SchemaOf(db, table)), TableOf(db, table)[pk];
            RowRank(row) <= RowRank(TableOf(ApplyRows(db, w, gs).value, table)[pk])
            <==> || (forall ch :: ch in cs && NamesRow(db, ch, table, pk) ==> !BringsNews(known, row.hlcs, ch))
                 || (exists ch :: ch in cs && NamesRow(db, ch, table, pk)
                                  && BringsNews(known, row.hlcs, ch) && RowRank(row) <= Rank(ch.hlc))
  {
    hide Rank, ApplyRow, ApplyRows, BringsNews, RowRank, OneSpelling, NamesRow, MinRank;
    RowsStay(db, w, gs, table, pk);
    if i :| 0 <= i < |gs| && NamesRow(db, gs[i].members[0], table, pk) {
      TheGroup(db, cs, gs, table, pk, i);
      GroupsOnRow(db, w, gs, table, pk);
      var list := gs[i].members;
      NamedTable(db, list[0], table, pk);
      GroupHlcHolds(db, w, list, pk);
      forall ch | ch in list ensures Rank(list[0].hlc) <= Rank(ch.hlc) {
        var k :| 0 <= k < |list| && list[k] == ch;
      }
    } else {
      GroupsOnRow(db, w, gs, table, pk);
      SameMembers(cs, gs);
      forall ch | ch in cs ensures !NamesRow(db, ch, table, pk) {
        var j := GroupOf(gs, ch);
        SameKeySameRow(db, ch, gs[j].members[0], table, pk);
      }
    }
  }

  lemma {:induction false} NamedTable(db: Db, ch: Change, table: Name, pk: Pk)
    requires NamesRow(db, ch, table, pk)
    ensures ch.table == table
  {
  }

  lemma {:induction false} SameKeySameRow(db: Db, x: Change, y: Change, table: Name, pk: Pk)
    requires RowKeyOf(x) == RowKeyOf(y)
    ensures NamesRow(db, x, table, pk) <==> NamesRow(db, y, table, pk)
  {
    SameRowSameAnswer(db, x, y);
  }
}
