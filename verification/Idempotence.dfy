/**
  Re-applying a batch: once every change has been seen, applying it again writes nothing, and
  no apply, committed or failed, ever marks a table dirty.
 */
module Idempotence {
  import opened Wrappers
  import opened HlcText
  import opened Store
  import opened Triggers
  import opened Grouping
  import opened RowMerge
  import opened Apply
  import opened Convergence

  /** The database already reflects the change: its column is at least as new, or, where the
      column is unknown here, it is noted as pending. */
  ghost predicate Seen(db: Db, ch: Change) {
    SchemaOf(db, ch.table) != [] && ch.rowPks.ObjectText? ==>
      if ch.column in ColumnNames(SchemaOf(db, ch.table))
      then Rank(ch.hlc) <= Rank(CellAt(db, ch.table, RowNamed(db, ch).value, ch.column).hlc)
      else (ch.table, ch.column) in db.pending
  }

  /** One row: its own changes are seen afterwards, and nothing seen is forgotten. */
  lemma {:induction false} RowIsSeen(db: Db, w: World, list: seq<Change>, ch: Change)
    requires OneRow(list) && !db.triggersOn && ApplyRow(db, w, list).Some?
    requires WellNamed(db, list[0]) && NoConflicts(w)
    requires ch in list || Seen(db, ch)
    ensures Seen(ApplyRow(db, w, list).value, ch)
  {
    hide Rank;
    var after := ApplyRow(db, w, list).value;
    RowFrame(db, w, list);
    if SchemaOf(db, ch.table) != [] && ch.rowPks.ObjectText? {
      if ch.table != list[0].table || RowNamed(db, ch) != RowNamed(db, list[0]) {
        RowLeavesOthers(db, w, list, ch.table, RowNamed(db, ch).value);
        PendingGrows(db, w, list);
      } else {
        RowWritten(db, w, list);
        var row := RowAt(db, ch.table, RowNamed(db, ch).value);
        var known, m := ColumnNames(SchemaOf(db, ch.table)), StartMerge(row, list[0]);
        MergeFacts(known, m, list);
        PendingGrows(db, w, list);
        if ch.column in known {
          UpdateSettles(known, m, map[], list, ch.column);
          assert ch in list ==> ch in OnColumn(list, ch.column);
        }
      }
    }
  }

  lemma {:induction false} PendingGrows(db: Db, w: World, list: seq<Change>)
    requires OneRow(list) && !db.triggersOn && ApplyRow(db, w, list).Some?
    ensures db.pending <= ApplyRow(db, w, list).value.pending
    ensures SchemaOf(db, list[0].table) != [] ==>
            forall ch :: ch in list && ch.column !in ColumnNames(SchemaOf(db, ch.table)) ==>
              (ch.table, ch.column) in ApplyRow(db, w, list).value.pending
  {
    if SchemaOf(db, list[0].table) != [] {
      var known := ColumnNames(SchemaOf(db, list[0].table));
      var row := RowAt(db, list[0].table, RowNamed(db, list[0]).value);
      MergeFacts(known, StartMerge(row, list[0]), list);
    }
  }

  lemma {:induction false} RowsAreSeen(db: Db, w: World, gs: seq<Group<RowKey>>, ch: Change)
    requires RowLists(gs) && !db.triggersOn && ApplyRows(db, w, gs).Some?
    requires (forall x :: x in Flatten(gs) ==> WellNamed(db, x)) && NoConflicts(w)
    requires ch in Flatten(gs)
    ensures Seen(ApplyRows(db, w, gs).value, ch)
  {
    var n := |gs| - 1;
    var mid := ApplyRows(db, w, gs[..n]).value;
    RowsKeepSetting(db, w, gs[..n]);
    assert gs[n].members[0] in Flatten(gs) && WellNamed(db, gs[n].members[0]);
    if ch !in gs[n].members {
      RowsAreSeen(db, w, gs[..n], ch);
    }
    RowIsSeen(mid, w, gs[n].members, ch);
  }

  /** Applying rows changes neither the schema nor the dirty set nor the trigger switch. */
  lemma {:induction false} RowsKeepSetting(db: Db, w: World, gs: seq<Group<RowKey>>)
    requires RowLists(gs) && !db.triggersOn && ApplyRows(db, w, gs).Some?
    ensures SameSetting(db, ApplyRows(db, w, gs).value)
  {
    if gs != [] {
      var n := |gs| - 1;
      RowsKeepSetting(db, w, gs[..n]);
      RowFrame(ApplyRows(db, w, gs[..n]).value, w, gs[n].members);
    }
  }

  lemma {:induction false} SeenRowWritesNothing(db: Db, w: World, list: seq<Change>)
    requires OneRow(list) && ApplyRow(db, w, list).Some?
    requires forall ch :: ch in list ==> Seen(db, ch)
    ensures ApplyRow(db, w, list) == Some(db)
  {
    if SchemaOf(db, list[0].table) != [] {
      EmptyIsOldest();
      var known := ColumnNames(SchemaOf(db, list[0].table));
      var row := RowAt(db, list[0].table, RowNamed(db, list[0]).value);
      var m := StartMerge(row, list[0]);
      MergeFacts(known, m, list);
      forall ch | ch in list && ch.column in known
        ensures !Newer(ch.hlc, HlcIn(m.hlcs, ch.column))
      {
        assert Seen(db, ch) && RowKeyOf(ch) == RowKeyOf(list[0]);
      }
      assert MergeAll(known, m, list).pending <= db.pending;
      assert db.pending + MergeAll(known, m, list).pending == db.pending;
    }
  }

  lemma {:induction false} SeenRowsWriteNothing(db: Db, w: World, gs: seq<Group<RowKey>>)
    requires RowLists(gs) && ApplyRows(db, w, gs).Some?
    requires forall ch :: ch in Flatten(gs) ==> Seen(db, ch)
    ensures ApplyRows(db, w, gs) == Some(db)
  {
    if gs != [] {
      SeenRowsWriteNothing(db, w, gs[..|gs| - 1]);
      SeenRowWritesNothing(db, w, gs[|gs| - 1].members);
    }
  }

  /** Re-applying a committed batch leaves the whole database as it is: values, column HLCs,
      row HLCs, pending columns, conflicts and dirty marks. */
  lemma {:induction false} ReapplyIsIdentity(before: Db, cs: seq<Change>, w: World, after: Db, w': World, again: Db)
    requires ValidWorld(w) && NoConflicts(w) && ValidWorld(w')
    requires Commits(before, cs, w, after) && Commits(after, cs, w', again)
    requires NoDeletes(cs) && forall ch :: ch in cs ==> WellNamed(before, ch)
    ensures again == after
  {
    hide Rank;
    var gs, mid, order :| CommitsVia(before, cs, w, after, gs, mid, order);
    var gs', mid', order' :| CommitsVia(after, cs, w', again, gs', mid', order');
    var start, start' := before.(triggersOn := false), after.(triggersOn := false);
    NoDeletesToPropagate(cs, order);
    NoDeletesToPropagate(cs, order');
    SameMembers(cs, gs);
    SameMembers(cs, gs');
    forall ch | ch in Flatten(gs) ensures WellNamed(start, ch) {
      assert WellNamed(before, ch);
    }
    RowsKeepSetting(start, w, gs);
    forall ch | ch in Flatten(gs') ensures Seen(start', ch) {
      RowsAreSeen(start, w, gs, ch);
      assert Seen(mid, ch);
    }
    SeenRowsWriteNothing(start', w', gs');
  }

  // ---------------------------------------------------------------------------------------
  // No sync loop
  // ---------------------------------------------------------------------------------------

  lemma {:induction false} PropagationKeepsSetting(db: Db, w: World, ids: seq<Name>)
    requires ValidWorld(w) && !db.triggersOn && PropagateAll(db, w, ids).Some?
    ensures SameSetting(db, PropagateAll(db, w, ids).value)
  {
    if ids != [] {
      PropagationKeepsSetting(db, w, ids[..|ids| - 1]);
    }
  }

  /** Propagating deletes only removes rows. */
  lemma {:induction false} PropagationRemoves(db: Db, w: World, ids: seq<Name>)
    requires ValidWorld(w) && !db.triggersOn && PropagateAll(db, w, ids).Some?
    ensures SameSetting(db, PropagateAll(db, w, ids).value)
    ensures forall table, pk :: RowExists(PropagateAll(db, w, ids).value, table, pk)
              ==> RowAt(PropagateAll(db, w, ids).value, table, pk) == RowAt(db, table, pk)
  {
    if ids != [] {
      PropagationRemoves(db, w, ids[..|ids| - 1]);
    }
  }

  /** Every committed batch, deletes and conflicts included, leaves the dirty set as it was and
      triggers on. */
  lemma {:induction false} CommitNeverDirties(before: Db, cs: seq<Change>, w: World, after: Db)
    requires ValidWorld(w) && Commits(before, cs, w, after)
    ensures after.dirty == before.dirty && after.triggersOn && after.schemas == before.schemas
  {
    var gs, mid, order :| CommitsVia(before, cs, w, after, gs, mid, order);
    SameMembers(cs, gs);
    RowsKeepSetting(before.(triggersOn := false), w, gs);
    PropagationKeepsSetting(mid, w, order);
  }

  /** One call of the apply path as others see it: it commits, or it leaves everything. */
  ghost predicate ApplyStep(before: Db, after: Db) {
    after == before || exists cs, w :: ValidWorld(w) && Commits(before, cs, w, after)
  }

  /** In every run of applies that may fail anywhere, the dirty set never changes, and triggers
      that were on stay on. */
  lemma {:induction false} RunNeverDirties(dbs: seq<Db>)
    requires dbs != [] && dbs[0].triggersOn
    requires forall i :: 0 <= i < |dbs| - 1 ==> ApplyStep(dbs[i], dbs[i + 1])
    ensures forall i :: 0 <= i < |dbs| ==> dbs[i].dirty == dbs[0].dirty && dbs[i].triggersOn
  {
    hide Commits;
    if |dbs| > 1 {
      var n := |dbs| - 1;
      RunNeverDirties(dbs[..n]);
      assert ApplyStep(dbs[n - 1], dbs[n]);
      if dbs[n] != dbs[n - 1] {
        var cs, w :| ValidWorld(w) && Commits(dbs[n - 1], cs, w, dbs[n]);
        CommitNeverDirties(dbs[n - 1], cs, w, dbs[n]);
      }
      assert forall i :: 0 <= i < n ==> dbs[..n][i] == dbs[i];
    }
  }

  /** A local UPDATE that touches no tracked column does not dirty its table. */
  lemma {:induction false} MetadataUpdateIsClean(db: Db, table: Name, pk: Pk, before: Row, after: Row)
    ensures (forall c :: c in Tracked(db, table) ==> ValueIn(after.cells, c) == ValueIn(before.cells, c))
            ==> UpdateStmt(db, table, pk, before, after).dirty == db.dirty
    ensures db.triggersOn && after.rowHlc.Some? && table !in db.dirty ==>
            (table in UpdateStmt(db, table, pk, before, after).dirty
             <==> exists c :: c in Tracked(db, table) && ValueIn(after.cells, c) != ValueIn(before.cells, c))
  {
    var changed := ChangedColumns(Tracked(db, table), before, after);
    if forall c :: c in Tracked(db, table) ==> ValueIn(after.cells, c) == ValueIn(before.cells, c) {
      assert changed == {};
    } else {
      var c :| c in Tracked(db, table) && ValueIn(after.cells, c) != ValueIn(before.cells, c);
      assert c in changed;
    }
  }
}
