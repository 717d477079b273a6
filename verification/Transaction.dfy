/**
  The call itself (`src-tauri/src/crdt/commands.rs:550-1038`): a vault connection on which a batch
  is validated, applied in one transaction with foreign keys off, and committed or rolled back.
 */
module Transaction {
  import opened Wrappers
  import HlcText
  import opened Store
  import opened Grouping
  import opened RowMerge
  import opened Apply
  import Convergence
  import Idempotence
  import opened Progress

  datatype Outcome = Ok | Invalid | Failed

  predicate SafeNames(ch: Change) {
    IsSafeIdentifier(ch.table) && IsSafeIdentifier(ch.column)
  }

  lemma {:induction false} CommittedVia(before: Db, cs: seq<Change>, w: World, after: Db,
                                        gs: seq<Group<RowKey>>, mid: Db, order: seq<Name>)
    requires ValidWorld(w) && CommitsVia(before, cs, w, after, gs, mid, order)
    ensures Commits(before, cs, w, after)
  {
  }

  /** A vault connection. Where the world has faults, statements may fail at any point; a failed
      transaction rolls back. */
  class Vault {
    var db: Db
    var foreignKeysOn: bool

    constructor (db: Db)
      ensures this.db == db && foreignKeysOn
    {
      this.db := db;
      foreignKeysOn := true;
    }

    /** The body of the row loop. */
    method ApplyRowChanges(list: seq<Change>, w: World) returns (ok: bool)
      requires list != []
      modifies this`db
      ensures ok ==> ApplyRow(old(db), w, list) == Some(db)
      ensures !ok ==> db == old(db)
      ensures SchemaOf(old(db), list[0].table) == [] ==> ok && db == old(db)
      ensures !w.faults && ApplyRow(old(db), w, list).Some? ==> ok
    {
      var first := list[0];
      var schema := SchemaOf(db, first.table);
      if schema == [] {
        return true;
      }
      if first.rowPks.NotAnObject? || PkNames(schema) == [] {
        return false;
      }
      var pk := WherePk(PkNames(schema), first.rowPks.fields);
      var row := RowAt(db, first.table, pk);
      var known := ColumnNames(schema);
      var columnHlcs := if row.Some? then row.value.hlcs else map[];
      var columnsToUpdate: seq<Change> := [];
      var maxHlcForRow := first.hlc;
      var pending: set<(Name, Name)> := {};
      for i := 0 to |list|
        invariant Merge(columnHlcs, columnsToUpdate, maxHlcForRow, pending)
                  == MergeAll(known, StartMerge(row, first), list[..i])
      {
        var change := list[i];
        assert list[..i + 1][..i] == list[..i];
        if change.column !in known {
          pending := pending + {(change.table, change.column)};
          columnHlcs := columnHlcs[change.column := change.hlc];
        } else if HlcText.Newer(change.hlc, HlcIn(columnHlcs, change.column)) {
          columnHlcs := columnHlcs[change.column := change.hlc];
          columnsToUpdate := columnsToUpdate + [change];
          if HlcText.Newer(change.hlc, maxHlcForRow) {
            maxHlcForRow := change.hlc;
          }
        }
      }
      assert list[..|list|] == list;
      if w.faults {
        if * {
          return false;
        }
      }
      db := WriteRow(db, w, first.table, first.rowPks.fields, pk,
                     Merge(columnHlcs, columnsToUpdate, maxHlcForRow, pending));
      return true;
    }

    method PropagateDeletedRows(ids: set<Name>, w: World) returns (ok: bool, ghost order: seq<Name>)
      requires ValidWorld(w)
      modifies this`db
      ensures ok ==> Enumerates(order, ids) && PropagateAll(old(db), w, order) == Some(db)
      ensures !w.faults && !old(db).triggersOn && LogReadable(old(db)) ==> ok
    {
      hide PropagateOne, Enumerates, LogReadable;
      order := [];
      assert ids - ids == {};
      EnumerateNone();
      var rest := ids;
      while rest != {}
        invariant rest <= ids && Enumerates(order, ids - rest)
        invariant PropagateAll(old(db), w, order) == Some(db)
        decreases rest
      {
        if !old(db).triggersOn && LogReadable(old(db)) {
          PropagationApplies(old(db), w, order);
          Idempotence.PropagationKeepsSetting(old(db), w, order);
        }
        var id :| id in rest;
        if !db.triggersOn && LogReadable(db) {
          OneApplies(db, w, id);
        }
        var next := PropagateOne(db, w, id);
        if next.None? {
          return false, order;
        }
        if w.faults {
          if * {
            return false, order;
          }
        }
        assert (order + [id])[..|order|] == order;
        EnumerateOneMore(order, ids - rest, id);
        assert ids - (rest - {id}) == ids - rest + {id};
        db, order, rest := next.value, order + [id], rest - {id};
      }
      assert ids - rest == ids;
      return true, order;
    }

    /** The transaction of one batch. Foreign keys cannot be switched inside it and must be off. */
    method ApplyInTransaction(changes: seq<Change>, w: World) returns (ok: bool)
      requires ValidWorld(w) && !foreignKeysOn
      modifies this`db
      ensures if ok then Commits(old(db), changes, w, db) else db == old(db)
      ensures !w.faults && Committable(old(db), changes) ==> ok
    {
      hide Commits, ApplyRow, PropagateAll, RowGrouping, LogReadable, LogChangesReadable, WellFormedBatch;
      var snapshot := db;
      db := db.(triggersOn := false);
      var gs := GroupBatch(changes);
      ghost var start := db;
      Convergence.SameMembers(changes, gs);
      if Committable(snapshot, changes) {
        StartIsCommittable(snapshot, changes);
      }
      for i := 0 to |gs|
        invariant ApplyRows(start, w, gs[..i]) == Some(db)
      {
        assert gs[..i + 1][..i] == gs[..i];
        if Committable(start, changes) {
          BatchApplies(start, w, changes, gs, i + 1);
        }
        var applied := ApplyRowChanges(gs[i].members, w);
        if !applied {
          db := snapshot;
          return false;
        }
      }
      assert gs[..|gs|] == gs;
      ghost var mid := db;
      if Committable(start, changes) {
        GroupsKeepReadable(start, w, changes, gs, |gs|);
      }
      var propagated, order := PropagateDeletedRows(InboundDeleteIds(changes), w);
      if !propagated {
        db := snapshot;
        return false;
      }
      db := db.(triggersOn := true);
      if w.faults {
        if * {
          db := snapshot;
          return false;
        }
      }
      CommittedVia(snapshot, changes, w, db, gs, mid, order);
      return true;
    }

    /** The whole call: validation first, then the transaction with foreign keys off. */
    method ApplyRemoteChanges(changes: seq<Change>, w: World) returns (r: Outcome)
      requires ValidWorld(w)
      modifies this
      ensures r == Ok ==> Commits(old(db), changes, w, db)
      ensures r != Ok ==> db == old(db)
      ensures r == Invalid <==> exists ch :: ch in changes && (!IsSafeIdentifier(ch.table) || !IsSafeIdentifier(ch.column))
      ensures !w.faults && Committable(old(db), changes) && (forall ch :: ch in changes ==> SafeNames(ch)) ==> r == Ok
      ensures r == Ok ==> foreignKeysOn
      ensures old(foreignKeysOn) ==> foreignKeysOn
    {
      for i := 0 to |changes|
        invariant forall k :: 0 <= k < i ==> SafeNames(changes[k])
      {
        if !SafeNames(changes[i]) {
          return Invalid;
        }
      }
      if w.faults {
        if * {
          return Failed;
        }
      }
      foreignKeysOn := false;
      var ok := ApplyInTransaction(changes, w);
      foreignKeysOn := true;
      return if ok then Ok else Failed;
    }
  }
}
