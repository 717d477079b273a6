/**
  What a scan filtered to this node shows, row fallback included: a column without its own HLC is
  shown under the row's. Which local statements and which remote batches make this node vouch for
  a value it did not write, and which runs never do.
 */
module OwnScans {
  import opened Wrappers
  import opened HlcText
  import opened Store
  import opened Triggers
  import opened Grouping
  import opened RowMerge
  import opened Apply
  import opened Convergence
  import Idempotence
  import Keys
  import opened Scanner
  import opened LocalRuns
  import opened PingPong

  /** A column shown under an HLC of ours holds what we wrote under it. */
  ghost predicate ShownIsOurs(row: Row, table: Name, pk: Pk, c: Name, written: iset<Fact>, node: nat) {
    EffectiveHlc(row, c).Some? && IsFromNode(EffectiveHlc(row, c).value, node)
    ==> Fact(table, pk, c, EffectiveHlc(row, c).value, ValueIn(row.cells, c)) in written
  }

  ghost predicate ShownAt(db: Db, table: Name, pk: Pk, c: Name, written: iset<Fact>, node: nat) {
    RowExists(db, table, pk) && c in DataColumns(SchemaOf(db, table))
    ==> ShownIsOurs(TableOf(db, table)[pk], table, pk, c, written, node)
  }

  ghost predicate ShownAreOurs(db: Db, written: iset<Fact>, node: nat) {
    forall table, pk, c :: ShownAt(db, table, pk, c, written, node)
  }

  lemma {:induction false} ShownCoversCells(db: Db, written: iset<Fact>, node: nat)
    requires ShownAreOurs(db, written, node)
    ensures CellsAreOurs(db, written, node)
  {
    hide IsFromNode;
    NoNodeWithoutHlc(node);
    forall table, pk, c | c in DataColumns(SchemaOf(db, table))
      ensures CellIsOurs(CellAt(db, table, pk, c), table, pk, c, written, node)
    {
      assert ShownAt(db, table, pk, c, written, node);
    }
  }

  // ---------------------------------------------------------------------------------------
  // Local statements
  // ---------------------------------------------------------------------------------------

  /** The update leaves a data column as it is that has no HLC of its own, so that the scan shows
      it under the update's HLC, under which we did not write it. */
  ghost predicate LeavesUnstamped(db: Db, written: iset<Fact>, op: Op, node: nat) {
    && op.Update? && RowExists(db, op.table, op.pk) && IsFromNode(op.hlc, node)
    && exists c :: c in DataColumns(SchemaOf(db, op.table)) && UnstampedColumn(db, written, op, c)
  }

  ghost predicate UnstampedColumn(db: Db, written: iset<Fact>, op: Op, c: Name) {
    && op.Update? && RowExists(db, op.table, op.pk) && c !in TableOf(db, op.table)[op.pk].hlcs
    && (c in op.cells ==> op.cells[c] == CellAt(db, op.table, op.pk, c).value)
    && Fact(op.table, op.pk, c, op.hlc, CellAt(db, op.table, op.pk, c).value) !in written
  }

  lemma {:induction false} UpdatedColumn(db: Db, op: Op, c: Name)
    requires db.triggersOn && op.Update? && RowExists(db, op.table, op.pk) && c in DataColumns(SchemaOf(db, op.table))
    ensures var before := TableOf(db, op.table)[op.pk];
            var value := if c in op.cells then op.cells[c] else ValueIn(before.cells, c);
            match RowAt(Exec(db, op), op.table, op.pk)
            case None => false
            case Some(after) =>
              && ValueIn(after.cells, c) == value
              && EffectiveHlc(after, c) ==
                   (if value != ValueIn(before.cells, c) && !KeyHasNull(op.pk) then Some(op.hlc)
                    else if c in before.hlcs then Some(before.hlcs[c]) else Some(op.hlc))
  {
    ExecRow(db, op, op.table, op.pk);
    TrackedIsScanned(SchemaOf(db, op.table));
    assert c in Tracked(db, op.table);
    hide Exec;
  }

  lemma {:induction false} UpdateShows(s: Device, op: Op, s': Device, node: nat, c: Name)
    requires s.db.triggersOn && LocalStep(s, op, s') && ShownAreOurs(s.db, s.written, node)
    requires op.Update? && RowExists(s.db, op.table, op.pk) && c in DataColumns(SchemaOf(s.db, op.table))
    requires !Stales(s.db, s.written, op, node) && !LeavesUnstamped(s.db, s.written, op, node)
    ensures RowExists(s'.db, op.table, op.pk)
    ensures ShownIsOurs(TableOf(s'.db, op.table)[op.pk], op.table, op.pk, c, s'.written, node)
  {
    hide Exec, IsFromNode;
    var before := TableOf(s.db, op.table)[op.pk];
    UpdatedColumn(s.db, op, c);
    assert ShownAt(s.db, op.table, op.pk, c, s.written, node);
    assert !StalesColumn(s.db, s.written, op, node, c) || !KeyHasNull(op.pk);
    assert !UnstampedColumn(s.db, s.written, op, c) || !IsFromNode(op.hlc, node);
    var after := TableOf(s'.db, op.table)[op.pk];
    var f := Fact(op.table, op.pk, c, op.hlc, ValueIn(after.cells, c));
    if ValueIn(after.cells, c) != ValueIn(before.cells, c) {
      assert WroteBy(s.db, op, f);
    }
  }

  lemma {:induction false} CreatedShows(s: Device, op: Op, s': Device, node: nat, table: Name, pk: Pk, c: Name)
    requires s.db.triggersOn && LocalStep(s, op, s') && ShownAreOurs(s.db, s.written, node)
    requires c in DataColumns(SchemaOf(s.db, table)) && RowExists(s'.db, table, pk)
    requires !(op.Update? && op.table == table && op.pk == pk && RowExists(s.db, table, pk))
    ensures ShownIsOurs(TableOf(s'.db, table)[pk], table, pk, c, s'.written, node)
  {
    hide IsFromNode;
    ExecRow(s.db, op, table, pk);
    TrackedIsScanned(SchemaOf(s.db, table));
    assert c in Tracked(s.db, table);
    hide Exec;
    var after := TableOf(s'.db, table)[pk];
    if RowAt(s.db, table, pk) == Some(after) {
      assert ShownAt(s.db, table, pk, c, s.written, node);
    } else {
      assert WroteBy(s.db, op, Fact(table, pk, c, op.hlc, ValueIn(after.cells, c)));
    }
  }

  lemma {:induction false} UnstampedIsVouched(s: Device, op: Op, s': Device, node: nat)
    requires s.db.triggersOn && LocalStep(s, op, s') && LeavesUnstamped(s.db, s.written, op, node)
    ensures !ShownAreOurs(s'.db, s'.written, node)
  {
    hide Exec, IsFromNode;
    var c :| c in DataColumns(SchemaOf(s.db, op.table)) && UnstampedColumn(s.db, s.written, op, c);
    UpdatedColumn(s.db, op, c);
    ExecSchemas(s, op, s');
    var f := Fact(op.table, op.pk, c, op.hlc, CellAt(s.db, op.table, op.pk, c).value);
    assert !WroteBy(s.db, op, f);
    assert !ShownAt(s'.db, op.table, op.pk, c, s'.written, node);
  }

  /** A local statement keeps everything an own scan shows among our writes, exactly when it is no
      update that makes a stamp stale or leaves a column without one. */
  lemma {:induction false} LocalShows(s: Device, op: Op, s': Device, node: nat)
    requires s.db.triggersOn && LocalStep(s, op, s') && ShownAreOurs(s.db, s.written, node)
    ensures ShownAreOurs(s'.db, s'.written, node)
            <==> !Stales(s.db, s.written, op, node) && !LeavesUnstamped(s.db, s.written, op, node)
  {
    hide Stales, LeavesUnstamped, ShownIsOurs, LocalStep, CellsAreOurs;
    ExecSchemas(s, op, s');
    if Stales(s.db, s.written, op, node) {
      StaleCell(s, op, s', node);
      if ShownAreOurs(s'.db, s'.written, node) {
        ShownCoversCells(s'.db, s'.written, node);
      }
    } else if LeavesUnstamped(s.db, s.written, op, node) {
      UnstampedIsVouched(s, op, s', node);
    } else {
      forall table, pk, c ensures ShownAt(s'.db, table, pk, c, s'.written, node) {
        if RowExists(s'.db, table, pk) && c in DataColumns(SchemaOf(s'.db, table)) {
          if op.Update? && op.table == table && op.pk == pk && RowExists(s.db, table, pk) {
            UpdateShows(s, op, s', node, c);
          } else {
            CreatedShows(s, op, s', node, table, pk, c);
          }
        }
      }
    }
  }

  // ---------------------------------------------------------------------------------------
  // Row groups of a remote batch
  // ---------------------------------------------------------------------------------------

  /** The column has no HLC entry, and no change of the group gives it one. */
  ghost predicate StaysUnstamped(db: Db, list: seq<Change>, table: Name, pk: Pk, c: Name) {
    && (RowExists(db, table, pk) ==> c !in TableOf(db, table)[pk].hlcs)
    && forall ch :: ch in list && ch.column == c ==> Rank(ch.hlc) == 0
  }

  /** The group writes a row HLC of ours over a column that stays without its own, with a value we
      did not write under that HLC. */
  ghost predicate GroupVouches(db: Db, w: World, list: seq<Change>, written: iset<Fact>, node: nat)
    requires list != []
  {
    match GroupRow(db, w, list)
    case None => false
    case Some((pk, row)) =>
      && row.rowHlc.Some? && IsFromNode(row.rowHlc.value, node)
      && exists c :: c in DataColumns(SchemaOf(db, list[0].table)) && StaysUnstamped(db, list, list[0].table, pk, c)
           && Fact(list[0].table, pk, c, row.rowHlc.value, CellAt(db, list[0].table, pk, c).value) !in written
  }

  lemma {:induction false} EntryAfterMerge(known: set<Name>, m: Merge, cs: seq<Change>, c: Name)
    requires c in known
    ensures c in MergeAll(known, m, cs).hlcs
            <==> c in m.hlcs || exists ch :: ch in cs && ch.column == c && Rank(ch.hlc) > 0
  {
    hide Rank;
    EmptyIsOldest();
    if cs != [] {
      var n := |cs| - 1;
      EntryAfterMerge(known, m, cs[..n], c);
      assert cs == cs[..n] + [cs[n]];
    }
  }

  lemma {:induction false} UnassignedKeeps(cells: map<Name, Value>, accepted: seq<Change>, c: Name)
    requires forall ch :: ch in accepted ==> ch.column != c
    ensures ValueIn(AssignLast(cells, accepted), c) == ValueIn(cells, c) && c !in AssignFirst(accepted)
  {
    if accepted != [] {
      var n := |accepted| - 1;
      assert accepted[n] in accepted;
      UnassignedKeeps(cells, accepted[..n], c);
    }
  }

  /** A column of the written row has no entry exactly when it stays unstamped, and then its old
      value. */
  lemma {:induction false} GroupColumn(db: Db, w: World, list: seq<Change>, c: Name)
    requires OneRow(list) && GroupRow(db, w, list).Some? && c in DataColumns(SchemaOf(db, list[0].table))
    ensures var (pk, row) := GroupRow(db, w, list).value;
            && row.rowHlc.Some?
            && (c !in row.hlcs <==> StaysUnstamped(db, list, list[0].table, pk, c))
            && (c !in row.hlcs ==> ValueIn(row.cells, c) == CellAt(db, list[0].table, pk, c).value)
  {
    hide Rank, MergeAll, Keys.InsertPk, AssignLast, AssignFirst;
    var schema := SchemaOf(db, list[0].table);
    var named := WherePk(PkNames(schema), list[0].rowPks.fields);
    var held := RowAt(db, list[0].table, named);
    var known, m0 := ColumnNames(schema), StartMerge(held, list[0]);
    DataColumnsAreOrdinary(schema, c);
    EntryAfterMerge(known, m0, list, c);
    MergeFacts(known, m0, list);
    if c !in MergeAll(known, m0, list).hlcs {
      UnassignedKeeps(if held.Some? then held.value.cells else map[], MergeAll(known, m0, list).accepted, c);
    }
  }

  /** A row group keeps everything an own scan shows among our writes, exactly when it does not
      write a row HLC of ours over a column without its own. */
  lemma {:induction false} GroupShows(db: Db, w: World, list: seq<Change>, written: iset<Fact>, node: nat)
    requires OneRow(list) && !db.triggersOn && ApplyRow(db, w, list).Some?
    requires ShownAreOurs(db, written, node) && Faithful(db, list, written, node)
    ensures ShownAreOurs(ApplyRow(db, w, list).value, written, node) <==> !GroupVouches(db, w, list, written, node)
  {
    hide Rank, IsFromNode, ApplyRow, GroupRow, Faithful, StaysUnstamped;
    var after, table := ApplyRow(db, w, list).value, list[0].table;
    RowFrame(db, w, list);
    ShownCoversCells(db, written, node);
    if GroupVouches(db, w, list, written, node) {
      var (pk, row) := GroupRow(db, w, list).value;
      var c :| c in DataColumns(SchemaOf(db, table)) && StaysUnstamped(db, list, table, pk, c)
               && Fact(table, pk, c, row.rowHlc.value, CellAt(db, table, pk, c).value) !in written;
      GroupWrites(db, w, list, table, pk);
      GroupColumn(db, w, list, c);
      assert !ShownAt(after, table, pk, c, written, node);
    } else {
      forall t, pk, c ensures ShownAt(after, t, pk, c, written, node) {
        GroupWrites(db, w, list, t, pk);
        assert ShownAt(db, t, pk, c, written, node);
        if GroupRow(db, w, list).Some? && table == t && GroupRow(db, w, list).value.0 == pk
           && c in DataColumns(SchemaOf(db, t)) {
          GroupColumn(db, w, list, c);
          GroupCellIsOurs(db, w, list, written, node, c);
        }
      }
    }
  }

  /** Foreign changes never make us vouch for anything. */
  lemma {:induction false} ForeignGroupIsQuiet(db: Db, w: World, list: seq<Change>, written: iset<Fact>, node: nat)
    requires OneRow(list) && forall ch :: ch in list ==> !IsFromNode(ch.hlc, node)
    ensures !GroupVouches(db, w, list, written, node)
  {
    hide IsFromNode, GroupRow;
    if GroupRow(db, w, list).Some? {
      GroupRowHlcs(db, w, list);
    }
  }

  /** An echo of one column onto a row we no longer have vouches exactly when we did not write NULL
      into every other data column under its HLC. */
  lemma {:induction false} EchoVouches(db: Db, w: World, ch: Change, pk: Pk, written: iset<Fact>, node: nat)
    requires WellNamed(db, ch) && RowNamed(db, ch) == Some(pk) && !RowExists(db, ch.table, pk) && !w.unique(ch.table, pk)
    requires ch.column in ColumnNames(SchemaOf(db, ch.table)) && Rank(ch.hlc) > 0
    ensures GroupVouches(db, w, [ch], written, node) <==>
            && IsFromNode(ch.hlc, node)
            && exists d :: d in DataColumns(SchemaOf(db, ch.table)) && d != ch.column
                           && Fact(ch.table, pk, d, ch.hlc, Null) !in written
  {
    hide Rank, IsFromNode, Keys.InsertPk;
    EmptyIsOldest();
    var known, m0 := ColumnNames(SchemaOf(db, ch.table)), StartMerge(None, ch);
    Keys.InsertedKey(PkNames(SchemaOf(db, ch.table)), ch.rowPks.fields);
    assert [ch][..0] == [];
    assert MergeAll(known, m0, [ch]) == MergeOne(known, m0, ch);
    hide MergeAll;
    assert GroupRow(db, w, [ch]).Some? && GroupRow(db, w, [ch]).value.0 == pk
           && GroupRow(db, w, [ch]).value.1.rowHlc == Some(ch.hlc);
    hide GroupRow;
    forall d ensures StaysUnstamped(db, [ch], ch.table, pk, d) <==> d != ch.column {
      assert ch in [ch];
    }
    hide StaysUnstamped;
    assert forall d :: CellAt(db, ch.table, pk, d).value == Null;
  }

  /** No group of the batch vouches, in the state it is applied to. */
  ghost predicate QuietGroups(db: Db, w: World, gs: seq<Group<RowKey>>, written: iset<Fact>, node: nat)
    requires RowLists(gs)
  {
    forall k :: 0 <= k < |gs| ==> QuietAt(db, w, gs, written, node, k)
  }

  ghost predicate QuietAt(db: Db, w: World, gs: seq<Group<RowKey>>, written: iset<Fact>, node: nat, k: nat)
    requires RowLists(gs) && k < |gs|
  {
    ApplyRows(db, w, gs[..k]).Some? ==>
      !GroupVouches(ApplyRows(db, w, gs[..k]).value, w, gs[k].members, written, node)
  }

  lemma {:induction false} GroupsShow(db: Db, w: World, gs: seq<Group<RowKey>>, written: iset<Fact>, node: nat)
    requires RowLists(gs) && !db.triggersOn && ApplyRows(db, w, gs).Some?
    requires ShownAreOurs(db, written, node) && Faithful(db, Flatten(gs), written, node)
    requires QuietGroups(db, w, gs, written, node)
    ensures ShownAreOurs(ApplyRows(db, w, gs).value, written, node)
  {
    hide Faithful, ShownAreOurs, CellsAreOurs, ApplyRow, GroupVouches;
    if gs != [] {
      var n := |gs| - 1;
      var mid := ApplyRows(db, w, gs[..n]).value;
      FaithfulLater(db, db, Flatten(gs), Flatten(gs[..n]), written, node);
      forall k | 0 <= k < n ensures QuietAt(db, w, gs[..n], written, node, k) {
        assert gs[..n][..k] == gs[..k] && QuietAt(db, w, gs, written, node, k);
      }
      GroupsShow(db, w, gs[..n], written, node);
      ShownCoversCells(db, written, node);
      GroupsKeepCells(db, w, gs[..n], written, node);
      FaithfulLater(db, mid, Flatten(gs), gs[n].members, written, node);
      assert QuietAt(db, w, gs, written, node, n);
      GroupShows(mid, w, gs[n].members, written, node);
    }
  }

  lemma {:induction false} RemovalShows(db: Db, after: Db, written: iset<Fact>, node: nat)
    requires ShownAreOurs(db, written, node) && after.schemas == db.schemas
    requires forall table, pk :: RowExists(after, table, pk) ==> RowAt(after, table, pk) == RowAt(db, table, pk)
    ensures ShownAreOurs(after, written, node)
  {
    forall table, pk, c ensures ShownAt(after, table, pk, c, written, node) {
      assert RowExists(after, table, pk) ==> RowAt(after, table, pk) == RowAt(db, table, pk);
      assert ShownAt(db, table, pk, c, written, node);
    }
  }

  /** The batch was applied through groups none of which vouches. */
  ghost predicate QuietBatch(before: Db, cs: seq<Change>, w: World, after: Db, written: iset<Fact>, node: nat)
    requires ValidWorld(w)
  {
    exists gs, mid, order :: CommitsVia(before, cs, w, after, gs, mid, order)
      && RowLists(gs) && QuietGroups(before.(triggersOn := false), w, gs, written, node)
  }

  lemma {:induction false} BatchShows(before: Db, cs: seq<Change>, w: World, after: Db, written: iset<Fact>, node: nat)
    requires ValidWorld(w) && ShownAreOurs(before, written, node) && Faithful(before, cs, written, node)
    requires QuietBatch(before, cs, w, after, written, node)
    ensures ShownAreOurs(after, written, node)
  {
    hide Faithful, ShownAreOurs, CellsAreOurs, ApplyRows, PropagateAll, RowGrouping, QuietGroups;
    var start := before.(triggersOn := false);
    var gs, mid, order :| CommitsVia(before, cs, w, after, gs, mid, order)
      && RowLists(gs) && QuietGroups(start, w, gs, written, node);
    SameMembers(cs, gs);
    RemovalShows(before, start, written, node);
    FaithfulLater(before, start, cs, Flatten(gs), written, node);
    GroupsShow(start, w, gs, written, node);
    Idempotence.RowsKeepSetting(start, w, gs);
    Idempotence.PropagationRemoves(mid, w, order);
    RemovalShows(mid, after, written, node);
  }

  lemma {:induction false} PrefixApplies(db: Db, w: World, gs: seq<Group<RowKey>>, k: nat)
    requires RowLists(gs) && k <= |gs| && ApplyRows(db, w, gs).Some?
    ensures ApplyRows(db, w, gs[..k]).Some?
  {
    hide ApplyRow;
    if k < |gs| {
      PrefixApplies(db, w, gs[..|gs| - 1], k);
      assert gs[..|gs| - 1][..k] == gs[..k];
    } else {
      assert gs[..k] == gs;
    }
  }

  /** Group by group the condition is exact: everything shown stays among our writes after every
      group exactly when no group vouches. */
  lemma {:induction false} GroupsStayShown(db: Db, w: World, gs: seq<Group<RowKey>>, written: iset<Fact>, node: nat)
    requires RowLists(gs) && !db.triggersOn && ApplyRows(db, w, gs).Some?
    requires ShownAreOurs(db, written, node) && Faithful(db, Flatten(gs), written, node)
    ensures (forall k :: 0 <= k <= |gs| ==>
               ApplyRows(db, w, gs[..k]).Some? && ShownAreOurs(ApplyRows(db, w, gs[..k]).value, written, node))
            <==> QuietGroups(db, w, gs, written, node)
  {
    hide Faithful, ShownAreOurs, CellsAreOurs, ApplyRow, GroupVouches;
    forall k | 0 <= k <= |gs| ensures ApplyRows(db, w, gs[..k]).Some? {
      PrefixApplies(db, w, gs, k);
    }
    if QuietGroups(db, w, gs, written, node) {
      forall k | 0 <= k <= |gs| ensures ShownAreOurs(ApplyRows(db, w, gs[..k]).value, written, node) {
        forall i | 0 <= i < k ensures QuietAt(db, w, gs[..k], written, node, i) {
          assert gs[..k][..i] == gs[..i] && QuietAt(db, w, gs, written, node, i);
        }
        FlattenPrefix(gs, k);
        FaithfulLater(db, db, Flatten(gs), Flatten(gs[..k]), written, node);
        GroupsShow(db, w, gs[..k], written, node);
      }
    }
    if forall k :: 0 <= k <= |gs| ==> ShownAreOurs(ApplyRows(db, w, gs[..k]).value, written, node) {
      forall k | 0 <= k < |gs| ensures QuietAt(db, w, gs, written, node, k) {
        GroupStaysShown(db, w, gs, written, node, k);
      }
    }
  }

  lemma {:induction false} GroupStaysShown(db: Db, w: World, gs: seq<Group<RowKey>>, written: iset<Fact>, node: nat,
                                           k: nat)
    requires RowLists(gs) && !db.triggersOn && k < |gs|
    requires ShownAreOurs(db, written, node) && Faithful(db, Flatten(gs), written, node)
    requires ApplyRows(db, w, gs[..k]).Some? && ShownAreOurs(ApplyRows(db, w, gs[..k]).value, written, node)
    requires ApplyRows(db, w, gs[..k + 1]).Some? && ShownAreOurs(ApplyRows(db, w, gs[..k + 1]).value, written, node)
    ensures QuietAt(db, w, gs, written, node, k)
  {
    hide Faithful, ShownAreOurs, CellsAreOurs, ApplyRow, GroupVouches;
    var mid := ApplyRows(db, w, gs[..k]).value;
    assert gs[..k + 1][..k] == gs[..k] && gs[..k + 1][k] == gs[k];
    FlattenPrefix(gs, k);
    FlattenPrefix(gs, k + 1);
    FaithfulLater(db, db, Flatten(gs), Flatten(gs[..k]), written, node);
    ShownCoversCells(db, written, node);
    GroupsKeepCells(db, w, gs[..k], written, node);
    forall ch | ch in gs[k].members ensures ch in Flatten(gs) {
      assert ch in Flatten(gs[..k + 1]);
    }
    FaithfulLater(db, mid, Flatten(gs), gs[k].members, written, node);
    GroupShows(mid, w, gs[k].members, written, node);
  }

  lemma {:induction false} FlattenPrefix(gs: seq<Group<RowKey>>, k: nat)
    requires k <= |gs|
    ensures forall ch :: ch in Flatten(gs[..k]) ==> ch in Flatten(gs)
  {
    if k < |gs| {
      FlattenPrefix(gs[..|gs| - 1], k);
      assert gs[..|gs| - 1][..k] == gs[..k];
    } else {
      assert gs[..k] == gs;
    }
  }

  // ---------------------------------------------------------------------------------------
  // Runs
  // ---------------------------------------------------------------------------------------

  /** A step that breaks nothing: see `LocalShows` and `GroupShows`. */
  ghost predicate QuietStep(s: Device, e: Event, s': Device, node: nat) {
    && Step(s, e, s', node)
    && match e
       case Local(op) => !Stales(s.db, s.written, op, node) && !LeavesUnstamped(s.db, s.written, op, node)
       case Remote(cs, w) => ValidWorld(w) && QuietBatch(s.db, cs, w, s'.db, s.written, node)
  }

  lemma {:induction false} QuietStepShows(s: Device, e: Event, s': Device, node: nat)
    requires Inv(s, node) && ShownAreOurs(s.db, s.written, node) && QuietStep(s, e, s', node)
    ensures Inv(s', node) && ShownAreOurs(s'.db, s'.written, node)
  {
    hide ShownAreOurs, HlcsAreIssued, Stales, LeavesUnstamped, LocalStep, QuietBatch, Commits, Faithful;
    match e
    case Local(op) =>
      LocalShows(s, op, s', node);
      LocalKeepsInv(s, op, s', node);
    case Remote(cs, w) =>
      BatchShows(s.db, cs, w, s'.db, s.written, node);
      RemoteKeepsInv(s, cs, w, s', node);
  }

  ghost predicate QuietRun(run: seq<Device>, events: seq<Event>, node: nat) {
    && |run| == |events| + 1
    && forall i :: 0 <= i < |events| ==> QuietStep(run[i], events[i], run[i + 1], node)
  }

  lemma {:induction false} QuietRunShows(run: seq<Device>, events: seq<Event>, node: nat)
    requires QuietRun(run, events, node) && Inv(run[0], node) && ShownAreOurs(run[0].db, run[0].written, node)
    ensures Inv(run[|events|], node) && ShownAreOurs(run[|events|].db, run[|events|].written, node)
  {
    hide ShownAreOurs, Inv, QuietStep;
    if events != [] {
      var n := |events| - 1;
      forall i | 0 <= i < n ensures QuietStep(run[..n + 1][i], events[..n][i], run[..n + 1][i + 1], node) {
        assert QuietStep(run[i], events[i], run[i + 1], node);
      }
      QuietRunShows(run[..n + 1], events[..n], node);
      assert QuietStep(run[n], events[n], run[n + 1], node);
      QuietStepShows(run[n], events[n], run[n + 1], node);
    }
  }

  /** In every run of steps that break nothing, each change a scan filtered to this node emits is a
      write of this node: same row, column, HLC and value. */
  lemma {:induction false} QuietRunsPushOwnWrites(run: seq<Device>, events: seq<Event>, node: nat,
                                                  table: Name, q: Query, pk: Pk, ch: Change)
    requires QuietRun(run, events, node) && Inv(run[0], node) && ShownAreOurs(run[0].db, run[0].written, node)
    requires var db := run[|events|].db;
             RowExists(db, table, pk) && EmitsFrom(SchemaOf(db, table), table, pk, TableOf(db, table)[pk], q, ch)
    requires q.origin == Some(node)
    ensures Fact(table, pk, ch.column, ch.hlc, ch.value) in run[|events|].written
  {
    hide Rank, Lex, IsFromNode, QuietStep, Inv;
    QuietRunShows(run, events, node);
    var s := run[|events|];
    assert ShownAt(s.db, table, pk, ch.column, s.written, node);
  }

  // ---------------------------------------------------------------------------------------
  // Complete rows
  // ---------------------------------------------------------------------------------------

  /** Every scanned column of every row carries an HLC of its own. */
  ghost predicate Stamped(db: Db) {
    forall table, pk, c :: RowExists(db, table, pk) && c in DataColumns(SchemaOf(db, table))
      ==> Rank(CellAt(db, table, pk, c).hlc) > 0
  }

  /** Whenever all rows are complete, an own scan pushes own writes only: whatever the batches were,
      it is enough that no statement made a stamp stale. */
  lemma {:induction false} CompleteRunsOnlyPushOwnWrites(run: seq<Device>, events: seq<Event>, node: nat,
                                                         table: Name, q: Query, pk: Pk, ch: Change)
    requires Run(run, events, node) && Inv(run[0], node) && CellsAreOurs(run[0].db, run[0].written, node)
    requires NeverStales(run, events, node) && Stamped(run[|events|].db)
    requires var db := run[|events|].db;
             RowExists(db, table, pk) && EmitsFrom(SchemaOf(db, table), table, pk, TableOf(db, table)[pk], q, ch)
    requires q.origin == Some(node)
    ensures Fact(table, pk, ch.column, ch.hlc, ch.value) in run[|events|].written
  {
    hide Rank, Lex, IsFromNode, Step, Inv, NeverStales, CellsAreOurs;
    EmptyIsOldest();
    NoPingPong(run, events, node, table, q, pk, ch);
    var s := run[|events|];
    assert Rank(CellAt(s.db, table, pk, ch.column).hlc) > 0;
  }

  lemma {:induction false} LocalKeepsStamped(db: Db, op: Op)
    requires db.triggersOn && Stamped(db) && Rank(op.hlc) > 0 && (op.Insert? ==> !KeyHasNull(op.pk))
    ensures Stamped(Exec(db, op))
  {
    hide Rank;
    ExecFrame(db, op);
    EmptyIsOldest();
    forall table, pk, c | RowExists(Exec(db, op), table, pk) && c in DataColumns(SchemaOf(db, table))
      ensures Rank(CellAt(Exec(db, op), table, pk, c).hlc) > 0
    {
      ExecRow(db, op, table, pk);
      TrackedIsScanned(SchemaOf(db, table));
      assert c in Tracked(db, table);
      assert RowExists(db, table, pk) ==> Rank(CellAt(db, table, pk, c).hlc) > 0;
      hide Exec;
    }
  }

  /** A batch that brings a new row brings every data column of it. */
  ghost predicate CompleteRows(db: Db, cs: seq<Change>) {
    forall table, pk, c :: Creates(db, cs, table, pk) && !RowExists(db, table, pk) && c in DataColumns(SchemaOf(db, table))
      ==> exists ch :: ch in Relevant(db, cs, table, pk, c) && Rank(ch.hlc) > 0
  }

  lemma {:induction false} RemoteKeepsStamped(before: Db, cs: seq<Change>, w: World, after: Db)
    requires ValidWorld(w) && NoConflicts(w) && Commits(before, cs, w, after)
    requires Mergeable(before, cs) && CompleteRows(before, cs) && Stamped(before)
    ensures Stamped(after)
  {
    hide Rank;
    var gs, mid, order :| CommitsVia(before, cs, w, after, gs, mid, order);
    var start := before.(triggersOn := false);
    SameMembers(cs, gs);
    MergeableLater(before, start, cs, Flatten(gs));
    RowsJoin(start, w, gs);
    JoinsSameElements(start, mid, Flatten(gs), cs);
    JoinsOfTables(start, mid, before, mid, cs);
    Idempotence.PropagationRemoves(mid, w, order);
    var end := PropagateAll(mid, w, order).value;
    forall table, pk, c | RowExists(after, table, pk) && c in DataColumns(SchemaOf(after, table))
      ensures Rank(CellAt(after, table, pk, c).hlc) > 0
    {
      assert RowExists(end, table, pk) && RowAt(end, table, pk) == RowAt(mid, table, pk);
      assert CellAt(after, table, pk, c) == CellAt(mid, table, pk, c);
      JoinedCellStamped(before, mid, cs, table, pk, c);
    }
  }

  lemma {:induction false} JoinedCellStamped(before: Db, mid: Db, cs: seq<Change>, table: Name, pk: Pk, c: Name)
    requires Joins(before, mid, cs) && CompleteRows(before, cs) && Stamped(before)
    requires RowExists(mid, table, pk) && c in DataColumns(SchemaOf(before, table))
    ensures Rank(CellAt(mid, table, pk, c).hlc) > 0
  {
    DataColumnsAreOrdinary(SchemaOf(before, table), c);
    assert Settled(CellAt(before, table, pk, c), CellAt(mid, table, pk, c), Relevant(before, cs, table, pk, c));
    if RowExists(before, table, pk) {
      assert Rank(CellAt(before, table, pk, c).hlc) > 0;
    } else {
      assert Creates(before, cs, table, pk);
      var ch :| ch in Relevant(before, cs, table, pk, c) && Rank(ch.hlc) > 0;
    }
  }
}
