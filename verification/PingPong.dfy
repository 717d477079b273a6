/**
  No ping-pong: in runs that mix local transactions with remote batches, what a scan filtered
  to this node emits is what this node wrote, and exactly which steps break that.
 */
module PingPong {
  import opened Wrappers
  import opened HlcText
  import opened Store
  import Triggers
  import opened Grouping
  import opened RowMerge
  import opened Apply
  import opened Convergence
  import Idempotence
  import Keys
  import opened Scanner
  import opened LocalRuns

  /** "This node gave that column of that row this value under this HLC." */
  datatype Fact = Fact(table: Name, pk: Pk, column: Name, hlc: Hlc, value: Value)

  /** A device: its database, the HLCs it has issued and everything it has written. */
  datatype Device = Device(db: Db, issued: iset<Hlc>, written: iset<Fact>)

  /** The statement creates the row, writes it to the delete log, or changes the column's value. */
  ghost predicate WroteBy(db: Db, op: Op, f: Fact) {
    && RowExists(Exec(db, op), f.table, f.pk) && f.column in DataColumns(SchemaOf(db, f.table))
    && f.hlc == op.hlc && f.value == CellAt(Exec(db, op), f.table, f.pk, f.column).value
    && RowAt(Exec(db, op), f.table, f.pk) != RowAt(db, f.table, f.pk)
    && (!RowExists(db, f.table, f.pk) || op.Delete? || CellAt(db, f.table, f.pk, f.column).value != f.value)
  }

  ghost predicate LocalStep(s: Device, op: Op, s': Device) {
    && s'.db == Exec(s.db, op) && s'.issued == s.issued + iset{op.hlc}
    && forall f :: f in s'.written <==> f in s.written || WroteBy(s.db, op, f)
  }

  /** Of the inbound changes, those with an HLC of ours echo our own writes; such an echo is either
      for a row that is there, or its key names the row an INSERT creates and the batch has no
      other value for its column. Foreign changes are free. */
  ghost predicate Faithful(db: Db, cs: seq<Change>, written: iset<Fact>, node: nat) {
    && (forall ch | ch in cs && IsFromNode(ch.hlc, node) ::
          && RowNamed(db, ch).Some? && (RowIsThere(db, ch) || WellNamed(db, ch))
          && Fact(ch.table, RowNamed(db, ch).value, ch.column, ch.hlc, ch.value) in written)
    && (forall x, y | x in cs && y in cs && IsFromNode(y.hlc, node) && RowKeyOf(x) == RowKeyOf(y)
                      && x.column == y.column && Rank(x.hlc) > 0 && Rank(y.hlc) > 0 && x.value != y.value ::
          RowIsThere(db, x))
  }

  ghost predicate RemoteStep(s: Device, cs: seq<Change>, w: World, s': Device, node: nat)
    requires ValidWorld(w)
  {
    && Commits(s.db, cs, w, s'.db) && s'.issued == s.issued && s'.written == s.written
    && Faithful(s.db, cs, s.written, node)
  }

  datatype Event = Local(op: Op) | Remote(cs: seq<Change>, w: World)

  ghost predicate Step(s: Device, e: Event, s': Device, node: nat) {
    match e
    case Local(op) => LocalStep(s, op, s')
    case Remote(cs, w) => ValidWorld(w) && RemoteStep(s, cs, w, s', node)
  }

  ghost predicate Run(run: seq<Device>, events: seq<Event>, node: nat) {
    && |run| == |events| + 1
    && forall i :: 0 <= i < |events| ==> Step(run[i], events[i], run[i + 1], node)
  }

  lemma {:induction false} RunPrefix(run: seq<Device>, events: seq<Event>, node: nat)
    requires Run(run, events, node) && events != []
    ensures Run(run[..|events|], events[..|events| - 1], node)
  {
    hide Step;
    var n := |events| - 1;
    forall i | 0 <= i < n ensures Step(run[..n + 1][i], events[..n][i], run[..n + 1][i + 1], node) {
      assert Step(run[i], events[i], run[i + 1], node);
    }
  }

  lemma {:induction false} NoNodeWithoutHlc(node: nat)
    ensures !IsFromNode("", node)
  {
    assert SplitOnce("") == None;
  }

  /** Every HLC entry of a data column was there or came with a change. */
  lemma {:induction false} GroupRowHlcs(db: Db, w: World, list: seq<Change>)
    requires OneRow(list) && GroupRow(db, w, list).Some?
    ensures var (pk, row) := GroupRow(db, w, list).value;
            && row.rowHlc.Some? && (exists ch :: ch in list && row.rowHlc == Some(ch.hlc))
            && forall c :: c in DataColumns(SchemaOf(db, list[0].table)) ==>
                 || RowCell(Some(row), c).hlc == CellAt(db, list[0].table, pk, c).hlc
                 || exists ch :: ch in list && RowCell(Some(row), c).hlc == ch.hlc
  {
    hide Rank;
    var schema := SchemaOf(db, list[0].table);
    var named := WherePk(PkNames(schema), list[0].rowPks.fields);
    var known, m0 := ColumnNames(schema), StartMerge(RowAt(db, list[0].table, named), list[0]);
    assert list[0] in list;
    MergeFacts(known, m0, list);
    forall c | c in DataColumns(schema)
      ensures var end := MergeAll(known, m0, list);
              HlcIn(end.hlcs, c) == HlcIn(m0.hlcs, c) || exists ch :: ch in list && HlcIn(end.hlcs, c) == ch.hlc
    {
      DataColumnsAreOrdinary(schema, c);
      MovedByAccepted(known, m0, list, c);
    }
  }

  // ---------------------------------------------------------------------------------------
  // HLCs of ours were issued by us
  // ---------------------------------------------------------------------------------------

  predicate HlcIsIssued(hlc: Hlc, issued: iset<Hlc>, node: nat) {
    IsFromNode(hlc, node) ==> hlc in issued
  }

  ghost predicate RowIsIssued(schema: Schema, row: Row, issued: iset<Hlc>, node: nat) {
    && (row.rowHlc.Some? ==> HlcIsIssued(row.rowHlc.value, issued, node))
    && forall c :: c in DataColumns(schema) ==> HlcIsIssued(RowCell(Some(row), c).hlc, issued, node)
  }

  ghost predicate HlcsAreIssued(db: Db, issued: iset<Hlc>, node: nat) {
    forall table, pk :: RowExists(db, table, pk) ==> RowIsIssued(SchemaOf(db, table), TableOf(db, table)[pk], issued, node)
  }

  /** What every run keeps, stale or not. */
  ghost predicate Inv(s: Device, node: nat) {
    s.db.triggersOn && (forall f :: f in s.written ==> f.hlc in s.issued) && HlcsAreIssued(s.db, s.issued, node)
  }

  lemma {:induction false} LocalKeepsInv(s: Device, op: Op, s': Device, node: nat)
    requires Inv(s, node) && LocalStep(s, op, s')
    ensures Inv(s', node)
  {
    hide IsFromNode;
    ExecFrame(s.db, op);
    NoNodeWithoutHlc(node);
    forall table, pk | RowExists(s'.db, table, pk)
      ensures RowIsIssued(SchemaOf(s'.db, table), TableOf(s'.db, table)[pk], s'.issued, node)
    {
      ExecRow(s.db, op, table, pk);
      if RowExists(s.db, table, pk) {
        assert RowIsIssued(SchemaOf(s.db, table), TableOf(s.db, table)[pk], s.issued, node);
      }
      forall c | c in DataColumns(SchemaOf(s.db, table))
        ensures HlcIsIssued(CellAt(s'.db, table, pk, c).hlc, s'.issued, node)
      {
        StatementCell(s.db, op, table, pk, c);
      }
      hide Exec;
    }
  }

  lemma {:induction false} GroupKeepsIssued(db: Db, w: World, list: seq<Change>, issued: iset<Hlc>, node: nat)
    requires OneRow(list) && !db.triggersOn && ApplyRow(db, w, list).Some? && HlcsAreIssued(db, issued, node)
    requires forall ch :: ch in list ==> HlcIsIssued(ch.hlc, issued, node)
    ensures HlcsAreIssued(ApplyRow(db, w, list).value, issued, node)
  {
    hide IsFromNode, GroupRow, ApplyRow;
    var after := ApplyRow(db, w, list).value;
    RowFrame(db, w, list);
    NoNodeWithoutHlc(node);
    if GroupRow(db, w, list).Some? {
      GroupRowHlcs(db, w, list);
    }
    forall table, pk | RowExists(after, table, pk)
      ensures RowIsIssued(SchemaOf(after, table), TableOf(after, table)[pk], issued, node)
    {
      GroupWrites(db, w, list, table, pk);
      if RowExists(db, table, pk) {
        assert RowIsIssued(SchemaOf(db, table), TableOf(db, table)[pk], issued, node);
      }
    }
  }

  lemma {:induction false} GroupsKeepIssued(db: Db, w: World, gs: seq<Group<RowKey>>, issued: iset<Hlc>, node: nat)
    requires RowLists(gs) && !db.triggersOn && ApplyRows(db, w, gs).Some? && HlcsAreIssued(db, issued, node)
    requires forall ch :: ch in Flatten(gs) ==> HlcIsIssued(ch.hlc, issued, node)
    ensures HlcsAreIssued(ApplyRows(db, w, gs).value, issued, node)
  {
    hide HlcsAreIssued, HlcIsIssued, ApplyRow;
    if gs != [] {
      var n := |gs| - 1;
      GroupsKeepIssued(db, w, gs[..n], issued, node);
      Idempotence.RowsKeepSetting(db, w, gs[..n]);
      GroupKeepsIssued(ApplyRows(db, w, gs[..n]).value, w, gs[n].members, issued, node);
    }
  }

  lemma {:induction false} RemoteKeepsInv(s: Device, cs: seq<Change>, w: World, s': Device, node: nat)
    requires ValidWorld(w) && Inv(s, node) && RemoteStep(s, cs, w, s', node)
    ensures Inv(s', node)
  {
    hide Rank, IsFromNode, ApplyRows, PropagateAll;
    var gs, mid, order :| CommitsVia(s.db, cs, w, s'.db, gs, mid, order);
    var start := s.db.(triggersOn := false);
    SameMembers(cs, gs);
    assert HlcsAreIssued(start, s.issued, node) by {
      SameRowsIssued(s.db, start, s.issued, node);
    }
    GroupsKeepIssued(start, w, gs, s.issued, node);
    Idempotence.RowsKeepSetting(start, w, gs);
    Idempotence.PropagationRemoves(mid, w, order);
    SameRowsIssued(mid, s'.db, s.issued, node);
  }

  /** Whatever holds row by row survives removals. */
  lemma {:induction false} SameRowsIssued(db: Db, after: Db, issued: iset<Hlc>, node: nat)
    requires HlcsAreIssued(db, issued, node) && after.schemas == db.schemas
    requires forall table, pk :: RowExists(after, table, pk) ==> RowAt(after, table, pk) == RowAt(db, table, pk)
    ensures HlcsAreIssued(after, issued, node)
  {
    forall table, pk | RowExists(after, table, pk)
      ensures RowIsIssued(SchemaOf(after, table), TableOf(after, table)[pk], issued, node)
    {
      assert RowExists(db, table, pk);
    }
  }

  lemma {:induction false} RunKeepsInv(run: seq<Device>, events: seq<Event>, node: nat)
    requires Run(run, events, node) && Inv(run[0], node)
    ensures Inv(run[|events|], node)
  {
    hide Inv, LocalStep, RemoteStep;
    if events != [] {
      var n := |events| - 1;
      RunPrefix(run, events, node);
      RunKeepsInv(run[..n + 1], events[..n], node);
      assert Step(run[n], events[n], run[n + 1], node);
      match events[n]
      case Local(op) => LocalKeepsInv(run[n], op, run[n + 1], node);
      case Remote(cs, w) => RemoteKeepsInv(run[n], cs, w, run[n + 1], node);
    }
  }

  // ---------------------------------------------------------------------------------------
  // Columns with an HLC of ours hold what we wrote under it
  // ---------------------------------------------------------------------------------------

  ghost predicate CellIsOurs(cell: Cell, table: Name, pk: Pk, c: Name, written: iset<Fact>, node: nat) {
    IsFromNode(cell.hlc, node) ==> Fact(table, pk, c, cell.hlc, cell.value) in written
  }

  ghost predicate CellsAreOurs(db: Db, written: iset<Fact>, node: nat) {
    forall table, pk, c :: c in DataColumns(SchemaOf(db, table))
      ==> CellIsOurs(CellAt(db, table, pk, c), table, pk, c, written, node)
  }

  /** The statement gives a column that is stamped by us, in a row with a NULL key, a value we did
      not write under that stamp. The trigger cannot find the row to renew the stamp. */
  ghost predicate Stales(db: Db, written: iset<Fact>, op: Op, node: nat) {
    && op.Update? && RowExists(db, op.table, op.pk) && Triggers.KeyHasNull(op.pk)
    && exists c :: c in DataColumns(SchemaOf(db, op.table)) && StalesColumn(db, written, op, node, c)
  }

  ghost predicate StalesColumn(db: Db, written: iset<Fact>, op: Op, node: nat, c: Name) {
    var h := CellAt(db, op.table, op.pk, c).hlc;
    op.Update? && c in op.cells && IsFromNode(h, node) && h != op.hlc
    && Fact(op.table, op.pk, c, h, op.cells[c]) !in written
  }

  lemma {:induction false} LocalCell(s: Device, op: Op, s': Device, node: nat, table: Name, pk: Pk, c: Name)
    requires s.db.triggersOn && LocalStep(s, op, s') && c in DataColumns(SchemaOf(s.db, table))
    requires CellIsOurs(CellAt(s.db, table, pk, c), table, pk, c, s.written, node)
    requires !Stales(s.db, s.written, op, node)
    ensures CellIsOurs(CellAt(s'.db, table, pk, c), table, pk, c, s'.written, node)
  {
    hide Exec, IsFromNode;
    NoNodeWithoutHlc(node);
    StatementCell(s.db, op, table, pk, c);
    var before, after := CellAt(s.db, table, pk, c), CellAt(s'.db, table, pk, c);
    var f := Fact(table, pk, c, after.hlc, after.value);
    assert WroteBy(s.db, op, f) ==> f in s'.written;
    if Triggers.KeyHasNull(pk) && after == Cell(after.value, before.hlc) && after.hlc != "" && after != before {
      assert !StalesColumn(s.db, s.written, op, node, c);
      if before.hlc == op.hlc {
        ExecRow(s.db, op, table, pk);
      }
    }
  }

  lemma {:induction false} StaleCell(s: Device, op: Op, s': Device, node: nat)
    requires s.db.triggersOn && LocalStep(s, op, s') && Stales(s.db, s.written, op, node)
    ensures !CellsAreOurs(s'.db, s'.written, node)
  {
    hide IsFromNode;
    ExecFrame(s.db, op);
    NoNodeWithoutHlc(node);
    var c :| c in DataColumns(SchemaOf(s.db, op.table)) && StalesColumn(s.db, s.written, op, node, c);
    NullKeyWriteIsUnstamped(s.db, op, c);
    hide Exec;
    var after := CellAt(s'.db, op.table, op.pk, c);
    assert !CellIsOurs(after, op.table, op.pk, c, s'.written, node);
  }

  /** A local statement keeps our columns ours exactly when it is not such an update. */
  lemma {:induction false} LocalCells(s: Device, op: Op, s': Device, node: nat)
    requires s.db.triggersOn && LocalStep(s, op, s') && CellsAreOurs(s.db, s.written, node)
    ensures CellsAreOurs(s'.db, s'.written, node) <==> !Stales(s.db, s.written, op, node)
  {
    hide Stales, CellIsOurs, LocalStep;
    ExecSchemas(s, op, s');
    if Stales(s.db, s.written, op, node) {
      StaleCell(s, op, s', node);
    } else {
      forall table, pk, c | c in DataColumns(SchemaOf(s'.db, table))
        ensures CellIsOurs(CellAt(s'.db, table, pk, c), table, pk, c, s'.written, node)
      {
        assert CellIsOurs(CellAt(s.db, table, pk, c), table, pk, c, s.written, node);
        LocalCell(s, op, s', node, table, pk, c);
      }
    }
  }

  lemma {:induction false} ExecSchemas(s: Device, op: Op, s': Device)
    requires LocalStep(s, op, s')
    ensures s'.db.schemas == s.db.schemas && s'.db.triggersOn == s.db.triggersOn
    ensures forall f :: f in s.written ==> f in s'.written
  {
    ExecFrame(s.db, op);
  }

  /** An UPDATE stores the newest of the old cell and the changes. */
  lemma {:induction false} UpdatedCellIsOurs(db: Db, list: seq<Change>, written: iset<Fact>, node: nat,
                                             pk: Pk, row: Row, c: Name)
    requires OneRow(list) && SchemaOf(db, list[0].table) != [] && RowNamed(db, list[0]) == Some(pk)
    requires RowAt(db, list[0].table, pk) == Some(row) && c in DataColumns(SchemaOf(db, list[0].table))
    requires CellIsOurs(RowCell(Some(row), c), list[0].table, pk, c, written, node) && Faithful(db, list, written, node)
    ensures var m := MergeAll(ColumnNames(SchemaOf(db, list[0].table)), StartMerge(Some(row), list[0]), list);
            CellIsOurs(Cell(ValueIn(AssignLast(row.cells, m.accepted), c), HlcIn(m.hlcs, c)),
                       list[0].table, pk, c, written, node)
  {
    hide Rank, IsFromNode, MergeAll, AssignLast;
    var known, m0 := ColumnNames(SchemaOf(db, list[0].table)), StartMerge(Some(row), list[0]);
    DataColumnsAreOrdinary(SchemaOf(db, list[0].table), c);
    UpdateSettles(known, m0, row.cells, list, c);
    forall ch | ch in list ensures RowNamed(db, ch) == Some(pk) {
      SameRowSameAnswer(db, ch, list[0]);
    }
  }

  /** An INSERT stores a column's oldest value under its newest HLC; for an echo of ours the two
      agree. */
  lemma {:induction false} InsertedCellIsOurs(db: Db, list: seq<Change>, written: iset<Fact>, node: nat,
                                              named: Pk, c: Name)
    requires OneRow(list) && SchemaOf(db, list[0].table) != [] && RowNamed(db, list[0]) == Some(named)
    requires !RowExists(db, list[0].table, named) && c in DataColumns(SchemaOf(db, list[0].table))
    requires Faithful(db, list, written, node)
    ensures var m := MergeAll(ColumnNames(SchemaOf(db, list[0].table)), StartMerge(None, list[0]), list);
            var newPk := Keys.InsertPk(PkNames(SchemaOf(db, list[0].table)), list[0].rowPks.fields);
            CellIsOurs(Cell(ValueIn(AssignFirst(m.accepted), c), HlcIn(m.hlcs, c)),
                       list[0].table, newPk, c, written, node)
  {
    hide Rank, IsFromNode, MergeAll, AssignFirst, Keys.InsertPk;
    var schema := SchemaOf(db, list[0].table);
    DataColumnsAreOrdinary(schema, c);
    NoNodeWithoutHlc(node);
    NewRowColumn(ColumnNames(schema), list[0].hlc, list, c);
    OldestMember(list, c);
    if Newest(list, c).Some? && IsFromNode(Newest(list, c).value.hlc, node) {
      var x, y := Oldest(list, c).value, Newest(list, c).value;
      SameRowSameAnswer(db, x, list[0]);
      SameRowSameAnswer(db, y, list[0]);
      assert x.value == y.value;
      Keys.InsertedKey(PkNames(schema), y.rowPks.fields);
    }
  }

  lemma {:induction false} GroupCellIsOurs(db: Db, w: World, list: seq<Change>, written: iset<Fact>, node: nat, c: Name)
    requires OneRow(list) && GroupRow(db, w, list).Some? && c in DataColumns(SchemaOf(db, list[0].table))
    requires CellsAreOurs(db, written, node) && Faithful(db, list, written, node)
    ensures var (pk, row) := GroupRow(db, w, list).value;
            CellIsOurs(RowCell(Some(row), c), list[0].table, pk, c, written, node)
  {
    hide Rank, MergeAll, AssignFirst, AssignLast, Keys.InsertPk, Faithful, CellIsOurs;
    var table := list[0].table;
    var named := WherePk(PkNames(SchemaOf(db, table)), list[0].rowPks.fields);
    match RowAt(db, table, named)
    case Some(row) =>
      assert CellIsOurs(CellAt(db, table, named, c), table, named, c, written, node);
      UpdatedCellIsOurs(db, list, written, node, named, row, c);
    case None => InsertedCellIsOurs(db, list, written, node, named, c);
  }

  lemma {:induction false} GroupKeepsCells(db: Db, w: World, list: seq<Change>, written: iset<Fact>, node: nat)
    requires OneRow(list) && !db.triggersOn && ApplyRow(db, w, list).Some?
    requires CellsAreOurs(db, written, node) && Faithful(db, list, written, node)
    ensures CellsAreOurs(ApplyRow(db, w, list).value, written, node)
  {
    hide GroupRow, ApplyRow, CellIsOurs, Faithful;
    var after := ApplyRow(db, w, list).value;
    RowFrame(db, w, list);
    forall table, pk, c | c in DataColumns(SchemaOf(after, table))
      ensures CellIsOurs(CellAt(after, table, pk, c), table, pk, c, written, node)
    {
      GroupWrites(db, w, list, table, pk);
      assert CellIsOurs(CellAt(db, table, pk, c), table, pk, c, written, node);
      if GroupRow(db, w, list).Some? && list[0].table == table && GroupRow(db, w, list).value.0 == pk {
        GroupCellIsOurs(db, w, list, written, node, c);
      }
    }
  }

  /** Echoes stay faithful while rows only appear. */
  lemma {:induction false} FaithfulLater(db: Db, later: Db, all: seq<Change>, some: seq<Change>,
                                         written: iset<Fact>, node: nat)
    requires Faithful(db, all, written, node) && later.schemas == db.schemas
    requires forall t, pk :: RowExists(db, t, pk) ==> RowExists(later, t, pk)
    requires forall ch :: ch in some ==> ch in all
    ensures Faithful(later, some, written, node)
  {
    hide Rank, IsFromNode, WherePk;
    forall ch | ch in some && IsFromNode(ch.hlc, node)
      ensures RowNamed(later, ch) == RowNamed(db, ch) && (RowIsThere(later, ch) || WellNamed(later, ch))
    {
      assert ch in all;
    }
    forall x, y | x in some && y in some && IsFromNode(y.hlc, node) && RowKeyOf(x) == RowKeyOf(y)
                  && x.column == y.column && Rank(x.hlc) > 0 && Rank(y.hlc) > 0 && x.value != y.value
      ensures RowIsThere(later, x)
    {
      assert RowIsThere(db, x);
    }
  }

  lemma {:induction false} GroupsKeepCells(db: Db, w: World, gs: seq<Group<RowKey>>, written: iset<Fact>, node: nat)
    requires RowLists(gs) && !db.triggersOn && ApplyRows(db, w, gs).Some?
    requires CellsAreOurs(db, written, node) && Faithful(db, Flatten(gs), written, node)
    ensures CellsAreOurs(ApplyRows(db, w, gs).value, written, node)
    ensures SameSetting(db, ApplyRows(db, w, gs).value)
    ensures forall t, pk :: RowExists(db, t, pk) ==> RowExists(ApplyRows(db, w, gs).value, t, pk)
  {
    hide Faithful, CellsAreOurs, ApplyRow;
    if gs != [] {
      var n := |gs| - 1;
      var mid := ApplyRows(db, w, gs[..n]).value;
      FaithfulLater(db, db, Flatten(gs), Flatten(gs[..n]), written, node);
      GroupsKeepCells(db, w, gs[..n], written, node);
      FaithfulLater(db, mid, Flatten(gs), gs[n].members, written, node);
      RowFrame(mid, w, gs[n].members);
      GroupKeepsCells(mid, w, gs[n].members, written, node);
    }
  }

  lemma {:induction false} RemovalKeepsCells(db: Db, after: Db, written: iset<Fact>, node: nat)
    requires CellsAreOurs(db, written, node) && after.schemas == db.schemas
    requires forall table, pk :: RowExists(after, table, pk) ==> RowAt(after, table, pk) == RowAt(db, table, pk)
    ensures CellsAreOurs(after, written, node)
  {
    NoNodeWithoutHlc(node);
    forall table, pk, c | c in DataColumns(SchemaOf(after, table))
      ensures CellIsOurs(CellAt(after, table, pk, c), table, pk, c, written, node)
    {
      if RowExists(after, table, pk) {
        assert CellAt(after, table, pk, c) == CellAt(db, table, pk, c);
      }
    }
  }

  /** A remote batch keeps our columns ours, whatever its foreign changes are. */
  lemma {:induction false} RemoteCells(before: Db, cs: seq<Change>, w: World, after: Db, written: iset<Fact>, node: nat)
    requires ValidWorld(w) && Commits(before, cs, w, after)
    requires CellsAreOurs(before, written, node) && Faithful(before, cs, written, node)
    ensures CellsAreOurs(after, written, node) && after.schemas == before.schemas && after.triggersOn
  {
    hide Faithful, CellsAreOurs, ApplyRows, PropagateAll, RowGrouping;
    var gs, mid, order :| CommitsVia(before, cs, w, after, gs, mid, order);
    var start := before.(triggersOn := false);
    SameMembers(cs, gs);
    RemovalKeepsCells(before, start, written, node);
    FaithfulLater(before, start, cs, Flatten(gs), written, node);
    GroupsKeepCells(start, w, gs, written, node);
    Idempotence.PropagationRemoves(mid, w, order);
    RemovalKeepsCells(mid, after, written, node);
  }

  ghost predicate NeverStales(run: seq<Device>, events: seq<Event>, node: nat) {
    forall i :: 0 <= i < |events| && i < |run| && events[i].Local?
      ==> !Stales(run[i].db, run[i].written, events[i].op, node)
  }

  lemma {:induction false} StepCells(s: Device, e: Event, s': Device, node: nat)
    requires s.db.triggersOn && Step(s, e, s', node) && CellsAreOurs(s.db, s.written, node)
    ensures s'.db.triggersOn
    ensures CellsAreOurs(s'.db, s'.written, node) <==> (e.Local? ==> !Stales(s.db, s.written, e.op, node))
  {
    hide CellsAreOurs, Stales, LocalStep, Commits, Faithful;
    match e
    case Local(op) =>
      LocalCells(s, op, s', node);
      ExecSchemas(s, op, s');
    case Remote(cs, w) => RemoteCells(s.db, cs, w, s'.db, s.written, node);
  }

  lemma {:induction false} RunKeepsCells(run: seq<Device>, events: seq<Event>, node: nat)
    requires Run(run, events, node) && Inv(run[0], node) && CellsAreOurs(run[0].db, run[0].written, node)
    requires NeverStales(run, events, node)
    ensures forall i :: 0 <= i < |run| ==> run[i].db.triggersOn && CellsAreOurs(run[i].db, run[i].written, node)
  {
    hide CellsAreOurs, Stales, Step, HlcsAreIssued;
    if events != [] {
      var n := |events| - 1;
      RunPrefix(run, events, node);
      RunKeepsCells(run[..n + 1], events[..n], node);
      assert forall i :: 0 <= i <= n ==> run[..n + 1][i] == run[i];
      assert Step(run[n], events[n], run[n + 1], node);
      StepCells(run[n], events[n], run[n + 1], node);
    }
  }

  /** Throughout a run every column with an HLC of ours holds what we wrote under it, exactly when
      no local statement gives a stamped column of a NULL-key row another value. */
  lemma {:induction false} CellsStayOurs(run: seq<Device>, events: seq<Event>, node: nat)
    requires Run(run, events, node) && Inv(run[0], node) && CellsAreOurs(run[0].db, run[0].written, node)
    ensures (forall i :: 0 <= i < |run| ==> CellsAreOurs(run[i].db, run[i].written, node))
            <==> NeverStales(run, events, node)
  {
    hide CellsAreOurs, Stales, Step, HlcsAreIssued;
    if NeverStales(run, events, node) {
      RunKeepsCells(run, events, node);
    } else if forall i :: 0 <= i < |run| ==> CellsAreOurs(run[i].db, run[i].written, node) {
      var i :| 0 <= i < |events| && events[i].Local? && Stales(run[i].db, run[i].written, events[i].op, node);
      TriggersStay(run, events, node, i);
      assert Step(run[i], events[i], run[i + 1], node);
      assert CellsAreOurs(run[i + 1].db, run[i + 1].written, node);
      StepCells(run[i], events[i], run[i + 1], node);
    }
  }

  lemma {:induction false} TriggersStay(run: seq<Device>, events: seq<Event>, node: nat, i: nat)
    requires Run(run, events, node) && Inv(run[0], node) && i < |run|
    ensures run[i].db.triggersOn
  {
    hide Step, HlcsAreIssued;
    forall k | 0 <= k < i ensures Step(run[..i + 1][k], events[..i][k], run[..i + 1][k + 1], node) {
      assert Step(run[k], events[k], run[k + 1], node);
    }
    RunKeepsInv(run[..i + 1], events[..i], node);
  }

  /** In every run of local statements and remote batches, each change a scan filtered to this
      node emits carries an HLC this node issued; and where the column has its own HLC entry and no
      statement made one stale, the value is the one this node wrote under it. */
  lemma {:induction false} NoPingPong(run: seq<Device>, events: seq<Event>, node: nat,
                                      table: Name, q: Query, pk: Pk, ch: Change)
    requires Run(run, events, node) && Inv(run[0], node)
    requires var db := run[|events|].db;
             RowExists(db, table, pk) && EmitsFrom(SchemaOf(db, table), table, pk, TableOf(db, table)[pk], q, ch)
    requires q.origin == Some(node)
    ensures var s := run[|events|];
            && ch.hlc in s.issued
            && (CellsAreOurs(run[0].db, run[0].written, node) && NeverStales(run, events, node)
                && ch.column in TableOf(s.db, table)[pk].hlcs
                ==> Fact(table, pk, ch.column, ch.hlc, ch.value) in s.written)
  {
    hide Rank, Step, Stales, IsFromNode;
    RunKeepsInv(run, events, node);
    var s := run[|events|];
    var row := TableOf(s.db, table)[pk];
    assert RowIsIssued(SchemaOf(s.db, table), row, s.issued, node);
    if ch.column in row.hlcs {
      assert CellAt(s.db, table, pk, ch.column) == Cell(ch.value, ch.hlc);
      if CellsAreOurs(run[0].db, run[0].written, node) && NeverStales(run, events, node) {
        RunKeepsCells(run, events, node);
        assert CellIsOurs(CellAt(s.db, table, pk, ch.column), table, pk, ch.column, s.written, node);
      }
    }
  }
}
