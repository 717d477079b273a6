/**
  Progress of the apply path: which batches can commit at all, and that changes to tables this
  device does not have make no difference.
 */
module Progress {
  import opened Wrappers
  import opened HlcText
  import opened Store
  import opened Grouping
  import opened RowMerge
  import opened Apply
  import opened Convergence
  import Idempotence
  import Keys

  /** Every change to a table of this vault has a key object, and the table a primary key. */
  ghost predicate WellFormedBatch(db: Db, cs: seq<Change>) {
    forall ch :: ch in cs && SchemaOf(db, ch.table) != [] ==> ch.rowPks.ObjectText? && PkNames(SchemaOf(db, ch.table)) != []
  }

  // ---------------------------------------------------------------------------------------
  // A row grouping exists for every batch
  // ---------------------------------------------------------------------------------------

  lemma {:induction false} SortingExists(cs: seq<Change>) returns (sorted: seq<Change>)
    ensures multiset(sorted) == multiset(cs) && Ascending(sorted)
  {
    hide Rank;
    if cs == [] {
      sorted := [];
    } else {
      var n := |cs| - 1;
      var rest := SortingExists(cs[..n]);
      sorted := InsertInOrder(rest, cs[n]);
      assert cs == cs[..n] + [cs[n]];
    }
  }

  lemma {:induction false} InsertInOrder(cs: seq<Change>, ch: Change) returns (r: seq<Change>)
    requires Ascending(cs)
    ensures multiset(r) == multiset(cs) + multiset{ch} && Ascending(r)
  {
    hide Rank;
    if cs == [] || Rank(cs[|cs| - 1].hlc) <= Rank(ch.hlc) {
      r := cs + [ch];
    } else {
      var n := |cs| - 1;
      var before := InsertInOrder(cs[..n], ch);
      r := before + [cs[n]];
      assert cs == cs[..n] + [cs[n]];
      forall x | x in before ensures Rank(x.hlc) <= Rank(cs[n].hlc) {
        assert x in multiset(before);
        assert x in cs[..n] || x == ch;
      }
    }
  }

  /** Taking changes in ascending order, a new row's group goes to the end. */
  lemma {:induction false} GroupsExist(cs: seq<Change>) returns (gs: seq<Group<RowKey>>)
    requires Ascending(cs)
    ensures RowGrouping(cs, gs)
  {
    hide Rank, MinRank;
    if cs == [] {
      gs := [];
      assert Flatten(gs) == [];
    } else {
      var n := |cs| - 1;
      var ch := cs[n];
      var before := GroupsExist(cs[..n]);
      assert cs == cs[..n] + [ch];
      SameMembers(cs[..n], before);
      forall i, x | 0 <= i < |before| && x in before[i].members ensures Rank(x.hlc) <= Rank(ch.hlc) {
        MemberOfFlatten(before, i, x);
        assert x in cs[..n];
      }
      if i :| 0 <= i < |before| && before[i].key == RowKeyOf(ch) {
        gs := before[i := Group(RowKeyOf(ch), before[i].members + [ch])];
        GrownGroup(before, i, ch);
      } else {
        gs := before + [Group(RowKeyOf(ch), [ch])];
        AddedGroup(before, ch);
      }
    }
  }

  /** Everything that makes a grouping of some changes, apart from which they are. */
  ghost predicate Grouped(gs: seq<Group<RowKey>>) {
    && (forall i :: 0 <= i < |gs| ==> gs[i].members != [] && Ascending(gs[i].members))
    && (forall i, ch :: 0 <= i < |gs| && ch in gs[i].members ==> RowKeyOf(ch) == gs[i].key)
    && (forall i, j :: 0 <= i < j < |gs| ==> gs[i].key != gs[j].key)
    && GroupsAscend(gs)
  }

  lemma {:induction false} GrownGroup(gs: seq<Group<RowKey>>, i: nat, ch: Change)
    requires Grouped(gs) && i < |gs| && gs[i].key == RowKeyOf(ch)
    requires forall x :: x in gs[i].members ==> Rank(x.hlc) <= Rank(ch.hlc)
    ensures Grouped(gs[i := Group(RowKeyOf(ch), gs[i].members + [ch])])
    ensures multiset(Flatten(gs[i := Group(RowKeyOf(ch), gs[i].members + [ch])])) == multiset(Flatten(gs)) + multiset{ch}
  {
    hide Rank, MinRank, Ascending, Flatten;
    var grown := Group(RowKeyOf(ch), gs[i].members + [ch]);
    var next := gs[i := grown];
    GrownMembers(gs[i].members, ch);
    GrownFlatten(gs, i, ch);
    forall k | 0 <= k < |next|
      ensures next[k].key == gs[k].key && MinRank(next[k].members) == MinRank(gs[k].members)
      ensures next[k].members != [] && Ascending(next[k].members)
      ensures forall x :: x in next[k].members ==> RowKeyOf(x) == next[k].key
    {
    }
  }

  lemma {:induction false} GrownMembers(members: seq<Change>, ch: Change)
    requires members != [] && Ascending(members) && forall x :: x in members ==> Rank(x.hlc) <= Rank(ch.hlc)
    ensures Ascending(members + [ch]) && MinRank(members + [ch]) == MinRank(members)
  {
    hide Rank;
    assert (members + [ch])[..|members|] == members;
    MinRankBounds(members);
  }

  lemma {:induction false} GrownFlatten(gs: seq<Group<RowKey>>, i: nat, ch: Change)
    requires i < |gs|
    ensures multiset(Flatten(gs[i := Group(RowKeyOf(ch), gs[i].members + [ch])])) == multiset(Flatten(gs)) + multiset{ch}
  {
    var n, next := |gs| - 1, gs[i := Group(RowKeyOf(ch), gs[i].members + [ch])];
    if i == n {
      assert next[..n] == gs[..n];
    } else {
      GrownFlatten(gs[..n], i, ch);
      assert next[..n] == gs[..n][i := Group(RowKeyOf(ch), gs[i].members + [ch])];
    }
  }

  lemma {:induction false} AddedGroup(gs: seq<Group<RowKey>>, ch: Change)
    requires Grouped(gs) && forall i :: 0 <= i < |gs| ==> gs[i].key != RowKeyOf(ch)
    requires forall i, x :: 0 <= i < |gs| && x in gs[i].members ==> Rank(x.hlc) <= Rank(ch.hlc)
    ensures Grouped(gs + [Group(RowKeyOf(ch), [ch])])
    ensures multiset(Flatten(gs + [Group(RowKeyOf(ch), [ch])])) == multiset(Flatten(gs)) + multiset{ch}
  {
    hide Rank;
    var next := gs + [Group(RowKeyOf(ch), [ch])];
    assert next[..|gs|] == gs;
    assert MinRank([ch]) == Rank(ch.hlc);
    hide MinRank;
    forall i | 0 <= i < |gs| ensures MinRank(gs[i].members) <= MinRank([ch]) {
      MinRankBounds(gs[i].members);
    }
  }

  lemma {:induction false} GroupingExists(cs: seq<Change>) returns (gs: seq<Group<RowKey>>)
    ensures RowGrouping(cs, gs)
  {
    hide Rank, MinRank;
    var sorted := SortingExists(cs);
    gs := GroupsExist(sorted);
  }

  lemma {:induction false} EnumerationExists(ids: set<Name>) returns (order: seq<Name>)
    ensures Enumerates(order, ids)
    decreases ids
  {
    if ids == {} {
      order := [];
    } else {
      var id :| id in ids;
      var rest := EnumerationExists(ids - {id});
      EnumerateOneMore(rest, ids - {id}, id);
      order := rest + [id];
      assert ids - {id} + {id} == ids;
    }
  }

  // ---------------------------------------------------------------------------------------
  // Rows
  // ---------------------------------------------------------------------------------------

  /** A group goes through exactly if its table is absent, or its key is an object and the table
      has a primary key; for an absent table it changes nothing. */
  lemma {:induction false} GroupApplies(db: Db, w: World, list: seq<Change>)
    requires OneRow(list)
    ensures ApplyRow(db, w, list).Some? <==> WellFormedBatch(db, list)
    ensures SchemaOf(db, list[0].table) == [] ==> ApplyRow(db, w, list) == Some(db)
  {
    hide MergeAll;
    assert list[0] in list;
    forall ch | ch in list ensures ch.table == list[0].table && ch.rowPks == list[0].rowPks {
      assert RowKeyOf(ch) == RowKeyOf(list[0]);
    }
  }

  lemma {:induction false} GroupsApply(db: Db, w: World, gs: seq<Group<RowKey>>)
    requires RowLists(gs) && !db.triggersOn
    ensures ApplyRows(db, w, gs).Some? <==> WellFormedBatch(db, Flatten(gs))
  {
    hide ApplyRow;
    if gs != [] {
      var n := |gs| - 1;
      GroupsApply(db, w, gs[..n]);
      if ApplyRows(db, w, gs[..n]).Some? {
        var mid := ApplyRows(db, w, gs[..n]).value;
        Idempotence.RowsKeepSetting(db, w, gs[..n]);
        GroupApplies(mid, w, gs[n].members);
        assert forall t :: SchemaOf(mid, t) == SchemaOf(db, t);
      }
    }
  }

  // ---------------------------------------------------------------------------------------
  // The delete log
  // ---------------------------------------------------------------------------------------

  /** A log row as a delete trigger writes it: two texts and an HLC. */
  predicate ReadableRow(row: Row) {
    IsText(ValueIn(row.cells, "table_name")) && IsText(ValueIn(row.cells, "row_pks")) && row.rowHlc.Some?
  }

  ghost predicate LogReadable(db: Db) {
    forall pk :: RowExists(db, DELETED_ROWS_TABLE, pk) ==> ReadableRow(TableOf(db, DELETED_ROWS_TABLE)[pk])
  }

  ghost predicate Brings(cs: seq<Change>, ch: Change, column: Name) {
    exists x :: x in cs && RowKeyOf(x) == RowKeyOf(ch) && x.column == column && Rank(x.hlc) > 0
  }

  /** What the batch says about the log stays readable: texts, and both of them for a new log row. */
  ghost predicate LogChangesReadable(db: Db, cs: seq<Change>) {
    var known := ColumnNames(SchemaOf(db, DELETED_ROWS_TABLE));
    && (SchemaOf(db, DELETED_ROWS_TABLE) != [] ==> "table_name" in known && "row_pks" in known)
    && (forall ch :: ch in cs && ch.table == DELETED_ROWS_TABLE && (ch.column == "table_name" || ch.column == "row_pks")
          ==> IsText(ch.value))
    && (forall ch :: ch in cs && ch.table == DELETED_ROWS_TABLE && ch.column in known && Rank(ch.hlc) > 0 && !RowIsThere(db, ch)
          ==> Brings(cs, ch, "table_name") && Brings(cs, ch, "row_pks"))
  }

  lemma {:induction false} AssignedFrom(cells: map<Name, Value>, accepted: seq<Change>, c: Name)
    ensures ValueIn(AssignLast(cells, accepted), c) == ValueIn(cells, c)
            || exists ch :: ch in accepted && ch.column == c && ch.value == ValueIn(AssignLast(cells, accepted), c)
  {
    if accepted != [] {
      var n := |accepted| - 1;
      AssignedFrom(cells, accepted[..n], c);
      assert accepted == accepted[..n] + [accepted[n]];
    }
  }

  lemma {:induction false} NewLogColumn(db: Db, list: seq<Change>, c: Name)
    requires OneRow(list) && list[0].table == DELETED_ROWS_TABLE && LogChangesReadable(db, list)
    requires SchemaOf(db, DELETED_ROWS_TABLE) != [] && !RowIsThere(db, list[0])
    requires c == "table_name" || c == "row_pks"
    requires MergeAll(ColumnNames(SchemaOf(db, DELETED_ROWS_TABLE)), StartMerge(None, list[0]), list).accepted != []
    ensures var m := MergeAll(ColumnNames(SchemaOf(db, DELETED_ROWS_TABLE)), StartMerge(None, list[0]), list);
            IsText(ValueIn(AssignFirst(m.accepted), c))
  {
    hide Rank, MergeAll, AssignFirst;
    EmptyIsOldest();
    var known := ColumnNames(SchemaOf(db, DELETED_ROWS_TABLE));
    MergeFacts(known, StartMerge(None, list[0]), list);
    AcceptedBringNews(known, StartMerge(None, list[0]), list);
    NewRowColumn(known, list[0].hlc, list, c);
    OldestMember(list, c);
    var ch := MergeAll(known, StartMerge(None, list[0]), list).accepted[0];
    SameRowSameAnswer(db, ch, list[0]);
    assert Brings(list, ch, c);
    OldestExists(list, c);
    assert OneRowTable(list, Oldest(list, c).value);
  }

  ghost predicate OneRowTable(list: seq<Change>, ch: Change)
    requires list != []
  {
    ch.table == list[0].table
  }

  lemma {:induction false} OldestExists(cs: seq<Change>, c: Name)
    ensures Oldest(cs, c).Some? <==> exists ch :: ch in cs && ch.column == c && Rank(ch.hlc) > 0
  {
    hide Rank;
    if cs != [] {
      var n := |cs| - 1;
      assert cs == cs[..n] + [cs[n]];
      OldestExists(cs[..n], c);
    }
  }

  lemma {:induction false} GroupKeepsReadable(db: Db, w: World, list: seq<Change>)
    requires OneRow(list) && !db.triggersOn && ApplyRow(db, w, list).Some?
    requires LogReadable(db) && LogChangesReadable(db, list)
    ensures LogReadable(ApplyRow(db, w, list).value)
  {
    hide Rank, ApplyRow, MergeAll, AssignFirst, AssignLast, Keys.InsertPk, IsText;
    var after := ApplyRow(db, w, list).value;
    forall pk | RowExists(after, DELETED_ROWS_TABLE, pk)
      ensures ReadableRow(TableOf(after, DELETED_ROWS_TABLE)[pk])
    {
      GroupWrites(db, w, list, DELETED_ROWS_TABLE, pk);
      if GroupRow(db, w, list).Some? && list[0].table == DELETED_ROWS_TABLE && GroupRow(db, w, list).value.0 == pk {
        GroupRowReadable(db, w, list);
      }
    }
  }

  lemma {:induction false} GroupRowReadable(db: Db, w: World, list: seq<Change>)
    requires OneRow(list) && list[0].table == DELETED_ROWS_TABLE && GroupRow(db, w, list).Some?
    requires LogReadable(db) && LogChangesReadable(db, list)
    ensures ReadableRow(GroupRow(db, w, list).value.1)
  {
    hide Rank, MergeAll, AssignFirst, AssignLast, Keys.InsertPk, IsText;
    var schema := SchemaOf(db, DELETED_ROWS_TABLE);
    var known, named := ColumnNames(schema), WherePk(PkNames(schema), list[0].rowPks.fields);
    var row := RowAt(db, DELETED_ROWS_TABLE, named);
    match row
    case None =>
      NewLogColumn(db, list, "table_name");
      NewLogColumn(db, list, "row_pks");
    case Some(r) =>
      var m := MergeAll(known, StartMerge(row, list[0]), list);
      MergeFacts(known, StartMerge(row, list[0]), list);
      assert RowExists(db, DELETED_ROWS_TABLE, named);
      UpdatedLogColumn(r.cells, m.accepted, list, "table_name");
      UpdatedLogColumn(r.cells, m.accepted, list, "row_pks");
  }

  lemma {:induction false} UpdatedLogColumn(cells: map<Name, Value>, accepted: seq<Change>, list: seq<Change>, c: Name)
    requires OneRow(list) && list[0].table == DELETED_ROWS_TABLE && IsText(ValueIn(cells, c))
    requires forall ch :: ch in accepted ==> ch in list
    requires forall ch :: ch in list && ch.table == DELETED_ROWS_TABLE && ch.column == c ==> IsText(ch.value)
    ensures IsText(ValueIn(AssignLast(cells, accepted), c))
  {
    hide IsText, AssignLast;
    AssignedFrom(cells, accepted, c);
    forall ch | ch in list ensures ch.table == DELETED_ROWS_TABLE {
      assert RowKeyOf(ch) == RowKeyOf(list[0]);
    }
  }

  /** One group of the batch, later in the run. */
  lemma {:induction false} GroupChangesReadable(db: Db, later: Db, cs: seq<Change>, gs: seq<Group<RowKey>>, i: nat)
    requires LogChangesReadable(db, cs) && RowGrouping(cs, gs) && i < |gs| && later.schemas == db.schemas
    requires forall t, pk :: RowExists(db, t, pk) ==> RowExists(later, t, pk)
    ensures LogChangesReadable(later, gs[i].members)
  {
    hide Rank, MinRank, IsText, WherePk;
    var list := gs[i].members;
    SameMembers(cs, gs);
    forall ch | ch in list ensures ch in cs {
      MemberOfFlatten(gs, i, ch);
    }
    forall ch, c | ch in list && Brings(cs, ch, c) ensures Brings(list, ch, c) {
      var x :| x in cs && RowKeyOf(x) == RowKeyOf(ch) && x.column == c && Rank(x.hlc) > 0;
      GroupIsWhole(cs, gs, i, x);
    }
    forall ch | ch in list && RowIsThere(db, ch) ensures RowIsThere(later, ch) {
      assert RowNamed(later, ch) == RowNamed(db, ch);
    }
  }

  lemma {:induction false} GroupsKeepReadable(db: Db, w: World, cs: seq<Change>, gs: seq<Group<RowKey>>, n: nat)
    requires RowGrouping(cs, gs) && RowLists(gs) && n <= |gs| && !db.triggersOn && ApplyRows(db, w, gs[..n]).Some?
    requires LogReadable(db) && LogChangesReadable(db, cs)
    ensures LogReadable(ApplyRows(db, w, gs[..n]).value)
    ensures SameSetting(db, ApplyRows(db, w, gs[..n]).value)
    ensures forall t, pk :: RowExists(db, t, pk) ==> RowExists(ApplyRows(db, w, gs[..n]).value, t, pk)
  {
    hide LogReadable, LogChangesReadable, ApplyRow, RowGrouping;
    if n > 0 {
      assert gs[..n][..n - 1] == gs[..n - 1];
      GroupsKeepReadable(db, w, cs, gs, n - 1);
      var mid := ApplyRows(db, w, gs[..n - 1]).value;
      GroupChangesReadable(db, mid, cs, gs, n - 1);
      GroupKeepsReadable(mid, w, gs[n - 1].members);
      RowFrame(mid, w, gs[n - 1].members);
    }
  }

  lemma {:induction false} PropagationApplies(db: Db, w: World, order: seq<Name>)
    requires ValidWorld(w) && !db.triggersOn && LogReadable(db)
    ensures PropagateAll(db, w, order).Some? && LogReadable(PropagateAll(db, w, order).value)
  {
    if order != [] {
      var n := |order| - 1;
      PropagationApplies(db, w, order[..n]);
      Idempotence.PropagationKeepsSetting(db, w, order[..n]);
      OneApplies(PropagateAll(db, w, order[..n]).value, w, order[n]);
    }
  }

  lemma {:induction false} OneApplies(db: Db, w: World, id: Name)
    requires ValidWorld(w) && !db.triggersOn && LogReadable(db)
    ensures PropagateOne(db, w, id).Some? && LogReadable(PropagateOne(db, w, id).value)
  {
    hide Rank;
  }

  // ---------------------------------------------------------------------------------------
  // Batches
  // ---------------------------------------------------------------------------------------

  /** What lets a batch commit: it is well formed, and the delete log stays readable. */
  ghost predicate Committable(db: Db, cs: seq<Change>) {
    WellFormedBatch(db, cs) && LogReadable(db) && LogChangesReadable(db, cs)
  }

  lemma {:induction false} BatchApplies(db: Db, w: World, cs: seq<Change>, gs: seq<Group<RowKey>>, n: nat)
    requires RowGrouping(cs, gs) && RowLists(gs) && n <= |gs| && !db.triggersOn && WellFormedBatch(db, cs)
    ensures ApplyRows(db, w, gs[..n]).Some?
  {
    hide RowGrouping, ApplyRows;
    SameMembers(cs, gs);
    GroupsApply(db, w, gs[..n]);
    forall ch | ch in Flatten(gs[..n]) ensures ch in cs {
      FlattenGrows(gs, n, ch);
    }
  }

  lemma {:induction false} FlattenGrows(gs: seq<Group<RowKey>>, n: nat, ch: Change)
    requires n <= |gs| && ch in Flatten(gs[..n])
    ensures ch in Flatten(gs)
  {
    var i := GroupOf(gs[..n], ch);
    MemberOfFlatten(gs, i, ch);
  }

  /** A batch that names only absent tables, or keys and tables as they should be, and keeps the log
      readable, can commit, whatever UNIQUE constraints and failing deletes come up. */
  lemma {:induction false} CommittableCommits(before: Db, cs: seq<Change>, w: World)
    requires ValidWorld(w) && Committable(before, cs)
    ensures exists after :: Commits(before, cs, w, after)
  {
    hide RowGrouping, ApplyRows, PropagateAll, LogReadable, LogChangesReadable, WellFormedBatch, Rank;
    var start := before.(triggersOn := false);
    var gs := GroupingExists(cs);
    var order := EnumerationExists(InboundDeleteIds(cs));
    SameMembers(cs, gs);
    StartIsCommittable(before, cs);
    assert gs[..|gs|] == gs;
    BatchApplies(start, w, cs, gs, |gs|);
    GroupsKeepReadable(start, w, cs, gs, |gs|);
    var mid := ApplyRows(start, w, gs).value;
    PropagationApplies(mid, w, order);
    var after := PropagateAll(mid, w, order).value.(triggersOn := true);
    assert CommitsVia(before, cs, w, after, gs, mid, order);
    assert Commits(before, cs, w, after);
  }

  lemma {:induction false} StartIsCommittable(before: Db, cs: seq<Change>)
    requires Committable(before, cs)
    ensures Committable(before.(triggersOn := false), cs)
  {
    hide Rank, IsText, WherePk;
    var start := before.(triggersOn := false);
    assert forall ch :: RowIsThere(start, ch) <==> RowIsThere(before, ch);
    assert forall pk :: RowExists(start, DELETED_ROWS_TABLE, pk) <==> RowExists(before, DELETED_ROWS_TABLE, pk);
  }

  /** Without delete-log changes being well formed is exactly what it takes. */
  lemma {:induction false} CommitsExactly(before: Db, cs: seq<Change>, w: World)
    requires ValidWorld(w) && NoDeletes(cs)
    ensures (exists after :: Commits(before, cs, w, after)) <==> WellFormedBatch(before, cs)
  {
    hide RowGrouping, ApplyRows, Rank;
    var start := before.(triggersOn := false);
    if after :| Commits(before, cs, w, after) {
      CommittedIsWellFormed(before, cs, w, after);
    }
    if WellFormedBatch(before, cs) {
      var gs := GroupingExists(cs);
      SameMembers(cs, gs);
      assert gs[..|gs|] == gs;
      assert WellFormedBatch(start, cs);
      BatchApplies(start, w, cs, gs, |gs|);
      assert InboundDeleteIds(cs) == {} && Enumerates([], {});
      var mid := ApplyRows(start, w, gs).value;
      assert CommitsVia(before, cs, w, mid.(triggersOn := true), gs, mid, []);
      assert Commits(before, cs, w, mid.(triggersOn := true));
    }
  }

  lemma {:induction false} CommittedIsWellFormed(before: Db, cs: seq<Change>, w: World, after: Db)
    requires ValidWorld(w) && Commits(before, cs, w, after)
    ensures WellFormedBatch(before, cs)
  {
    hide RowGrouping, ApplyRows, PropagateAll, Rank;
    var gs, mid, order :| CommitsVia(before, cs, w, after, gs, mid, order);
    var start := before.(triggersOn := false);
    SameMembers(cs, gs);
    GroupsApply(start, w, gs);
    assert forall t :: SchemaOf(start, t) == SchemaOf(before, t);
  }

  // ---------------------------------------------------------------------------------------
  // Absent tables
  // ---------------------------------------------------------------------------------------

  predicate TableIsHere(db: Db, ch: Change) {
    SchemaOf(db, ch.table) != []
  }

  /** The changes to tables this vault has. */
  function Present(db: Db, cs: seq<Change>): seq<Change> {
    if cs == [] then []
    else
      var before, last := Present(db, cs[..|cs| - 1]), cs[|cs| - 1];
      if TableIsHere(db, last) then before + [last] else before
  }

  lemma {:induction false} PresentCounts(db: Db, cs: seq<Change>, ch: Change)
    ensures multiset(Present(db, cs))[ch] == if TableIsHere(db, ch) then multiset(cs)[ch] else 0
    ensures ch in Present(db, cs) <==> ch in cs && TableIsHere(db, ch)
  {
    if cs != [] {
      var n := |cs| - 1;
      assert cs == cs[..n] + [cs[n]];
      PresentCounts(db, cs[..n], ch);
    }
  }

  function PresentGroups(db: Db, gs: seq<Group<RowKey>>): seq<Group<RowKey>>
    requires RowLists(gs)
  {
    if gs == [] then []
    else
      var before, last := PresentGroups(db, gs[..|gs| - 1]), gs[|gs| - 1];
      if TableIsHere(db, last.members[0]) then before + [last] else before
  }

  lemma {:induction false} FlattenSnoc(gs: seq<Group<RowKey>>, g: Group<RowKey>)
    ensures Flatten(gs + [g]) == Flatten(gs) + g.members
  {
    assert (gs + [g])[..|gs|] == gs;
  }

  lemma {:induction false} ApplySnoc(db: Db, w: World, gs: seq<Group<RowKey>>, g: Group<RowKey>)
    requires RowLists(gs) && OneRow(g.members) && ApplyRows(db, w, gs).Some?
    ensures RowLists(gs + [g])
    ensures ApplyRows(db, w, gs + [g]) == ApplyRow(ApplyRows(db, w, gs).value, w, g.members)
  {
    hide ApplyRow;
    assert (gs + [g])[..|gs|] == gs;
  }

  lemma {:induction false} GroupedSnoc(gs: seq<Group<RowKey>>, g: Group<RowKey>)
    requires Grouped(gs) && g.members != [] && Ascending(g.members) && forall ch :: ch in g.members ==> RowKeyOf(ch) == g.key
    requires forall x :: x in gs ==> x.key != g.key && x.members != [] && MinRank(x.members) <= MinRank(g.members)
    ensures Grouped(gs + [g])
  {
    hide Rank, MinRank, Ascending;
    var r := gs + [g];
    forall i, j | 0 <= i < j < |r| ensures r[i].key != r[j].key && MinRank(r[i].members) <= MinRank(r[j].members) {
      assert r[i] in gs;
    }
  }

  lemma {:induction false} PresentGroupsFacts(db: Db, gs: seq<Group<RowKey>>)
    requires RowLists(gs) && Grouped(gs)
    ensures RowLists(PresentGroups(db, gs)) && Grouped(PresentGroups(db, gs))
    ensures forall g :: g in PresentGroups(db, gs) ==> g in gs
  {
    hide Rank, MinRank, TableIsHere, Ascending;
    if gs != [] {
      var n := |gs| - 1;
      var before, last := PresentGroups(db, gs[..n]), gs[n];
      assert gs == gs[..n] + [last];
      PresentGroupsFacts(db, gs[..n]);
      forall x | x in before ensures x.key != last.key && x.members != [] && MinRank(x.members) <= MinRank(last.members) {
        var k :| 0 <= k < n && gs[..n][k] == x;
        assert gs[k] == x;
      }
      GroupedSnoc(before, last);
    }
  }

  lemma {:induction false} MembersShareTable(db: Db, list: seq<Change>, ch: Change)
    requires OneRow(list)
    ensures ch in list ==> (TableIsHere(db, ch) <==> TableIsHere(db, list[0]))
    ensures ch !in list ==> multiset(list)[ch] == 0
  {
    if ch in list {
      assert RowKeyOf(ch) == RowKeyOf(list[0]);
    }
  }

  lemma {:induction false} PresentFlatten(db: Db, gs: seq<Group<RowKey>>, ch: Change)
    requires RowLists(gs)
    ensures multiset(Flatten(PresentGroups(db, gs)))[ch] == if TableIsHere(db, ch) then multiset(Flatten(gs))[ch] else 0
  {
    hide TableIsHere;
    if gs != [] {
      var n := |gs| - 1;
      var before, last := PresentGroups(db, gs[..n]), gs[n];
      PresentFlatten(db, gs[..n], ch);
      assert gs == gs[..n] + [last];
      FlattenSnoc(gs[..n], last);
      FlattenSnoc(before, last);
      MembersShareTable(db, last.members, ch);
      hide Flatten;
    }
  }

  lemma {:induction false} PresentGroupsApply(db: Db, w: World, gs: seq<Group<RowKey>>)
    requires RowLists(gs) && !db.triggersOn && ApplyRows(db, w, gs).Some?
    ensures RowLists(PresentGroups(db, gs))
    ensures ApplyRows(db, w, PresentGroups(db, gs)) == ApplyRows(db, w, gs)
  {
    hide ApplyRow;
    if gs != [] {
      var n := |gs| - 1;
      var before, last := PresentGroups(db, gs[..n]), gs[n];
      PresentGroupsApply(db, w, gs[..n]);
      Idempotence.RowsKeepSetting(db, w, gs[..n]);
      GroupApplies(ApplyRows(db, w, gs[..n]).value, w, last.members);
      ApplySnoc(db, w, before, last);
      assert gs == gs[..n] + [last];
    }
  }

  /** The changes left out. */
  lemma {:induction false} AbsentChanges(db: Db, cs: seq<Change>) returns (away: seq<Change>)
    ensures multiset(cs) == multiset(Present(db, cs)) + multiset(away)
    ensures forall ch :: ch in away ==> !TableIsHere(db, ch)
  {
    hide TableIsHere;
    away := [];
    if cs != [] {
      var n := |cs| - 1;
      assert cs == cs[..n] + [cs[n]];
      away := AbsentChanges(db, cs[..n]);
      away := if TableIsHere(db, cs[n]) then away else away + [cs[n]];
    }
  }

  function KeyOnly(g: Group<RowKey>): Change {
    Change(g.key.0, g.key.1, "", "", Null)
  }

  /** Row groups whose tables are here, or are not. */
  ghost predicate GroupsOf(db: Db, gs: seq<Group<RowKey>>, here: bool) {
    && RowLists(gs) && Grouped(gs)
    && forall g :: g in gs ==> TableIsHere(db, KeyOnly(g)) == here
  }

  ghost predicate Merged(gs: seq<Group<RowKey>>, xs: seq<Group<RowKey>>, ys: seq<Group<RowKey>>) {
    && RowLists(gs) && Grouped(gs) && (forall g :: g in gs <==> g in xs || g in ys)
    && multiset(Flatten(gs)) == multiset(Flatten(xs)) + multiset(Flatten(ys))
  }

  ghost predicate Follows(g: Group<RowKey>, gs: seq<Group<RowKey>>) {
    && OneRow(g.members) && Ascending(g.members) && (forall ch :: ch in g.members ==> RowKeyOf(ch) == g.key)
    && forall x :: x in gs ==> x.key != g.key && x.members != [] && MinRank(x.members) <= MinRank(g.members)
  }

  /** The last of `xs` follows everything else, if it is not before the last of `ys`. */
  lemma {:induction false} LastFollows(db: Db, xs: seq<Group<RowKey>>, here: bool, ys: seq<Group<RowKey>>)
    requires GroupsOf(db, xs, here) && GroupsOf(db, ys, !here) && xs != []
    requires ys != [] ==> ys[|ys| - 1].members != [] && xs[|xs| - 1].members != []
    requires ys != [] ==> MinRank(ys[|ys| - 1].members) <= MinRank(xs[|xs| - 1].members)
    ensures GroupsOf(db, xs[..|xs| - 1], here)
    ensures Follows(xs[|xs| - 1], xs[..|xs| - 1]) && Follows(xs[|xs| - 1], ys)
    ensures TableIsHere(db, KeyOnly(xs[|xs| - 1])) == here
  {
    hide Rank, MinRank, TableIsHere, Ascending;
    var n, last := |xs| - 1, xs[|xs| - 1];
    assert last in xs && forall g :: g in xs[..n] ==> g in xs;
    forall x | x in ys ensures x.key != last.key && x.members != [] && MinRank(x.members) <= MinRank(last.members) {
      var i :| 0 <= i < |ys| && ys[i] == x;
      assert i < |ys| - 1 ==> MinRank(ys[i].members) <= MinRank(ys[|ys| - 1].members);
    }
  }

  lemma {:induction false} MergedSnoc(gs: seq<Group<RowKey>>, xs: seq<Group<RowKey>>, ys: seq<Group<RowKey>>, g: Group<RowKey>)
    requires (Merged(gs, xs, ys) || Merged(gs, ys, xs)) && Follows(g, xs) && Follows(g, ys)
    ensures Merged(gs + [g], xs + [g], ys) && Merged(gs + [g], ys, xs + [g])
  {
    hide Rank, MinRank, Ascending, Flatten, Grouped;
    GroupedSnoc(gs, g);
    FlattenSnoc(gs, g);
    FlattenSnoc(xs, g);
  }

  lemma {:induction false} PresentSnoc(db: Db, gs: seq<Group<RowKey>>, before: seq<Group<RowKey>>, g: Group<RowKey>)
    requires RowLists(gs) && Follows(g, before)
    ensures RowLists(gs + [g])
    ensures PresentGroups(db, gs + [g]) ==
            if TableIsHere(db, KeyOnly(g)) then PresentGroups(db, gs) + [g] else PresentGroups(db, gs)
  {
    assert (gs + [g])[..|gs|] == gs && g.members[0] in g.members;
  }

  lemma {:induction false} LastHasMembers(db: Db, gs: seq<Group<RowKey>>, here: bool)
    requires GroupsOf(db, gs, here) && gs != []
    ensures gs[|gs| - 1].members != []
  {
    hide Rank, MinRank, TableIsHere, Ascending;
  }

  lemma {:induction false} NothingMerged(db: Db)
    ensures Merged([], [], []) && PresentGroups(db, []) == []
  {
  }

  /** Groups of rows here and groups of rows that are not merge into one grouping. */
  lemma {:induction false} Interleaving(db: Db, here: seq<Group<RowKey>>, away: seq<Group<RowKey>>)
    returns (gs: seq<Group<RowKey>>)
    requires GroupsOf(db, here, true) && GroupsOf(db, away, false)
    ensures Merged(gs, here, away) && RowLists(gs) && PresentGroups(db, gs) == here
    decreases |here| + |away|
  {
    hide MinRank, TableIsHere, GroupsOf, Merged, Follows, PresentGroups;
    if here == [] && away == [] {
      gs := [];
      NothingMerged(db);
    } else {
      if here != [] {
        LastHasMembers(db, here, true);
      }
      if away != [] {
        LastHasMembers(db, away, false);
      }
      var n, k := |here| - 1, |away| - 1;
      if away == [] || (here != [] && MinRank(away[k].members) <= MinRank(here[n].members)) {
        LastFollows(db, here, true, away);
        var rest := Interleaving(db, here[..n], away);
        gs := rest + [here[n]];
        assert here == here[..n] + [here[n]];
        MergedSnoc(rest, here[..n], away, here[n]);
        PresentSnoc(db, rest, away, here[n]);
      } else {
        LastFollows(db, away, false, here);
        var rest := Interleaving(db, here, away[..k]);
        gs := rest + [away[k]];
        assert away == away[..k] + [away[k]];
        MergedSnoc(rest, away[..k], here, away[k]);
        PresentSnoc(db, rest, here, away[k]);
      }
    }
  }

  lemma {:induction false} GroupingOf(db: Db, cs: seq<Change>, gs: seq<Group<RowKey>>, here: bool)
    requires RowGrouping(cs, gs) && forall ch :: ch in cs ==> TableIsHere(db, ch) == here
    ensures GroupsOf(db, gs, here)
  {
    hide Rank, MinRank, Ascending, Flatten;
    SameMembers(cs, gs);
    forall g | g in gs ensures TableIsHere(db, KeyOnly(g)) == here {
      var i :| 0 <= i < |gs| && gs[i] == g;
      assert g.members[0] in g.members;
      MemberOfFlatten(gs, i, g.members[0]);
    }
  }

  /** A grouping of the changes to tables that are here extends to one of the whole batch. */
  lemma {:induction false} GroupingExtends(db: Db, cs: seq<Change>, here: seq<Group<RowKey>>) returns (gs: seq<Group<RowKey>>)
    requires RowGrouping(Present(db, cs), here)
    ensures RowGrouping(cs, gs) && RowLists(gs) && PresentGroups(db, gs) == here
  {
    hide Rank, MinRank, Ascending, Flatten, TableIsHere, Present;
    var rest := AbsentChanges(db, cs);
    var away := GroupingExists(rest);
    forall ch | ch in Present(db, cs) ensures TableIsHere(db, ch) {
      PresentCounts(db, cs, ch);
    }
    GroupingOf(db, Present(db, cs), here, true);
    GroupingOf(db, rest, away, false);
    gs := Interleaving(db, here, away);
  }

  /** Changes to tables this device does not have are skipped: a batch commits to exactly what it
      commits to without them. */
  lemma {:induction false} AbsentTablesAreSkipped(before: Db, cs: seq<Change>, w: World, after: Db)
    requires ValidWorld(w) && SchemaOf(before, DELETED_ROWS_TABLE) != []
    ensures Commits(before, cs, w, after) <==> Commits(before, Present(before, cs), w, after)
  {
    hide CommitsVia, Present;
    if gs, mid, order :| CommitsVia(before, cs, w, after, gs, mid, order) {
      CommitsWithout(before, cs, w, after, gs, mid, order);
    }
    if gs, mid, order :| CommitsVia(before, Present(before, cs), w, after, gs, mid, order) {
      CommitsWith(before, cs, w, after, gs, mid, order);
    }
  }

  lemma {:induction false} CommitsWithout(before: Db, cs: seq<Change>, w: World, after: Db,
                                          gs: seq<Group<RowKey>>, mid: Db, order: seq<Name>)
    requires ValidWorld(w) && CommitsVia(before, cs, w, after, gs, mid, order) && SchemaOf(before, DELETED_ROWS_TABLE) != []
    ensures Commits(before, Present(before, cs), w, after)
  {
    hide ApplyRows, PropagateAll, RowGrouping, TableIsHere, PresentGroups, Present;
    var start := before.(triggersOn := false);
    SameMembers(cs, gs);
    PresentGroupsApply(start, w, gs);
    PresentGrouping(before, start, cs, gs);
    PresentDeletes(before, cs);
    assert CommitsVia(before, Present(before, cs), w, after, PresentGroups(start, gs), mid, order);
  }

  lemma {:induction false} CommitsWith(before: Db, cs: seq<Change>, w: World, after: Db,
                                       gs: seq<Group<RowKey>>, mid: Db, order: seq<Name>)
    requires ValidWorld(w) && CommitsVia(before, Present(before, cs), w, after, gs, mid, order)
    requires SchemaOf(before, DELETED_ROWS_TABLE) != []
    ensures Commits(before, cs, w, after)
  {
    hide ApplyRows, PropagateAll, RowGrouping, PresentGroups, Present;
    var start := before.(triggersOn := false);
    assert forall ch :: TableIsHere(start, ch) == TableIsHere(before, ch);
    SamePresent(before, start, cs);
    var all := GroupingExtends(start, cs, gs);
    CommittedIsWellFormed(before, Present(before, cs), w, after);
    forall ch | ch in cs && TableIsHere(before, ch) ensures ch in Present(before, cs) {
      PresentCounts(before, cs, ch);
    }
    assert WellFormedBatch(start, cs);
    assert all[..|all|] == all;
    BatchApplies(start, w, cs, all, |all|);
    PresentGroupsApply(start, w, all);
    PresentDeletes(before, cs);
    assert CommitsVia(before, cs, w, after, all, mid, order);
  }

  lemma {:induction false} SamePresent(db: Db, start: Db, cs: seq<Change>)
    requires start.schemas == db.schemas
    ensures Present(start, cs) == Present(db, cs)
  {
    if cs != [] {
      SamePresent(db, start, cs[..|cs| - 1]);
    }
  }

  lemma {:induction false} PresentDeletes(db: Db, cs: seq<Change>)
    requires SchemaOf(db, DELETED_ROWS_TABLE) != []
    ensures InboundDeleteIds(Present(db, cs)) == InboundDeleteIds(cs)
  {
    hide Present;
    forall ch ensures ch in Present(db, cs) <==> ch in cs && TableIsHere(db, ch) {
      PresentCounts(db, cs, ch);
    }
  }

  lemma {:induction false} PresentGrouping(db: Db, start: Db, cs: seq<Change>, gs: seq<Group<RowKey>>)
    requires RowGrouping(cs, gs) && RowLists(gs) && start.schemas == db.schemas
    ensures RowGrouping(Present(db, cs), PresentGroups(start, gs))
  {
    hide Rank, MinRank, Ascending, Flatten, Present, PresentGroups;
    var here := PresentGroups(start, gs);
    PresentGroupsFacts(start, gs);
    forall ch ensures multiset(Flatten(here))[ch] == multiset(Present(db, cs))[ch] {
      PresentFlatten(start, gs, ch);
      PresentCounts(db, cs, ch);
    }
    assert multiset(Flatten(here)) == multiset(Present(db, cs));
  }
}
