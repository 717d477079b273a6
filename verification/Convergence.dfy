/**
  Convergence: committing batches is joining cells, so replicas that have received the same
  changes hold the same data, whatever the order, the batching and the retries.
 */
module Convergence {
  import opened Wrappers
  import opened HlcText
  import opened Store
  import Keys
  import opened Grouping
  import opened RowMerge
  import opened Apply

  // ---------------------------------------------------------------------------------------
  // Hypotheses
  // ---------------------------------------------------------------------------------------

  /** The changes of `cs` to one cell. */
  function Relevant(db: Db, cs: seq<Change>, table: Name, pk: Pk, column: Name): set<Change> {
    set ch | ch in cs && ch.table == table && ch.column == column && RowNamed(db, ch) == Some(pk)
  }

  /** No UNIQUE constraint ever fires. */
  ghost predicate NoConflicts(w: World) {
    forall table, pk :: !w.unique(table, pk)
  }

  /** The key object names the row an INSERT creates (`Keys.InsertedKey`). */
  ghost predicate WellNamed(db: Db, ch: Change) {
    ch.rowPks.ObjectText? ==> Keys.KeyNamed(PkNames(SchemaOf(db, ch.table)), ch.rowPks.fields)
  }

  predicate RowIsThere(db: Db, ch: Change) {
    RowNamed(db, ch).Some? && RowExists(db, ch.table, RowNamed(db, ch).value)
  }

  /** Two different values for one column of one row come in one batch only if the row is
      already there (`RowMerge.InsertKeepsNewest`). */
  ghost predicate RepeatsOnlyUpdate(db: Db, cs: seq<Change>) {
    forall x, y | x in cs && y in cs && RowKeyOf(x) == RowKeyOf(y) && x.column == y.column
                  && Rank(x.hlc) > 0 && Rank(y.hlc) > 0 && x.value != y.value :: RowIsThere(db, x)
  }

  ghost predicate Mergeable(db: Db, cs: seq<Change>) {
    (forall ch :: ch in cs ==> WellNamed(db, ch)) && RepeatsOnlyUpdate(db, cs)
  }

  // ---------------------------------------------------------------------------------------
  // One row
  // ---------------------------------------------------------------------------------------

  /** Everything but the rows, the pending columns and the conflict log. */
  ghost predicate SameSetting(a: Db, b: Db) {
    a.schemas == b.schemas && a.dirty == b.dirty && a.triggersOn == b.triggersOn
  }

  ghost predicate OneRow(list: seq<Change>) {
    list != [] && forall ch :: ch in list ==> RowKeyOf(ch) == RowKeyOf(list[0])
  }

  lemma {:induction false} RowFrame(db: Db, w: World, list: seq<Change>)
    requires OneRow(list) && !db.triggersOn && ApplyRow(db, w, list).Some?
    ensures SameSetting(db, ApplyRow(db, w, list).value)
    ensures forall t, pk :: RowExists(db, t, pk) ==> RowExists(ApplyRow(db, w, list).value, t, pk)
  {
  }

  /** The row a group of changes writes, and what it writes there. */
  function GroupRow(db: Db, w: World, list: seq<Change>): Option<(Pk, Row)>
    requires list != []
  {
    var table := list[0].table;
    var schema := SchemaOf(db, table);
    if schema == [] || list[0].rowPks.NotAnObject? then None
    else
      var named := WherePk(PkNames(schema), list[0].rowPks.fields);
      var newPk := Keys.InsertPk(PkNames(schema), list[0].rowPks.fields);
      var m := MergeAll(ColumnNames(schema), StartMerge(RowAt(db, table, named), list[0]), list);
      if m.accepted == [] then None
      else match RowAt(db, table, named)
        case Some(row) => Some((named, Row(AssignLast(row.cells, m.accepted), m.hlcs, Some(m.maxHlc))))
        case None =>
          if RowExists(db, table, newPk) || w.unique(table, newPk) then None
          else Some((newPk, Row(AssignFirst(m.accepted), m.hlcs, Some(m.maxHlc))))
  }

  lemma {:induction false} GroupWrites(db: Db, w: World, list: seq<Change>, table: Name, pk: Pk)
    requires OneRow(list) && !db.triggersOn && ApplyRow(db, w, list).Some?
    ensures RowAt(ApplyRow(db, w, list).value, table, pk) ==
            if GroupRow(db, w, list).Some? && list[0].table == table && GroupRow(db, w, list).value.0 == pk
            then Some(GroupRow(db, w, list).value.1) else RowAt(db, table, pk)
  {
    hide MergeAll, Keys.InsertPk, WherePk;
  }

  /** The HLC a group writes: that of its first change or of one with news, and none of these is
      newer. */
  ghost predicate NewestOfGroup(known: set<Name>, hlcs: map<Name, Hlc>, list: seq<Change>, h: Hlc)
    requires list != []
  {
    && (h == list[0].hlc || exists ch :: ch in list && BringsNews(known, hlcs, ch) && h == ch.hlc)
    && Rank(list[0].hlc) <= Rank(h) && forall ch :: ch in list && BringsNews(known, hlcs, ch) ==> Rank(ch.hlc) <= Rank(h)
  }

  lemma {:induction false} MergedIsNewest(known: set<Name>, row: Option<Row>, list: seq<Change>)
    requires list != []
    ensures var m := MergeAll(known, StartMerge(row, list[0]), list);
            && NewestOfGroup(known, if row.Some? then row.value.hlcs else map[], list, m.maxHlc)
            && (m.accepted == [] <==> forall ch :: ch in list ==> !BringsNews(known, if row.Some? then row.value.hlcs else map[], ch))
  {
    hide Rank, MergeAll;
    var m0 := StartMerge(row, list[0]);
    MergeFacts(known, m0, list);
    AcceptedBringNews(known, m0, list);
    forall ch | ch in list && BringsNews(known, m0.hlcs, ch) ensures Rank(ch.hlc) <= Rank(MergeAll(known, m0, list).maxHlc) {
      MergedRowHlc(known, m0, list, Rank(ch.hlc));
    }
  }

  /** The row a group writes carries the newest HLC of the group, whether it was there or not. */
  lemma {:induction false} GroupRowIsNewest(db: Db, w: World, list: seq<Change>)
    requires OneRow(list) && GroupRow(db, w, list).Some?
    ensures var (pk, row) := GroupRow(db, w, list).value;
            var held := RowAt(db, list[0].table, pk);
            row.rowHlc.Some? && NewestOfGroup(ColumnNames(SchemaOf(db, list[0].table)),
                                              if held.Some? then held.value.hlcs else map[], list, row.rowHlc.value)
  {
    hide Rank, MergeAll, Keys.InsertPk, NewestOfGroup;
    var schema := SchemaOf(db, list[0].table);
    var named := WherePk(PkNames(schema), list[0].rowPks.fields);
    MergedIsNewest(ColumnNames(schema), RowAt(db, list[0].table, named), list);
  }

  /** The row a group writes keeps, under a column this device does not know, the HLC of the group's last
      change to it. */
  lemma {:induction false} GroupRowKeepsUnknown(db: Db, w: World, list: seq<Change>, c: Name)
    requires OneRow(list) && GroupRow(db, w, list).Some? && c !in ColumnNames(SchemaOf(db, list[0].table))
    ensures var (pk, row) := GroupRow(db, w, list).value;
            HlcIn(row.hlcs, c) == match LastChange(list, c)
                                  case Some(ch) => ch.hlc
                                  case None => CellAt(db, list[0].table, pk, c).hlc
  {
    hide Rank, MergeAll, Keys.InsertPk, LastChange;
    var schema := SchemaOf(db, list[0].table);
    var named := WherePk(PkNames(schema), list[0].rowPks.fields);
    UnknownColumnEntry(ColumnNames(schema), StartMerge(RowAt(db, list[0].table, named), list[0]), list, c);
  }

  /** An INSERT of news onto a key that is taken, or against a UNIQUE constraint. */
  ghost predicate Clashes(db: Db, w: World, list: seq<Change>)
    requires list != []
  {
    var table := list[0].table;
    var schema := SchemaOf(db, table);
    && schema != [] && list[0].rowPks.ObjectText? && PkNames(schema) != [] && !RowIsThere(db, list[0])
    && (exists ch :: ch in list && BringsNews(ColumnNames(schema), map[], ch))
    && (RowExists(db, table, Keys.InsertPk(PkNames(schema), list[0].rowPks.fields))
        || w.unique(table, Keys.InsertPk(PkNames(schema), list[0].rowPks.fields)))
  }

  /** What a group notes besides rows: exactly one conflict when it clashes, under its table and newest
      HLC and with no row touched, none otherwise; and exactly its unknown columns as pending. */
  lemma {:induction false} GroupNotes(db: Db, w: World, list: seq<Change>)
    requires OneRow(list) && !db.triggersOn && ApplyRow(db, w, list).Some?
    ensures var after, schema := ApplyRow(db, w, list).value, SchemaOf(db, list[0].table);
            && (if Clashes(db, w, list) then
                  && after.tables == db.tables && |after.conflicts| == |db.conflicts| + 1
                  && after.conflicts[..|db.conflicts|] == db.conflicts
                  && after.conflicts[|db.conflicts|].table == list[0].table
                  && NewestOfGroup(ColumnNames(schema), map[], list, after.conflicts[|db.conflicts|].hlc)
                else after.conflicts == db.conflicts)
            && after.pending == db.pending
                 + (if schema == [] then {} else set ch | ch in list && ch.column !in ColumnNames(schema) :: (ch.table, ch.column))
  {
    hide Rank, MergeAll, Keys.InsertPk, NewestOfGroup, BringsNews;
    var schema := SchemaOf(db, list[0].table);
    if schema != [] {
      var named := WherePk(PkNames(schema), list[0].rowPks.fields);
      var row := RowAt(db, list[0].table, named);
      MergeFacts(ColumnNames(schema), StartMerge(row, list[0]), list);
      MergedIsNewest(ColumnNames(schema), row, list);
    }
  }

  lemma {:induction false} RowLeavesOthers(db: Db, w: World, list: seq<Change>, table: Name, pk: Pk)
    requires OneRow(list) && !db.triggersOn && ApplyRow(db, w, list).Some?
    requires WellNamed(db, list[0])
    requires list[0].table != table || RowNamed(db, list[0]) != Some(pk)
    ensures RowAt(ApplyRow(db, w, list).value, table, pk) == RowAt(db, table, pk)
  {
    if SchemaOf(db, list[0].table) != [] {
      Keys.InsertedKey(PkNames(SchemaOf(db, list[0].table)), list[0].rowPks.fields);
    }
  }

  /** The row the changes name: how its new content follows from the column loop. */
  lemma {:induction false} RowWritten(db: Db, w: World, list: seq<Change>)
    requires OneRow(list) && !db.triggersOn && ApplyRow(db, w, list).Some?
    requires WellNamed(db, list[0]) && NoConflicts(w)
    requires SchemaOf(db, list[0].table) != []
    ensures list[0].rowPks.ObjectText?
    ensures var t := list[0].table;
            var pk := RowNamed(db, list[0]).value;
            var row := RowAt(db, t, pk);
            var m := MergeAll(ColumnNames(SchemaOf(db, t)), StartMerge(row, list[0]), list);
            RowAt(ApplyRow(db, w, list).value, t, pk) ==
            if m.accepted == [] then row
            else Some(Row(if row.Some? then AssignLast(row.value.cells, m.accepted) else AssignFirst(m.accepted),
                          m.hlcs, Some(m.maxHlc)))
  {
    Keys.InsertedKey(PkNames(SchemaOf(db, list[0].table)), list[0].rowPks.fields);
  }

  lemma {:induction false} RepeatsOfRowAgree(db: Db, list: seq<Change>, known: set<Name>)
    requires OneRow(list) && RepeatsOnlyUpdate(db, list) && !RowIsThere(db, list[0])
    ensures RepeatsAgree(known, list)
  {
    forall c | c in known && Oldest(list, c).Some? && Newest(list, c).Some?
      ensures Oldest(list, c).value.value == Newest(list, c).value.value
    {
      OldestMember(list, c);
      SameRowSameAnswer(db, Oldest(list, c).value, list[0]);
    }
  }

  lemma {:induction false} SameRowSameAnswer(db: Db, x: Change, y: Change)
    requires RowKeyOf(x) == RowKeyOf(y)
    ensures RowNamed(db, x) == RowNamed(db, y) && (RowIsThere(db, x) <==> RowIsThere(db, y))
  {
  }

  /** One row of a batch joins its changes into every known column of every row. */
  lemma {:induction false} RowSettles(db: Db, w: World, list: seq<Change>, table: Name, pk: Pk, column: Name)
    requires OneRow(list) && !db.triggersOn && ApplyRow(db, w, list).Some?
    requires Mergeable(db, list) && NoConflicts(w)
    requires column in ColumnNames(SchemaOf(db, table))
    ensures Settled(CellAt(db, table, pk, column), CellAt(ApplyRow(db, w, list).value, table, pk, column),
                    Relevant(db, list, table, pk, column))
  {
    hide Rank;
    assert list[0] in list;
    if list[0].table != table || RowNamed(db, list[0]) != Some(pk) {
      RowLeavesOthers(db, w, list, table, pk);
      assert Relevant(db, list, table, pk, column) == {};
    } else {
      var known, row := ColumnNames(SchemaOf(db, table)), RowAt(db, table, pk);
      var m := StartMerge(row, list[0]);
      var cells := if row.Some? then row.value.cells else map[];
      RowWritten(db, w, list);
      UpdateSettles(known, m, cells, list, column);
      MergeFacts(known, m, list);
      assert Relevant(db, list, table, pk, column) == OnColumn(list, column);
      if row.None? && MergeAll(known, m, list).accepted != [] {
        RepeatsOfRowAgree(db, list, known);
        InsertKeepsNewest(known, list[0].hlc, list);
      }
    }
  }

  /** A row exists afterwards exactly when it did before or a change stamps a known column. */
  ghost predicate Creates(db: Db, cs: seq<Change>, table: Name, pk: Pk) {
    exists ch :: ch in cs && ch.table == table && RowNamed(db, ch) == Some(pk)
                 && ch.column in ColumnNames(SchemaOf(db, table)) && Rank(ch.hlc) > 0
  }

  lemma {:induction false} RowCreated(db: Db, w: World, list: seq<Change>, table: Name, pk: Pk)
    requires OneRow(list) && !db.triggersOn && ApplyRow(db, w, list).Some?
    requires WellNamed(db, list[0]) && NoConflicts(w)
    requires SchemaOf(db, table) != []
    ensures RowExists(ApplyRow(db, w, list).value, table, pk)
            <==> RowExists(db, table, pk) || Creates(db, list, table, pk)
  {
    if list[0].table != table || RowNamed(db, list[0]) != Some(pk) {
      RowLeavesOthers(db, w, list, table, pk);
    } else {
      RowWritten(db, w, list);
      EmptyIsOldest();
      MergeFacts(ColumnNames(SchemaOf(db, table)), StartMerge(RowAt(db, table, pk), list[0]), list);
    }
  }

  // ---------------------------------------------------------------------------------------
  // A batch
  // ---------------------------------------------------------------------------------------

  /** Every known column of every row settles, and rows appear exactly when a change creates
      them. */
  ghost predicate Joins(before: Db, after: Db, cs: seq<Change>) {
    && after.schemas == before.schemas
    && (forall table, pk, column :: column in ColumnNames(SchemaOf(before, table)) ==>
          Settled(CellAt(before, table, pk, column), CellAt(after, table, pk, column),
                  Relevant(before, cs, table, pk, column)))
    && (forall table, pk :: SchemaOf(before, table) != [] ==>
          (RowExists(after, table, pk) <==> RowExists(before, table, pk) || Creates(before, cs, table, pk)))
  }

  lemma {:induction false} JoinsCompose(a: Db, b: Db, c: Db, s: seq<Change>, t: seq<Change>)
    requires Joins(a, b, s) && Joins(b, c, t)
    ensures Joins(a, c, s + t)
  {
    hide Rank;
    forall table, pk, column | column in ColumnNames(SchemaOf(a, table))
      ensures Settled(CellAt(a, table, pk, column), CellAt(c, table, pk, column), Relevant(a, s + t, table, pk, column))
    {
      SettledCompose(CellAt(a, table, pk, column), CellAt(b, table, pk, column), CellAt(c, table, pk, column),
                     Relevant(a, s, table, pk, column), Relevant(b, t, table, pk, column));
      assert Relevant(a, s + t, table, pk, column) ==
             Relevant(a, s, table, pk, column) + Relevant(b, t, table, pk, column);
    }
    forall table, pk | SchemaOf(a, table) != []
      ensures RowExists(c, table, pk) <==> RowExists(a, table, pk) || Creates(a, s + t, table, pk)
    {
      CreatesConcat(a, b, s, t, table, pk);
    }
  }

  lemma {:induction false} CreatesConcat(a: Db, b: Db, s: seq<Change>, t: seq<Change>, table: Name, pk: Pk)
    requires a.schemas == b.schemas
    ensures Creates(a, s + t, table, pk) <==> Creates(a, s, table, pk) || Creates(b, t, table, pk)
  {
    if Creates(b, t, table, pk) {
      var ch :| ch in t && ch.table == table && RowNamed(b, ch) == Some(pk)
                && ch.column in ColumnNames(SchemaOf(b, table)) && Rank(ch.hlc) > 0;
      assert ch in s + t && RowNamed(a, ch) == Some(pk);
    }
    if Creates(a, s, table, pk) {
      var ch :| ch in s && ch.table == table && RowNamed(a, ch) == Some(pk)
                && ch.column in ColumnNames(SchemaOf(a, table)) && Rank(ch.hlc) > 0;
      assert ch in s + t;
    }
    if Creates(a, s + t, table, pk) {
      var ch :| ch in s + t && ch.table == table && RowNamed(a, ch) == Some(pk)
                && ch.column in ColumnNames(SchemaOf(a, table)) && Rank(ch.hlc) > 0;
      assert RowNamed(b, ch) == Some(pk);
    }
  }

  /** Joining is about which changes there are, not about their order or multiplicity. */
  lemma {:induction false} JoinsSameElements(before: Db, after: Db, s: seq<Change>, t: seq<Change>)
    requires Joins(before, after, s) && forall ch :: ch in s <==> ch in t
    ensures Joins(before, after, t)
  {
    forall table, pk, column | column in ColumnNames(SchemaOf(before, table))
      ensures Relevant(before, s, table, pk, column) == Relevant(before, t, table, pk, column)
    {
    }
    assert forall table, pk :: Creates(before, s, table, pk) <==> Creates(before, t, table, pk);
  }

  lemma {:induction false} RowJoins(db: Db, w: World, list: seq<Change>)
    requires OneRow(list) && !db.triggersOn && ApplyRow(db, w, list).Some?
    requires Mergeable(db, list) && NoConflicts(w)
    ensures Joins(db, ApplyRow(db, w, list).value, list)
  {
    RowFrame(db, w, list);
    assert list[0] in list;
    forall table, pk, column | column in ColumnNames(SchemaOf(db, table))
      ensures Settled(CellAt(db, table, pk, column), CellAt(ApplyRow(db, w, list).value, table, pk, column),
                      Relevant(db, list, table, pk, column))
    {
      RowSettles(db, w, list, table, pk, column);
    }
    forall table, pk | SchemaOf(db, table) != []
      ensures RowExists(ApplyRow(db, w, list).value, table, pk)
              <==> RowExists(db, table, pk) || Creates(db, list, table, pk)
    {
      RowCreated(db, w, list, table, pk);
    }
  }

  lemma {:induction false} MergeableLater(db: Db, later: Db, all: seq<Change>, some: seq<Change>)
    requires Mergeable(db, all) && later.schemas == db.schemas
    requires forall t, pk :: RowExists(db, t, pk) ==> RowExists(later, t, pk)
    requires forall ch :: ch in some ==> ch in all
    ensures Mergeable(later, some)
  {
    forall ch | ch in some ensures WellNamed(later, ch) {
      assert WellNamed(db, ch);
    }
    forall x, y | x in some && y in some && RowKeyOf(x) == RowKeyOf(y) && x.column == y.column
                  && Rank(x.hlc) > 0 && Rank(y.hlc) > 0 && x.value != y.value
      ensures RowIsThere(later, x)
    {
      assert RowIsThere(db, x) && RowNamed(later, x) == RowNamed(db, x);
    }
  }

  ghost predicate RowLists(gs: seq<Group<RowKey>>) {
    forall i :: 0 <= i < |gs| ==> OneRow(gs[i].members)
  }

  lemma {:induction false} RowsJoin(db: Db, w: World, gs: seq<Group<RowKey>>)
    requires RowLists(gs) && !db.triggersOn && ApplyRows(db, w, gs).Some?
    requires Mergeable(db, Flatten(gs)) && NoConflicts(w)
    ensures Joins(db, ApplyRows(db, w, gs).value, Flatten(gs))
    ensures SameSetting(db, ApplyRows(db, w, gs).value)
    ensures forall t, pk :: RowExists(db, t, pk) ==> RowExists(ApplyRows(db, w, gs).value, t, pk)
  {
    if gs == [] {
      NothingJoins(db);
    } else {
      var n := |gs| - 1;
      var mid := ApplyRows(db, w, gs[..n]).value;
      MergeableLater(db, db, Flatten(gs), Flatten(gs[..n]));
      RowsJoin(db, w, gs[..n]);
      MergeableLater(db, mid, Flatten(gs), gs[n].members);
      RowFrame(mid, w, gs[n].members);
      RowJoins(mid, w, gs[n].members);
      JoinsCompose(db, mid, ApplyRows(db, w, gs).value, Flatten(gs[..n]), gs[n].members);
    }
  }

  lemma {:induction false} NothingJoins(db: Db)
    ensures Joins(db, db, [])
  {
    forall table, pk, column ensures Relevant(db, [], table, pk, column) == {} {}
  }

  ghost predicate NoDeletes(cs: seq<Change>) {
    forall ch :: ch in cs ==> ch.table != DELETED_ROWS_TABLE
  }

  lemma {:induction false} NoDeletesToPropagate(cs: seq<Change>, order: seq<Name>)
    requires NoDeletes(cs) && Enumerates(order, InboundDeleteIds(cs))
    ensures order == []
  {
    assert InboundDeleteIds(cs) == {};
  }

  lemma {:induction false} SameMembers(cs: seq<Change>, gs: seq<Group<RowKey>>)
    requires RowGrouping(cs, gs)
    ensures forall ch :: ch in cs <==> ch in Flatten(gs)
    ensures RowLists(gs)
  {
    forall ch ensures ch in cs <==> ch in Flatten(gs) {
      assert ch in multiset(cs) <==> ch in multiset(Flatten(gs));
    }
    forall i | 0 <= i < |gs| ensures OneRow(gs[i].members) {
      assert gs[i].members[0] in gs[i].members;
    }
  }

  lemma {:induction false} GroupOf(gs: seq<Group<RowKey>>, ch: Change) returns (i: nat)
    requires ch in Flatten(gs)
    ensures i < |gs| && ch in gs[i].members
  {
    i := |gs| - 1;
    if ch !in gs[i].members {
      i := GroupOf(gs[..i], ch);
    }
  }

  lemma {:induction false} MemberOfFlatten(gs: seq<Group<RowKey>>, i: nat, ch: Change)
    requires i < |gs| && ch in gs[i].members
    ensures ch in Flatten(gs)
  {
    if i < |gs| - 1 {
      MemberOfFlatten(gs[..|gs| - 1], i, ch);
    }
  }

  /** A group holds every change with its key. */
  lemma {:induction false} GroupIsWhole(cs: seq<Change>, gs: seq<Group<RowKey>>, i: nat, ch: Change)
    requires RowGrouping(cs, gs) && i < |gs| && ch in cs && RowKeyOf(ch) == gs[i].key
    ensures ch in gs[i].members
  {
    hide Rank, MinRank;
    SameMembers(cs, gs);
    var j := GroupOf(gs, ch);
    assert gs[j].key == RowKeyOf(ch);
  }

  /** Joining concerns schemas and tables only. */
  lemma {:induction false} JoinsOfTables(a: Db, b: Db, a': Db, b': Db, cs: seq<Change>)
    requires Joins(a, b, cs)
    requires a.schemas == a'.schemas && a.tables == a'.tables && b.schemas == b'.schemas && b.tables == b'.tables
    ensures Joins(a', b', cs)
  {
    forall table, pk, column | column in ColumnNames(SchemaOf(a, table))
      ensures Settled(CellAt(a', table, pk, column), CellAt(b', table, pk, column),
                      Relevant(a', cs, table, pk, column))
    {
      assert CellAt(a, table, pk, column) == CellAt(a', table, pk, column);
      assert CellAt(b, table, pk, column) == CellAt(b', table, pk, column);
      assert Relevant(a, cs, table, pk, column) == Relevant(a', cs, table, pk, column);
    }
    forall table, pk | SchemaOf(a', table) != []
      ensures RowExists(b', table, pk) <==> RowExists(a', table, pk) || Creates(a', cs, table, pk)
    {
      assert RowExists(b', table, pk) <==> RowExists(b, table, pk);
      CreatesConcat(a, a', [], cs, table, pk);
      assert [] + cs == cs;
    }
  }

  /** A committed batch joins its changes into the database. */
  lemma {:induction false} CommitJoins(before: Db, cs: seq<Change>, w: World, after: Db)
    requires ValidWorld(w) && NoConflicts(w)
    requires Commits(before, cs, w, after) && Mergeable(before, cs) && NoDeletes(cs)
    ensures Joins(before, after, cs)
    ensures after.dirty == before.dirty && after.triggersOn
    ensures forall t, pk :: RowExists(before, t, pk) ==> RowExists(after, t, pk)
  {
    hide Rank;
    var gs, mid, order :| CommitsVia(before, cs, w, after, gs, mid, order);
    var start := before.(triggersOn := false);
    NoDeletesToPropagate(cs, order);
    SameMembers(cs, gs);
    MergeableLater(before, start, cs, Flatten(gs));
    RowsJoin(start, w, gs);
    JoinsSameElements(start, mid, Flatten(gs), cs);
    JoinsOfTables(start, mid, before, after, cs);
  }

  /** Rows that no change names stay as they are, row HLC included. */
  lemma {:induction false} RowsLeaveOthers(db: Db, w: World, gs: seq<Group<RowKey>>, table: Name, pk: Pk)
    requires RowLists(gs) && !db.triggersOn && ApplyRows(db, w, gs).Some?
    requires forall ch :: ch in Flatten(gs) ==> WellNamed(db, ch) && (ch.table != table || RowNamed(db, ch) != Some(pk))
    ensures SameSetting(db, ApplyRows(db, w, gs).value)
    ensures RowAt(ApplyRows(db, w, gs).value, table, pk) == RowAt(db, table, pk)
  {
    if gs != [] {
      var n := |gs| - 1;
      var mid := ApplyRows(db, w, gs[..n]).value;
      RowsLeaveOthers(db, w, gs[..n], table, pk);
      var first := gs[n].members[0];
      assert first in Flatten(gs) && RowNamed(mid, first) == RowNamed(db, first);
      RowFrame(mid, w, gs[n].members);
      RowLeavesOthers(mid, w, gs[n].members, table, pk);
    }
  }

  lemma {:induction false} CommitLeavesOthers(before: Db, cs: seq<Change>, w: World, after: Db, table: Name, pk: Pk)
    requires ValidWorld(w) && Commits(before, cs, w, after) && NoDeletes(cs)
    requires forall ch :: ch in cs ==> WellNamed(before, ch) && (ch.table != table || RowNamed(before, ch) != Some(pk))
    ensures RowAt(after, table, pk) == RowAt(before, table, pk)
  {
    hide Rank;
    var gs, mid, order :| CommitsVia(before, cs, w, after, gs, mid, order);
    var start := before.(triggersOn := false);
    NoDeletesToPropagate(cs, order);
    SameMembers(cs, gs);
    forall ch | ch in Flatten(gs) ensures WellNamed(start, ch) && RowNamed(start, ch) == RowNamed(before, ch) {
      assert WellNamed(before, ch);
    }
    RowsLeaveOthers(start, w, gs, table, pk);
    assert RowAt(after, table, pk) == RowAt(mid, table, pk);
  }

  // ---------------------------------------------------------------------------------------
  // Runs
  // ---------------------------------------------------------------------------------------

  function Concat(batches: seq<seq<Change>>): seq<Change> {
    if batches == [] then [] else Concat(batches[..|batches| - 1]) + batches[|batches| - 1]
  }

  /** A replica that commits one batch after the other. */
  ghost predicate SyncRun(dbs: seq<Db>, batches: seq<seq<Change>>, w: World)
    requires ValidWorld(w)
  {
    && |dbs| == |batches| + 1
    && forall i :: 0 <= i < |batches| ==>
         Commits(dbs[i], batches[i], w, dbs[i + 1]) && Mergeable(dbs[i], batches[i]) && NoDeletes(batches[i])
  }

  lemma {:induction false} RunJoins(dbs: seq<Db>, batches: seq<seq<Change>>, w: World)
    requires ValidWorld(w) && NoConflicts(w) && SyncRun(dbs, batches, w)
    ensures Joins(dbs[0], dbs[|batches|], Concat(batches))
  {
    if batches == [] {
      NothingJoins(dbs[0]);
    } else {
      var n := |batches| - 1;
      RunJoins(dbs[..n + 1], batches[..n], w);
      CommitJoins(dbs[n], batches[n], w, dbs[n + 1]);
      JoinsCompose(dbs[0], dbs[n], dbs[n + 1], Concat(batches[..n]), batches[n]);
    }
  }

  /** The changes agree on the value of every HLC they carry for a cell. */
  ghost predicate OneValuePerCellHlc(db: Db, cs: seq<Change>) {
    forall table, pk, column :: column in ColumnNames(SchemaOf(db, table))
      ==> OneValuePerHlc(Relevant(db, cs, table, pk, column))
  }

  ghost predicate SameData(a: Db, b: Db) {
    && (forall table, pk, column :: column in ColumnNames(SchemaOf(a, table)) ==>
          CellAt(a, table, pk, column) == CellAt(b, table, pk, column))
    && (forall table, pk :: SchemaOf(a, table) != [] ==> (RowExists(a, table, pk) <==> RowExists(b, table, pk)))
  }

  lemma {:induction false} JoinsAgree(start: Db, a: Db, b: Db, cs: seq<Change>)
    requires Joins(start, a, cs) && Joins(start, b, cs) && OneValuePerCellHlc(start, cs)
    ensures SameData(a, b)
  {
    forall table, pk, column | column in ColumnNames(SchemaOf(a, table))
      ensures CellAt(a, table, pk, column) == CellAt(b, table, pk, column)
    {
      SettledUnique(CellAt(start, table, pk, column), CellAt(a, table, pk, column), CellAt(b, table, pk, column),
                    Relevant(start, cs, table, pk, column));
    }
  }

  /** Strong convergence: from one state, the same changes in any order, any batching and any
      repetition leave the same rows, values and column HLCs. */
  lemma {:induction false} StrongConvergence(
    dbs: seq<Db>, batches: seq<seq<Change>>, w: World, dbs': seq<Db>, batches': seq<seq<Change>>, w': World)
    requires ValidWorld(w) && NoConflicts(w) && SyncRun(dbs, batches, w)
    requires ValidWorld(w') && NoConflicts(w') && SyncRun(dbs', batches', w')
    requires dbs[0].schemas == dbs'[0].schemas && dbs[0].tables == dbs'[0].tables
    requires forall ch :: ch in Concat(batches) <==> ch in Concat(batches')
    requires OneValuePerCellHlc(dbs[0], Concat(batches))
    ensures SameData(dbs[|batches|], dbs'[|batches'|])
  {
    var a, b := dbs[|batches|], dbs'[|batches'|];
    RunJoins(dbs, batches, w);
    RunJoins(dbs', batches', w');
    JoinsSameElements(dbs'[0], b, Concat(batches'), Concat(batches));
    JoinsOfTables(dbs'[0], b, dbs[0], b, Concat(batches));
    JoinsAgree(dbs[0], a, b, Concat(batches));
  }
}
