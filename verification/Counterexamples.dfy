/**
  Where the code falls short: concrete rows, batches and runs of one small table on which a
  promise fails. The conditions under which each holds are proved beside the code they concern.
 */
module Counterexamples {
  import opened Wrappers
  import opened HlcText
  import opened Store
  import opened Triggers
  import opened Keys
  import opened Grouping
  import opened RowMerge
  import opened Apply
  import opened Convergence
  import opened Scanner
  import opened LocalRuns
  import opened PingPong
  import opened MixedRuns
  import AntiEntropy
  import OwnScans

  // ---------------------------------------------------------------------------------------
  // One table, one row
  // ---------------------------------------------------------------------------------------

  function Notes(): Name { "notes" }
  function Id(): Name { "id" }
  function Title(): Name { "title" }
  function Body(): Name { "body" }

  function Columns(): Schema {
    [ColumnInfo(Id(), true), ColumnInfo(Title(), false), ColumnInfo(Body(), false),
     ColumnInfo(HLC_TIMESTAMP_COLUMN, false), ColumnInfo(COLUMN_HLCS_COLUMN, false)]
  }

  const KEY: Pk := [Text("r")]
  const NULL_KEY: Pk := [Null]

  function VaultOf(table: Table, dirty: set<Name>): Db {
    Db(map[Notes() := Columns()], map[Notes() := table], dirty, {}, [], true)
  }

  function Stored(pk: Pk, row: Row, dirty: set<Name>): Db {
    VaultOf(map[pk := row], dirty)
  }

  const EMPTY := VaultOf(map[], {})

  lemma {:induction false} NameFacts()
    ensures Title() != Body() && Notes() != DELETED_ROWS_TABLE
    ensures Title() != HLC_TIMESTAMP_COLUMN && Title() != COLUMN_HLCS_COLUMN && Title() !in EXCLUDED_SYNC_COLUMNS
    ensures Body() != HLC_TIMESTAMP_COLUMN && Body() != COLUMN_HLCS_COLUMN && Body() !in EXCLUDED_SYNC_COLUMNS
    ensures HLC_TIMESTAMP_COLUMN != COLUMN_HLCS_COLUMN
  {
    assert |Title()| == 5 && |Body()| == 4 && |Notes()| == 5 && |DELETED_ROWS_TABLE| > 5;
    assert |HLC_TIMESTAMP_COLUMN| == 8 && |COLUMN_HLCS_COLUMN| == 16;
    assert forall i :: 0 <= i < |EXCLUDED_SYNC_COLUMNS| ==> |EXCLUDED_SYNC_COLUMNS[i]| > 5;
  }

  lemma {:induction false} SchemaFacts()
    ensures PkNames(Columns()) == [Id()] && DataColumns(Columns()) == [Title(), Body()]
    ensures Columns() != [] && Title() != Body() && Notes() != DELETED_ROWS_TABLE
    ensures Title() in ColumnNames(Columns()) && Body() in ColumnNames(Columns())
    ensures forall db :: SchemaOf(db, Notes()) == Columns() ==> Tracked(db, Notes()) == {Title(), Body()}
  {
    hide Title, Body, Notes, Id;
    NameFacts();
    assert ColumnNames(Columns()) >= {Columns()[1].name, Columns()[2].name};
    TrackedIsScanned(Columns());
    var s1, s2, s3, s4 := Columns()[1..], Columns()[2..], Columns()[3..], Columns()[4..];
    assert s1[1..] == s2 && s2[1..] == s3 && s3[1..] == s4 && s4[1..] == [];
    assert PkNames(s4) == [] && PkNames(s3) == [] && PkNames(s2) == [] && PkNames(s1) == [];
    assert DataColumns(s4) == [] && DataColumns(s3) == [];
    assert DataColumns(s2) == [Body()];
    assert DataColumns(s1) == [Title()] + DataColumns(s2);
    forall db | SchemaOf(db, Notes()) == Columns() ensures Tracked(db, Notes()) == {Title(), Body()} {
      assert TrackedColumns(Columns())[0] == Title() && TrackedColumns(Columns())[1] == Body();
    }
  }

  /** `<time>/<node>`. */
  function Stamp(time: nat, node: nat): Hlc {
    Print(Timestamp(time, node))
  }

  lemma {:induction false} StampFacts(time: nat, node: nat)
    requires 0 < time < 1000 && node < 1000
    ensures Rank(Stamp(time, node)) > 0
    ensures forall other: nat :: IsFromNode(Stamp(time, node), other) <==> other == node
  {
    var t := Timestamp(time, node);
    ParsePrint(t);
    SplitPrint(t);
    ParseDigits(node, 16, U128_BOUND);
  }

  lemma {:induction false} StampOrder(time: nat, node: nat, time': nat, node': nat)
    requires 0 < time < time' < 1000 && node < 1000 && node' < 1000
    ensures Rank(Stamp(time, node)) < Rank(Stamp(time', node'))
  {
    OrderIsomorphism(Timestamp(time, node), Timestamp(time', node'));
    CompareIsRank(Stamp(time, node), Stamp(time', node'));
  }

  /** A change to a column of a row, keyed as the scanner writes it. */
  function ChangeTo(pk: Pk, column: Name, hlc: Hlc, value: Value): Change {
    Change(Notes(), KeyText(Columns(), pk), column, hlc, value)
  }

  /** A change keyed as the scanner writes it names its row, for the WHERE and the INSERT. */
  lemma {:induction false} ScannedKeyNames(db: Db, pk: Pk, ch: Change)
    requires ch.rowPks == KeyText(SchemaOf(db, ch.table), pk)
    requires Distinct(PkNames(SchemaOf(db, ch.table))) && |pk| == |PkNames(SchemaOf(db, ch.table))|
    ensures RowNamed(db, ch) == Some(pk) && WellNamed(db, ch)
    ensures InsertPk(PkNames(SchemaOf(db, ch.table)), ch.rowPks.fields) == pk
  {
    hide InsertPk;
    KeyRoundTrip(PkNames(SchemaOf(db, ch.table)), pk);
    InsertedKey(PkNames(SchemaOf(db, ch.table)), ch.rowPks.fields);
  }

  lemma {:induction false} NamesRow(db: Db, pk: Pk, column: Name, hlc: Hlc, value: Value)
    requires |pk| == 1 && SchemaOf(db, Notes()) == Columns()
    ensures var ch := ChangeTo(pk, column, hlc, value);
            && RowNamed(db, ch) == Some(pk) && WellNamed(db, ch) && Mergeable(db, [ch])
            && InsertPk(PkNames(SchemaOf(db, Notes())), ch.rowPks.fields) == pk
  {
    hide Columns, Notes, Id, PkNames, InsertPk, RowNamed, WellNamed, KeyText, Rank;
    SchemaFacts();
    ScannedKeyNames(db, pk, ChangeTo(pk, column, hlc, value));
  }

  // ---------------------------------------------------------------------------------------
  // Steps
  // ---------------------------------------------------------------------------------------

  ghost function AnyOf(pks: set<Pk>): Pk {
    if pks == {} then [] else var pk :| pk in pks; pk
  }

  /** A database in which nothing goes wrong. */
  ghost function Calm(): World {
    World((t, pk) => false, AnyOf, id => false, pks => map[], false)
  }

  lemma {:induction false} CalmFacts()
    ensures ValidWorld(Calm()) && NoConflicts(Calm())
  {
  }

  lemma {:induction false} SingleGroup(ch: Change)
    ensures RowGrouping([ch], [Group(RowKeyOf(ch), [ch])])
  {
    hide Rank, MinRank;
    var gs := [Group(RowKeyOf(ch), [ch])];
    assert gs[..0] == [];
    assert Flatten(gs) == [ch];
  }

  lemma {:induction false} SingleRow(db: Db, w: World, ch: Change)
    ensures ApplyRows(db, w, [Group(RowKeyOf(ch), [ch])]) == ApplyRow(db, w, [ch])
  {
    hide ApplyRow;
    assert [Group(RowKeyOf(ch), [ch])][..0] == [];
  }

  /** A batch of one change. */
  lemma {:induction false} SingleChangeCommits(db: Db, w: World, ch: Change, after: Db)
    requires ValidWorld(w) && ch.table != DELETED_ROWS_TABLE
    requires ApplyRow(db.(triggersOn := false), w, [ch]) == Some(after)
    ensures Commits(db, [ch], w, after.(triggersOn := true))
  {
    hide ApplyRow, ApplyRows, RowGrouping;
    SingleGroup(ch);
    SingleRow(db.(triggersOn := false), w, ch);
    assert InboundDeleteIds([ch]) == {};
    assert Enumerates([], {});
    assert CommitsVia(db, [ch], w, after.(triggersOn := true), [Group(RowKeyOf(ch), [ch])], after, []);
  }

  lemma {:induction false} MergesOne(known: set<Name>, row: Option<Row>, ch: Change)
    ensures MergeAll(known, StartMerge(row, ch), [ch]) == MergeOne(known, StartMerge(row, ch), ch)
    ensures AssignLast(if row.Some? then row.value.cells else map[], [ch])
            == (if row.Some? then row.value.cells else map[])[ch.column := ch.value]
    ensures AssignFirst([ch]) == map[ch.column := ch.value]
  {
    assert [ch][..0] == [];
  }

  lemma {:induction false} Replaces(pk: Pk, row: Row, dirty: set<Name>, next: Row)
    ensures Put(Stored(pk, row, dirty), Notes(), pk, next) == Stored(pk, next, dirty)
    ensures Put(EMPTY, Notes(), pk, next) == Stored(pk, next, {})
  {
    hide Columns, Notes, Title, Body;
    assert map[pk := row][pk := next] == map[pk := next];
    assert map[Notes() := map[pk := row]][Notes() := map[pk := next]] == map[Notes() := map[pk := next]];
    assert EMPTY.tables[Notes() := map[pk := next]] == map[Notes() := map[pk := next]];
  }

  /** What one newer change to a named row writes. */
  lemma {:induction false} AppliesOne(db: Db, w: World, ch: Change, pk: Pk)
    requires !db.triggersOn && NoConflicts(w) && WellNamed(db, ch) && RowNamed(db, ch) == Some(pk)
    requires PkNames(SchemaOf(db, ch.table)) != [] && ch.column in ColumnNames(SchemaOf(db, ch.table))
    requires Newer(ch.hlc, CellAt(db, ch.table, pk, ch.column).hlc)
    ensures var row := RowAt(db, ch.table, pk);
            var cells, hlcs := if row.Some? then row.value.cells else map[], if row.Some? then row.value.hlcs else map[];
            ApplyRow(db, w, [ch]) ==
            Some(Put(db, ch.table, pk, Row(cells[ch.column := ch.value], hlcs[ch.column := ch.hlc], Some(ch.hlc))))
  {
    hide Rank, MergeAll, PkNames, InsertPk;
    InsertedKey(PkNames(SchemaOf(db, ch.table)), ch.rowPks.fields);
    MergesOne(ColumnNames(SchemaOf(db, ch.table)), RowAt(db, ch.table, pk), ch);
    assert db.pending + {} == db.pending;
  }

  /** A newer change to a stored row. */
  lemma {:induction false} Receives(pk: Pk, row: Row, dirty: set<Name>, column: Name, hlc: Hlc, value: Value)
    requires |pk| == 1 && column in [Title(), Body()] && Newer(hlc, HlcIn(row.hlcs, column))
    ensures Commits(Stored(pk, row, dirty), [ChangeTo(pk, column, hlc, value)], Calm(),
                    Stored(pk, Row(row.cells[column := value], row.hlcs[column := hlc], Some(hlc)), dirty))
  {
    hide Rank, Commits, ApplyRow, Columns, Notes, Title, Body, Calm, KeyText, ColumnNames, PkNames, RowNamed, WellNamed;
    CalmFacts();
    var off, ch := Stored(pk, row, dirty).(triggersOn := false), ChangeTo(pk, column, hlc, value);
    var next := Row(row.cells[column := value], row.hlcs[column := hlc], Some(hlc));
    SchemaFacts();
    NamesRow(off, pk, column, hlc, value);
    AppliesOne(off, Calm(), ch, pk);
    Replaces(pk, row, dirty, next);
    SingleChangeCommits(Stored(pk, row, dirty), Calm(), ch, Stored(pk, next, dirty).(triggersOn := false));
  }

  /** The first change to a row that is not there. */
  lemma {:induction false} ReceivesNew(pk: Pk, column: Name, hlc: Hlc, value: Value)
    requires |pk| == 1 && column in [Title(), Body()] && Rank(hlc) > 0
    ensures Commits(EMPTY, [ChangeTo(pk, column, hlc, value)], Calm(),
                    Stored(pk, Row(map[column := value], map[column := hlc], Some(hlc)), {}))
  {
    hide Rank, Commits, ApplyRow, Columns, Notes, Title, Body, Calm, KeyText, ColumnNames, PkNames, RowNamed, WellNamed;
    CalmFacts();
    EmptyIsOldest();
    var off, ch := EMPTY.(triggersOn := false), ChangeTo(pk, column, hlc, value);
    var next := Row(map[column := value], map[column := hlc], Some(hlc));
    SchemaFacts();
    NamesRow(off, pk, column, hlc, value);
    AppliesOne(off, Calm(), ch, pk);
    Replaces(pk, next, {}, next);
    SingleChangeCommits(EMPTY, Calm(), ch, Stored(pk, next, {}).(triggersOn := false));
  }

  lemma {:induction false} Inserts(op: Op)
    requires op.Insert? && op.table == Notes()
    ensures Exec(EMPTY, op) == Stored(op.pk, InsertedRow({Title(), Body()}, op), {Notes()})
  {
    hide Columns, Notes, Title, Body, Tracked;
    SchemaFacts();
    Replaces(op.pk, InsertedRow({Title(), Body()}, op), {}, InsertedRow({Title(), Body()}, op));
    assert {} + {Notes()} == {Notes()};
  }

  /** The row after its title was changed. */
  function Retitled(pk: Pk, row: Row, value: Value, hlc: Hlc): Row {
    Row(row.cells[Title() := value], if KeyHasNull(pk) then row.hlcs else row.hlcs[Title() := hlc], Some(hlc))
  }

  lemma {:induction false} RetitledRow(pk: Pk, row: Row, value: Value, hlc: Hlc)
    requires ValueIn(row.cells, Title()) != value
    ensures var after := Row(row.cells[Title() := value], row.hlcs, Some(hlc));
            && row.cells + map[Title() := value] == row.cells[Title() := value]
            && ChangedColumns({Title(), Body()}, row, after) == {Title()}
            && row.hlcs + Stamps({Title()}, hlc) == row.hlcs[Title() := hlc]
  {
    hide Title, Body;
    NameFacts();
  }

  lemma {:induction false} RetitledByExec(db: Db, pk: Pk, row: Row, value: Value, hlc: Hlc)
    requires db.triggersOn && RowAt(db, Notes(), pk) == Some(row) && ValueIn(row.cells, Title()) != value
    requires Tracked(db, Notes()) == {Title(), Body()}
    ensures Exec(db, Update(Notes(), pk, map[Title() := value], hlc))
            == Put(db, Notes(), pk, Retitled(pk, row, value, hlc)).(dirty := db.dirty + {Notes()})
  {
    hide Columns, Notes, Title, Body, Tracked, Put, ChangedColumns, Stamps;
    RetitledRow(pk, row, value, hlc);
  }

  /** An update of the title to another value. */
  lemma {:induction false} Updates(pk: Pk, row: Row, dirty: set<Name>, value: Value, hlc: Hlc)
    requires ValueIn(row.cells, Title()) != value
    ensures Exec(Stored(pk, row, dirty), Update(Notes(), pk, map[Title() := value], hlc))
            == Stored(pk, Retitled(pk, row, value, hlc), dirty + {Notes()})
  {
    hide Columns, Notes, Title, Body, Tracked, Put, Exec, Retitled;
    SchemaFacts();
    RetitledByExec(Stored(pk, row, dirty), pk, row, value, hlc);
    Replaces(pk, row, dirty, Retitled(pk, row, value, hlc));
  }

  /** What a scan of the one row emits. */
  lemma {:induction false} ScansRow(pk: Pk, row: Row, dirty: set<Name>, q: Query, ch: Change)
    requires q.space == None
    ensures Emits(Stored(pk, row, dirty), Notes(), q, ch) <==>
            && Prefilter(q, row) && ch.column in [Title(), Body()] && ColumnEmits(q, row, ch.column)
            && ch == ChangeTo(pk, ch.column, EffectiveHlc(row, ch.column).value, ValueIn(row.cells, ch.column))
  {
    hide Columns, Notes, Title, Body, Rank, Lex, IsFromNode;
    SchemaFacts();
    var db := Stored(pk, row, dirty);
    assert RowExists(db, Notes(), pk) && TableOf(db, Notes())[pk] == row;
    assert forall p :: RowExists(db, Notes(), p) ==> p == pk;
    assert Emits(db, Notes(), q, ch) <==> EmitsFrom(Columns(), Notes(), pk, row, q, ch);
  }

  // ---------------------------------------------------------------------------------------
  // Scanner: timestamps as text
  // ---------------------------------------------------------------------------------------

  /** A row written at 100/1 while the cursor stands at 99/1: a full scan has its change, and the
      change is newer than the cursor, but the cursor scan emits nothing. */
  lemma {:induction false} PrefilterDropsNewRow()
    ensures var row := Row(map[Title() := Integer(7)], map[Title() := Stamp(100, 1)], Some(Stamp(100, 1)));
            var db, cursor := Stored(KEY, row, {Notes()}), Stamp(99, 1);
            var ch := ChangeTo(KEY, Title(), Stamp(100, 1), Integer(7));
            && Emits(db, Notes(), EVERYTHING, ch) && Newer(ch.hlc, cursor)
            && forall any :: !Emits(db, Notes(), Query(Some(cursor), None, None), any)
  {
    hide Rank, Lex, Print, Columns, Notes, Title, Body;
    var row := Row(map[Title() := Integer(7)], map[Title() := Stamp(100, 1)], Some(Stamp(100, 1)));
    LexDisagreesAcrossWidths();
    ScansRow(KEY, row, {Notes()}, EVERYTHING, ChangeTo(KEY, Title(), Stamp(100, 1), Integer(7)));
    forall any ensures !Emits(Stored(KEY, row, {Notes()}), Notes(), Query(Some(Stamp(99, 1)), None, None), any) {
      ScansRow(KEY, row, {Notes()}, Query(Some(Stamp(99, 1)), None, None), any);
    }
  }

  // ---------------------------------------------------------------------------------------
  // Apply: row HLCs and columns without an HLC
  // ---------------------------------------------------------------------------------------

  function NoteOf(title: int, body: int, titleHlc: Hlc, bodyHlc: Hlc, rowHlc: Hlc): Row {
    Row(map[Title() := Integer(title), Body() := Integer(body)], map[Title() := titleHlc, Body() := bodyHlc], Some(rowHlc))
  }

  function NoteDb(row: Row): Db {
    Stored(KEY, row, {Notes()})
  }

  /** The title was written at 5/1, the body at 1/1; and the row after a change of the body at
      2/2. */
  function Late(): Row { NoteOf(3, 1, Stamp(5, 1), Stamp(1, 1), Stamp(5, 1)) }
  function Lowered(): Row { NoteOf(3, 9, Stamp(5, 1), Stamp(2, 2), Stamp(2, 2)) }

  lemma {:induction false} BodyArrives()
    ensures Commits(NoteDb(Late()), [ChangeTo(KEY, Body(), Stamp(2, 2), Integer(9))], Calm(), NoteDb(Lowered()))
  {
    hide Columns, Notes, Title, Body, Stamp, Rank, KeyText, Commits;
    NameFacts();
    StampOrder(1, 1, 2, 2);
    Receives(KEY, Late(), {Notes()}, Body(), Stamp(2, 2), Integer(9));
    assert Late().cells[Body() := Integer(9)] == Lowered().cells;
    assert Late().hlcs[Body() := Stamp(2, 2)] == Lowered().hlcs;
  }

  /** A change of the lagging body pulls the row HLC from 5/1 back to 2/2, although the title is
      still of 5/1. A delete of 4/2, refused before, then takes the row. */
  lemma {:induction false} RowHlcFallsBack()
    ensures Commits(NoteDb(Late()), [ChangeTo(KEY, Body(), Stamp(2, 2), Integer(9))], Calm(), NoteDb(Lowered()))
    ensures Rank(Lowered().rowHlc.value) < Rank(Late().rowHlc.value) == Rank(HlcIn(Lowered().hlcs, Title()))
    ensures !ShouldPropagate(Stamp(4, 2), Late().rowHlc) && ShouldPropagate(Stamp(4, 2), Lowered().rowHlc)
  {
    hide Columns, Notes, Title, Body, Stamp, Rank, KeyText, Commits;
    NameFacts();
    BodyArrives();
    StampOrder(2, 2, 4, 2);
    StampOrder(4, 2, 5, 1);
  }

  /** A note with a NULL key, as a local INSERT of its title leaves it: the trigger finds no row to
      stamp. */
  function Unstamped(value: Value, hlc: Hlc): Db {
    Stored(NULL_KEY, Row(map[Title() := value], map[], Some(hlc)), {Notes()})
  }

  /** The same note once a change of the title was applied. */
  function Overwritten(value: Value, hlc: Hlc): Db {
    Stored(NULL_KEY, Row(map[Title() := value], map[Title() := hlc], Some(hlc)), {Notes()})
  }

  lemma {:induction false} InsertsUnstamped(value: Value, hlc: Hlc)
    ensures Exec(EMPTY, Insert(Notes(), NULL_KEY, map[Title() := value], hlc)) == Unstamped(value, hlc)
    ensures Emits(Unstamped(value, hlc), Notes(), EVERYTHING, ChangeTo(NULL_KEY, Title(), hlc, value))
    ensures AntiEntropy.Shown(Unstamped(value, hlc), Notes(), NULL_KEY, Title()) == Cell(value, hlc)
  {
    hide Columns, Notes, Title, Exec, Emits, KeyText;
    Inserts(Insert(Notes(), NULL_KEY, map[Title() := value], hlc));
    ScansRow(NULL_KEY, Row(map[Title() := value], map[], Some(hlc)), {Notes()}, EVERYTHING,
             ChangeTo(NULL_KEY, Title(), hlc, value));
  }

  lemma {:induction false} OverwritesUnstamped(value: Value, hlc: Hlc, value': Value, hlc': Hlc)
    requires Rank(hlc') > 0
    ensures Commits(Unstamped(value, hlc), [ChangeTo(NULL_KEY, Title(), hlc', value')], Calm(), Overwritten(value', hlc'))
    ensures AntiEntropy.Shown(Overwritten(value', hlc'), Notes(), NULL_KEY, Title()) == Cell(value', hlc')
  {
    hide Rank, Columns, Notes, Title, Commits, KeyText;
    EmptyIsOldest();
    Receives(NULL_KEY, Row(map[Title() := value], map[], Some(hlc)), {Notes()}, Title(), hlc', value');
    assert map[Title() := value][Title() := value'] == map[Title() := value'];
  }

  /** Two devices each write a note with a NULL key, at 3/1 and at 2/2. The triggers stamped
      neither title, so the older one, scanned under its row's HLC, overwrites the newer one. */
  lemma {:induction false} OlderChangeOverwritesUnstamped()
    ensures var mine := Exec(EMPTY, Insert(Notes(), NULL_KEY, map[Title() := Integer(5)], Stamp(3, 1)));
            var theirs := Exec(EMPTY, Insert(Notes(), NULL_KEY, map[Title() := Integer(7)], Stamp(2, 2)));
            var ch := ChangeTo(NULL_KEY, Title(), Stamp(2, 2), Integer(7));
            && Emits(theirs, Notes(), EVERYTHING, ch)
            && Commits(mine, [ch], Calm(), Overwritten(Integer(7), Stamp(2, 2)))
            && AntiEntropy.Shown(mine, Notes(), NULL_KEY, Title()) == Cell(Integer(5), Stamp(3, 1))
            && AntiEntropy.Shown(Overwritten(Integer(7), Stamp(2, 2)), Notes(), NULL_KEY, Title())
               == Cell(Integer(7), Stamp(2, 2))
            && Newer(Stamp(3, 1), Stamp(2, 2))
  {
    hide Unstamped, Overwritten, ChangeTo, Exec, Emits, Commits, Stamp, Rank;
    StampOrder(2, 2, 3, 1);
    StampFacts(2, 2);
    InsertsUnstamped(Integer(5), Stamp(3, 1));
    InsertsUnstamped(Integer(7), Stamp(2, 2));
    OverwritesUnstamped(Integer(5), Stamp(3, 1), Integer(7), Stamp(2, 2));
  }

  // ---------------------------------------------------------------------------------------
  // Anti-entropy: a row that moved between spaces
  // ---------------------------------------------------------------------------------------

  function SpaceColumns(): Schema {
    [ColumnInfo(Id(), true), ColumnInfo(SPACE_ID_COLUMN, false),
     ColumnInfo(HLC_TIMESTAMP_COLUMN, false), ColumnInfo(COLUMN_HLCS_COLUMN, false)]
  }

  lemma {:induction false} SpaceFacts()
    ensures PkNames(SpaceColumns()) == [Id()] && DataColumns(SpaceColumns()) == [SPACE_ID_COLUMN]
    ensures SPACE_ID_COLUMN in ColumnNames(SpaceColumns()) && SPACE_ID_COLUMN != Id() && Notes() != DELETED_ROWS_TABLE
  {
    NameFacts();
    assert |SPACE_ID_COLUMN| == 8 && |Id()| == 2 && SPACE_ID_COLUMN[0] == 's' && HLC_TIMESTAMP_COLUMN[0] == 'h';
    assert |COLUMN_HLCS_COLUMN| > 8;
    assert forall k :: 0 <= k < |EXCLUDED_SYNC_COLUMNS| ==> |EXCLUDED_SYNC_COLUMNS[k]| > 8;
    assert SPACE_ID_COLUMN == SpaceColumns()[1].name;
    var s1, s2, s3 := SpaceColumns()[1..], SpaceColumns()[2..], SpaceColumns()[3..];
    assert s1[1..] == s2 && s2[1..] == s3 && s3[1..] == [];
    assert PkNames(s3) == [] && PkNames(s2) == [] && PkNames(s1) == [];
    assert DataColumns(s3) == [] && DataColumns(s2) == [];
    assert DataColumns(s1) == [SPACE_ID_COLUMN];
  }

  /** A note that is in `space` since `hlc`. */
  function SpaceRow(space: string, hlc: Hlc): Row {
    Row(map[SPACE_ID_COLUMN := Text(space)], map[SPACE_ID_COLUMN := hlc], Some(hlc))
  }

  function SpaceVault(space: string, hlc: Hlc): Db {
    Db(map[Notes() := SpaceColumns()], map[Notes() := map[KEY := SpaceRow(space, hlc)]], {}, {}, [], true)
  }

  lemma {:induction false} SpaceVaultRow(space: string, hlc: Hlc)
    ensures SchemaOf(SpaceVault(space, hlc), Notes()) == SpaceColumns()
    ensures RowAt(SpaceVault(space, hlc), Notes(), KEY) == Some(SpaceRow(space, hlc))
    ensures forall table, pk :: RowExists(SpaceVault(space, hlc), table, pk) ==> table == Notes() && pk == KEY
  {
    hide Notes, SpaceColumns, SpaceRow;
  }

  lemma {:induction false} SpaceRowFacts(space: string, hlc: Hlc)
    ensures var scope := AntiEntropy.Scope({Notes()}, Some("s"));
            && (AntiEntropy.Sent(SpaceVault(space, hlc), scope, Notes(), KEY) <==> space == "s")
            && CellAt(SpaceVault(space, hlc), Notes(), KEY, SPACE_ID_COLUMN) == Cell(Text(space), hlc)
            && AntiEntropy.Shown(SpaceVault(space, hlc), Notes(), KEY, SPACE_ID_COLUMN) == Cell(Text(space), hlc)
  {
    hide Notes, Id, SpaceColumns, SpaceVault;
    SpaceFacts();
    SpaceVaultRow(space, hlc);
  }

  lemma {:induction false} SpaceVaultFacts(space: string, hlc: Hlc)
    requires Rank(hlc) > 0
    ensures AntiEntropy.Scannable(SpaceVault(space, hlc), AntiEntropy.Scope({Notes()}, Some("s")))
    ensures RowExists(SpaceVault(space, hlc), Notes(), KEY)
  {
    hide Rank, Notes, Id, SpaceColumns, SpaceVault, SpaceRow, InSpace, AntiEntropy.Shown;
    SpaceFacts();
    SpaceVaultRow(space, hlc);
    SpaceRowFacts(space, hlc);
  }

  /** A has the note in space "s" since 1/1, B moved it elsewhere at 2/2. Exchanging space "s" in both
      directions leaves the note in "s" at A only. */
  lemma {:induction false} MovedRowDisagrees(forth: seq<Change>, b': Db, back: seq<Change>, a': Db)
    requires var a, scope := SpaceVault("s", Stamp(1, 1)), AntiEntropy.Scope({Notes()}, Some("s"));
             && AntiEntropy.FullScan(a, scope, forth) && Commits(SpaceVault("z", Stamp(2, 2)), forth, Calm(), b')
             && AntiEntropy.FullScan(b', scope, back) && Commits(a, back, Calm(), a')
    ensures !AntiEntropy.Agree(a', b', AntiEntropy.Scope({Notes()}, Some("s")))
  {
    hide Rank, Notes, Id, SpaceColumns, Stamp, Commits, AntiEntropy.FullScan, AntiEntropy.Sent, AntiEntropy.Scannable;
    hide AntiEntropy.Agree, AntiEntropy.Absorbed, SpaceVault, Calm;
    CalmFacts();
    SameSchemas();
    var a, b, scope := SpaceVault("s", Stamp(1, 1)), SpaceVault("z", Stamp(2, 2)), AntiEntropy.Scope({Notes()}, Some("s"));
    StampFacts(1, 1);
    StampFacts(2, 2);
    StampOrder(1, 1, 2, 2);
    SpaceFacts();
    SpaceVaultRow("s", Stamp(1, 1));
    SpaceRowFacts("s", Stamp(1, 1));
    SpaceRowFacts("z", Stamp(2, 2));
    SpaceVaultFacts("s", Stamp(1, 1));
    SpaceVaultFacts("z", Stamp(2, 2));
    assert "s"[0] != "z"[0];
    MovedIsConsistent();
    assert !AntiEntropy.RowMeets(a, b, scope, Notes(), KEY);
    AntiEntropy.AntiEntropyRound(a, b, scope, forth, Calm(), b', back, Calm(), a');
  }

  lemma {:induction false} MovedIsConsistent()
    ensures AntiEntropy.Consistent(SpaceVault("s", Stamp(1, 1)), SpaceVault("z", Stamp(2, 2)),
                                   AntiEntropy.Scope({Notes()}, Some("s")))
  {
    hide Rank, Notes, Id, SpaceColumns, Stamp, SpaceVault, AntiEntropy.Sent;
    SpaceFacts();
    StampOrder(1, 1, 2, 2);
    SpaceVaultRow("s", Stamp(1, 1));
    SpaceVaultRow("z", Stamp(2, 2));
    SpaceRowFacts("s", Stamp(1, 1));
    SpaceRowFacts("z", Stamp(2, 2));
    OnlyNotesSent(SpaceVault("s", Stamp(1, 1)));
  }

  lemma {:induction false} OnlyNotesSent(a: Db)
    requires forall table, pk :: RowExists(a, table, pk) ==> table == Notes() && pk == KEY
    ensures forall table, pk :: AntiEntropy.Sent(a, AntiEntropy.Scope({Notes()}, Some("s")), table, pk)
              ==> table == Notes() && pk == KEY
  {
    hide InSpace, Notes;
  }

  lemma {:induction false} SameSchemas()
    ensures SpaceVault("z", Stamp(2, 2)).schemas == SpaceVault("s", Stamp(1, 1)).schemas
  {
    hide Stamp, Notes, SpaceColumns, SpaceRow;
  }

  // ---------------------------------------------------------------------------------------
  // Ping-pong: runs of device 1
  // ---------------------------------------------------------------------------------------

  ghost const BLANK := Device(EMPTY, iset{}, iset{})

  const OWN := Query(None, None, Some(1))

  lemma {:induction false} BlankIsFair()
    ensures Inv(BLANK, 1) && OwnScans.ShownAreOurs(BLANK.db, BLANK.written, 1)
  {
    hide IsFromNode, Columns, Notes;
    NoNodeWithoutHlc(1);
  }

  /** The device after a local statement. */
  ghost function Wrote(s: Device, op: Op): Device {
    Device(Exec(s.db, op), s.issued + iset{op.hlc}, s.written + iset f: Fact | WroteBy(s.db, op, f))
  }

  ghost function Received(s: Device, db: Db): Device {
    Device(db, s.issued, s.written)
  }

  /** A title from device 2, without the body. */
  function Partial(): Db {
    Stored(KEY, Row(map[Title() := Integer(1)], map[Title() := Stamp(1, 2)], Some(Stamp(1, 2))), {})
  }

  lemma {:induction false} LocalNext(s: Device, op: Op, node: nat)
    ensures Step(s, Local(op), Wrote(s, op), node)
  {
    hide WroteBy, Exec;
  }

  /** A batch of one change that is foreign, or echoes a write. */
  lemma {:induction false} RemoteNext(s: Device, ch: Change, w: World, after: Db, node: nat)
    requires ValidWorld(w) && Commits(s.db, [ch], w, after) && WellNamed(s.db, ch) && RowNamed(s.db, ch).Some?
    requires IsFromNode(ch.hlc, node) ==>
             Fact(ch.table, RowNamed(s.db, ch).value, ch.column, ch.hlc, ch.value) in s.written
    ensures Step(s, Remote([ch], w), Received(s, after), node)
  {
    hide Commits, WellNamed, RowNamed, RowIsThere, IsFromNode, Rank;
  }

  lemma {:induction false} PartialArrives()
    ensures Step(BLANK, Remote([ChangeTo(KEY, Title(), Stamp(1, 2), Integer(1))], Calm()), Received(BLANK, Partial()), 1)
  {
    hide Rank, IsFromNode, Stamp, Columns, Notes, Title, Commits, Mergeable, KeyText, Step, Received;
    StampFacts(1, 2);
    NamesRow(EMPTY, KEY, Title(), Stamp(1, 2), Integer(1));
    ReceivesNew(KEY, Title(), Stamp(1, 2), Integer(1));
    RemoteNext(BLANK, ChangeTo(KEY, Title(), Stamp(1, 2), Integer(1)), Calm(), Partial(), 1);
  }

  lemma {:induction false} PartialRetitled()
    ensures var op := Update(Notes(), KEY, map[Title() := Integer(2)], Stamp(3, 1));
            && Emits(Exec(Partial(), op), Notes(), OWN, ChangeTo(KEY, Body(), Stamp(3, 1), Null))
            && !WroteBy(Partial(), op, Fact(Notes(), KEY, Body(), Stamp(3, 1), Null))
  {
    hide Columns, Notes, Title, Body, Stamp, Exec, Emits, Rank, IsFromNode, KeyText;
    NameFacts();
    StampFacts(3, 1);
    var row := Row(map[Title() := Integer(1)], map[Title() := Stamp(1, 2)], Some(Stamp(1, 2)));
    Updates(KEY, row, {}, Integer(2), Stamp(3, 1));
    ScansRow(KEY, Retitled(KEY, row, Integer(2), Stamp(3, 1)), {} + {Notes()}, OWN,
             ChangeTo(KEY, Body(), Stamp(3, 1), Null));
  }

  /** Device 1 receives a title from device 2 and updates it. Its next scan also pushes the body,
      under the HLC of that update and with NULL, a value no device ever wrote. */
  lemma {:induction false} PartialRowIsVouchedFor() returns (run: seq<Device>, events: seq<Event>)
    ensures |events| == 2 && Run(run, events, 1) && run[0] == BLANK
    ensures Inv(BLANK, 1) && OwnScans.ShownAreOurs(BLANK.db, BLANK.written, 1)
    ensures Emits(run[2].db, Notes(), OWN, ChangeTo(KEY, Body(), Stamp(3, 1), Null))
    ensures Fact(Notes(), KEY, Body(), Stamp(3, 1), Null) !in run[2].written
  {
    hide Columns, Notes, Title, Body, Stamp, Exec, Emits, Step, WroteBy, Partial, Inv, Rank, IsFromNode, ChangeTo;
    hide OwnScans.ShownAreOurs;
    var op := Update(Notes(), KEY, map[Title() := Integer(2)], Stamp(3, 1));
    var mid := Received(BLANK, Partial());
    BlankIsFair();
    PartialArrives();
    LocalNext(mid, op, 1);
    PartialRetitled();
    run := [BLANK, mid, Wrote(mid, op)];
    events := [Remote([ChangeTo(KEY, Title(), Stamp(1, 2), Integer(1))], Calm()), Local(op)];
  }

  // A note that device 1 created and deleted, and whose title then comes back as an echo

  function Created(): Op {
    Insert(Notes(), KEY, map[Title() := Integer(1), Body() := Integer(1)], Stamp(1, 1))
  }

  function Deleted(): Op {
    Delete(Notes(), KEY, "log", Stamp(2, 1))
  }

  lemma {:induction false} CreatesNote()
    ensures Exec(EMPTY, Created()) == NoteDb(NoteOf(1, 1, Stamp(1, 1), Stamp(1, 1), Stamp(1, 1)))
  {
    hide Columns, Notes, Title, Body, Stamp, Exec;
    Inserts(Created());
    assert Stamps({Title(), Body()}, Stamp(1, 1)) == map[Title() := Stamp(1, 1), Body() := Stamp(1, 1)];
  }

  lemma {:induction false} CreatedFacts(column: Name)
    requires column == Title() || column == Body()
    ensures var db := NoteDb(NoteOf(1, 1, Stamp(1, 1), Stamp(1, 1), Stamp(1, 1)));
            && RowExists(db, Notes(), KEY) && CellAt(db, Notes(), KEY, column).value == Integer(1)
            && !RowExists(EMPTY, Notes(), KEY) && SchemaOf(EMPTY, Notes()) == Columns()
  {
    hide Columns, Notes, Title, Body, Stamp;
    NameFacts();
  }

  lemma {:induction false} CreatedWrites(column: Name, value: Value)
    requires column == Title() || column == Body()
    ensures WroteBy(EMPTY, Created(), Fact(Notes(), KEY, column, Stamp(1, 1), value)) <==> value == Integer(1)
    ensures !WroteBy(Exec(EMPTY, Created()), Deleted(), Fact(Notes(), KEY, column, Stamp(1, 1), value))
  {
    hide Columns, Notes, Title, Body, Stamp, Exec, Rank, NoteDb, NoteOf;
    SchemaFacts();
    CreatesNote();
    CreatedFacts(column);
    StampOrder(1, 1, 2, 1);
  }

  /** What device 1 wrote so far: the title and the body of the note, as 1. */
  lemma {:induction false} CreatedIsWritten(column: Name, value: Value)
    requires column == Title() || column == Body()
    ensures var after := Wrote(Wrote(BLANK, Created()), Deleted());
            Fact(Notes(), KEY, column, Stamp(1, 1), value) in after.written <==> value == Integer(1)
  {
    hide Columns, Notes, Title, Body, Stamp, Exec, WroteBy, Created, Deleted;
    CreatedWrites(column, value);
  }

  /** The vault without the note, and with its title only. */
  function Gone(): Db {
    Exec(Exec(EMPTY, Created()), Deleted())
  }

  function Revived(): Db {
    Put(Gone(), Notes(), KEY, Row(map[Title() := Integer(1)], map[Title() := Stamp(1, 1)], Some(Stamp(1, 1))))
  }

  lemma {:induction false} GoneFacts()
    ensures Gone().schemas == EMPTY.schemas && Gone().triggersOn && SchemaOf(Gone(), Notes()) == Columns()
    ensures RowAt(Gone(), Notes(), KEY) == None
  {
    hide Columns, Notes, Title, Body, Stamp, Exec;
    NameFacts();
    CreatesNote();
    var db := NoteDb(NoteOf(1, 1, Stamp(1, 1), Stamp(1, 1), Stamp(1, 1)));
    ExecFrame(EMPTY, Created());
    ExecFrame(db, Deleted());
    ExecRow(db, Deleted(), Notes(), KEY);
  }

  lemma {:induction false} TitleComesBack()
    ensures var gone := Wrote(Wrote(BLANK, Created()), Deleted());
            Step(gone, Remote([ChangeTo(KEY, Title(), Stamp(1, 1), Integer(1))], Calm()), Received(gone, Revived()), 1)
  {
    hide Columns, Notes, Title, Body, Stamp, Exec, Rank, IsFromNode, Commits, KeyText, Mergeable, Step, ApplyRow;
    hide WroteBy, Put;
    var ch := ChangeTo(KEY, Title(), Stamp(1, 1), Integer(1));
    var off := Gone().(triggersOn := false);
    SchemaFacts();
    GoneFacts();
    StampFacts(1, 1);
    EmptyIsOldest();
    NamesRow(off, KEY, Title(), Stamp(1, 1), Integer(1));
    NamesRow(Gone(), KEY, Title(), Stamp(1, 1), Integer(1));
    AppliesOne(off, Calm(), ch, KEY);
    RevivedOff();
    SingleChangeCommits(Gone(), Calm(), ch, Revived().(triggersOn := false));
    CreatedIsWritten(Title(), Integer(1));
    RemoteNext(Wrote(Wrote(BLANK, Created()), Deleted()), ch, Calm(), Revived(), 1);
  }

  lemma {:induction false} RevivedOff()
    ensures Put(Gone().(triggersOn := false), Notes(), KEY,
                Row(map[][Title() := Integer(1)], map[][Title() := Stamp(1, 1)], Some(Stamp(1, 1))))
            == Revived().(triggersOn := false)
    ensures Revived().triggersOn
  {
    hide Columns, Notes, Title, Stamp, Exec;
    GoneFacts();
    assert map[][Title() := Integer(1)] == map[Title() := Integer(1)];
    assert map[][Title() := Stamp(1, 1)] == map[Title() := Stamp(1, 1)];
  }

  /** An own scan of a note, wherever it is stored. */
  lemma {:induction false} OwnScanShows(db: Db, row: Row, column: Name)
    requires SchemaOf(db, Notes()) == Columns() && RowAt(db, Notes(), KEY) == Some(row) && column in [Title(), Body()]
    requires EffectiveHlc(row, column).Some? && IsFromNode(EffectiveHlc(row, column).value, 1)
    ensures Emits(db, Notes(), OWN, ChangeTo(KEY, column, EffectiveHlc(row, column).value, ValueIn(row.cells, column)))
  {
    hide Columns, Notes, Title, Body, Rank, IsFromNode, KeyText;
    SchemaFacts();
    var ch := ChangeTo(KEY, column, EffectiveHlc(row, column).value, ValueIn(row.cells, column));
    assert EmitsFrom(Columns(), Notes(), KEY, row, OWN, ch);
  }

  lemma {:induction false} RevivedShowsBody()
    ensures Emits(Revived(), Notes(), OWN, ChangeTo(KEY, Body(), Stamp(1, 1), Null))
  {
    hide Columns, Notes, Title, Body, Stamp, Exec, Emits, ChangeTo, Rank, IsFromNode, Gone;
    NameFacts();
    GoneFacts();
    StampFacts(1, 1);
    OwnScanShows(Revived(), Row(map[Title() := Integer(1)], map[Title() := Stamp(1, 1)], Some(Stamp(1, 1))), Body());
  }

  /** Device 1 creates a note and deletes it, and a faithful echo of its title alone arrives. Without
      any local update its next scan pushes the body with NULL under the HLC of the first write,
      under which it had written another value. */
  lemma {:induction false} EchoRevivesPartOfRow() returns (run: seq<Device>, events: seq<Event>)
    ensures |events| == 3 && Run(run, events, 1) && run[0] == BLANK
    ensures forall e :: e in events && e.Local? ==> !e.op.Update?
    ensures Inv(BLANK, 1) && OwnScans.ShownAreOurs(BLANK.db, BLANK.written, 1)
    ensures Emits(run[3].db, Notes(), OWN, ChangeTo(KEY, Body(), Stamp(1, 1), Null))
    ensures Fact(Notes(), KEY, Body(), Stamp(1, 1), Null) !in run[3].written
  {
    hide Columns, Notes, Title, Body, Stamp, Exec, Emits, Step, WroteBy, Inv, Rank, IsFromNode, ChangeTo, Revived;
    hide OwnScans.ShownAreOurs, Wrote;
    var one := Wrote(BLANK, Created());
    var two := Wrote(one, Deleted());
    BlankIsFair();
    LocalNext(BLANK, Created(), 1);
    LocalNext(one, Deleted(), 1);
    TitleComesBack();
    RevivedShowsBody();
    CreatedIsWritten(Body(), Null);
    run := [BLANK, one, two, Received(two, Revived())];
    events := [Local(Created()), Local(Deleted()), Remote([ChangeTo(KEY, Title(), Stamp(1, 1), Integer(1))], Calm())];
  }

  function FirstTitle(): Op {
    Insert(Notes(), NULL_KEY, map[Title() := Integer(1)], Stamp(1, 1))
  }

  function SecondTitle(): Op {
    Update(Notes(), NULL_KEY, map[Title() := Integer(2)], Stamp(3, 1))
  }

  /** Device 1's own note with a NULL key, after its title came back as an echo. */
  ghost function Echoed(): Device {
    Received(Wrote(BLANK, FirstTitle()), Overwritten(Integer(1), Stamp(1, 1)))
  }

  lemma {:induction false} UnstampedFacts(value: Value, hlc: Hlc)
    ensures SchemaOf(Unstamped(value, hlc), Notes()) == Columns()
    ensures RowExists(Unstamped(value, hlc), Notes(), NULL_KEY) && !RowExists(EMPTY, Notes(), NULL_KEY)
    ensures CellAt(Unstamped(value, hlc), Notes(), NULL_KEY, Title()).value == value
    ensures SchemaOf(EMPTY, Notes()) == Columns()
  {
    hide Columns, Notes, Title;
  }

  lemma {:induction false} FirstTitleIsWritten(value: Value)
    ensures Fact(Notes(), NULL_KEY, Title(), Stamp(1, 1), value) in Wrote(BLANK, FirstTitle()).written
            <==> value == Integer(1)
    ensures Wrote(BLANK, FirstTitle()).db == Unstamped(Integer(1), Stamp(1, 1))
  {
    hide Columns, Notes, Title, Body, Stamp, Exec, Emits, Unstamped, ChangeTo;
    SchemaFacts();
    InsertsUnstamped(Integer(1), Stamp(1, 1));
    UnstampedFacts(Integer(1), Stamp(1, 1));
  }

  lemma {:induction false} EchoArrives()
    ensures Step(Wrote(BLANK, FirstTitle()), Remote([ChangeTo(NULL_KEY, Title(), Stamp(1, 1), Integer(1))], Calm()),
                 Echoed(), 1)
  {
    hide Rank, Columns, Notes, Title, Stamp, Commits, Mergeable, Step, Wrote, Received, Unstamped, WellNamed;
    hide Overwritten, IsFromNode, RowNamed, KeyText, FirstTitle;
    FirstTitleIsWritten(Integer(1));
    StampFacts(1, 1);
    UnstampedFacts(Integer(1), Stamp(1, 1));
    OverwritesUnstamped(Integer(1), Stamp(1, 1), Integer(1), Stamp(1, 1));
    NamesRow(Unstamped(Integer(1), Stamp(1, 1)), NULL_KEY, Title(), Stamp(1, 1), Integer(1));
    RemoteNext(Wrote(BLANK, FirstTitle()), ChangeTo(NULL_KEY, Title(), Stamp(1, 1), Integer(1)), Calm(),
               Overwritten(Integer(1), Stamp(1, 1)), 1);
  }

  lemma {:induction false} SecondTitleIsStale()
    ensures Emits(Exec(Overwritten(Integer(1), Stamp(1, 1)), SecondTitle()), Notes(), OWN,
                  ChangeTo(NULL_KEY, Title(), Stamp(1, 1), Integer(2)))
  {
    hide Columns, Notes, Title, Stamp, Exec, Emits, Rank, IsFromNode, KeyText;
    var row := Row(map[Title() := Integer(1)], map[Title() := Stamp(1, 1)], Some(Stamp(1, 1)));
    var ch := ChangeTo(NULL_KEY, Title(), Stamp(1, 1), Integer(2));
    StampFacts(1, 1);
    Updates(NULL_KEY, row, {Notes()}, Integer(2), Stamp(3, 1));
    assert {Notes()} + {Notes()} == {Notes()};
    ScansRow(NULL_KEY, Retitled(NULL_KEY, row, Integer(2), Stamp(3, 1)), {Notes()}, OWN, ch);
  }

  lemma {:induction false} SecondTitleIsNotFirst(db: Db)
    ensures !WroteBy(db, SecondTitle(), Fact(Notes(), NULL_KEY, Title(), Stamp(1, 1), Integer(2)))
  {
    hide Rank, Stamp, Exec;
    StampOrder(1, 1, 3, 1);
  }

  /** Device 1 writes a note with a NULL key at 1/1, its own write comes back as a faithful echo
      and stamps the title, and a local update at 3/1 cannot renew that stamp. Its next scan pushes
      the second title under the HLC of the first, which device 1 never wrote. */
  lemma {:induction false} NullKeyEchoGoesStale() returns (run: seq<Device>, events: seq<Event>)
    ensures |events| == 3 && Run(run, events, 1) && run[0] == BLANK
    ensures Inv(BLANK, 1) && OwnScans.ShownAreOurs(BLANK.db, BLANK.written, 1)
    ensures Emits(run[3].db, Notes(), OWN, ChangeTo(NULL_KEY, Title(), Stamp(1, 1), Integer(2)))
    ensures Fact(Notes(), NULL_KEY, Title(), Stamp(1, 1), Integer(2)) !in run[3].written
  {
    hide Columns, Notes, Title, Stamp, Exec, Emits, Step, WroteBy, Inv, Rank, IsFromNode, ChangeTo;
    hide Overwritten, FirstTitle, OwnScans.ShownAreOurs;
    var first, mid := Wrote(BLANK, FirstTitle()), Echoed();
    BlankIsFair();
    EchoArrives();
    FirstTitleIsWritten(Integer(2));
    SecondTitleIsStale();
    LocalNext(BLANK, FirstTitle(), 1);
    LocalNext(mid, SecondTitle(), 1);
    SecondTitleIsNotFirst(mid.db);
    run := [BLANK, first, mid, Wrote(mid, SecondTitle())];
    events := [Local(FirstTitle()), Remote([ChangeTo(NULL_KEY, Title(), Stamp(1, 1), Integer(1))], Calm()),
               Local(SecondTitle())];
  }

  // ---------------------------------------------------------------------------------------
  // Pushing: a run of device 1
  // ---------------------------------------------------------------------------------------

  /** On one-digit timestamps text order is numeric order. */
  lemma {:induction false} StampText(time: nat, node: nat, time': nat, node': nat)
    requires 0 < time < time' < 10 && node < 10 && node' < 10
    ensures Lex(Stamp(time, node), Stamp(time', node')) == Less
  {
    hide Rank, Lex;
    var t, u := Timestamp(time, node), Timestamp(time', node');
    assert |Digits(time, 10)| == 1 == |Digits(node, 16)| && |Digits(time', 10)| == 1 == |Digits(node', 16)|;
    assert FixedWidth(Print(t), 1, 1) && FixedWidth(Print(u), 1, 1);
    LexIsCompare(Print(t), Print(u), 1, 1);
    OrderIsomorphism(t, u);
  }

  function Retitle(title: int, hlc: Hlc): Op {
    Update(Notes(), KEY, map[Title() := Integer(title)], hlc)
  }

  lemma {:induction false} RetitledNote(title: int, body: int, titleHlc: Hlc, bodyHlc: Hlc, rowHlc: Hlc,
                                        title': int, hlc: Hlc)
    ensures Retitled(KEY, NoteOf(title, body, titleHlc, bodyHlc, rowHlc), Integer(title'), hlc)
            == NoteOf(title', body, hlc, bodyHlc, hlc)
    ensures ValueIn(NoteOf(title, body, titleHlc, bodyHlc, rowHlc).cells, Title()) == Integer(title)
  {
    hide Title, Body;
    NameFacts();
    var row, row' := NoteOf(title, body, titleHlc, bodyHlc, rowHlc), NoteOf(title', body, hlc, bodyHlc, hlc);
    assert row.cells[Title() := Integer(title')] == row'.cells;
    assert row.hlcs[Title() := hlc] == row'.hlcs;
  }

  lemma {:induction false} RetitlesNote(title: int, body: int, titleHlc: Hlc, bodyHlc: Hlc, rowHlc: Hlc,
                                        title': int, hlc: Hlc)
    requires title != title'
    ensures Exec(NoteDb(NoteOf(title, body, titleHlc, bodyHlc, rowHlc)), Retitle(title', hlc))
            == NoteDb(NoteOf(title', body, hlc, bodyHlc, hlc))
  {
    hide Columns, Notes, Title, Body, Exec, NoteOf, Retitled, Stored;
    RetitledNote(title, body, titleHlc, bodyHlc, rowHlc, title', hlc);
    Updates(KEY, NoteOf(title, body, titleHlc, bodyHlc, rowHlc), {Notes()}, Integer(title'), hlc);
    assert {Notes()} + {Notes()} == {Notes()};
  }

  /** What an own scan emits of the one note. */
  lemma {:induction false} OwnScan(s: Pusher, row: Row, ch: Change)
    requires s.db == NoteDb(row)
    ensures OwnEmits(s, 1, ch) <==>
            var q := Query(s.cursor, None, Some(1));
            && Prefilter(q, row) && ch.column in [Title(), Body()] && ColumnEmits(q, row, ch.column)
            && ch == ChangeTo(KEY, ch.column, EffectiveHlc(row, ch.column).value, ValueIn(row.cells, ch.column))
  {
    hide Columns, Notes, Title, Body, Prefilter, ColumnEmits, KeyText;
    if ch.table == Notes() {
      ScansRow(KEY, row, {Notes()}, Query(s.cursor, None, Some(1)), ch);
      hide Emits;
    } else {
      assert forall pk :: !RowExists(s.db, ch.table, pk);
    }
  }

  /** The note at the first scan, and the states from then on. */
  function Early(): Row { NoteOf(2, 1, Stamp(3, 1), Stamp(1, 1), Stamp(3, 1)) }

  function FirstPush(): set<Change> {
    {ChangeTo(KEY, Title(), Stamp(3, 1), Integer(2)), ChangeTo(KEY, Body(), Stamp(1, 1), Integer(1))}
  }

  function At(row: Row): Pusher {
    Pusher(NoteDb(row), Some(Stamp(3, 1)), FirstPush())
  }

  lemma {:induction false} FirstScan()
    ensures ScanStep(Pusher(NoteDb(Early()), None, {}), At(Early()), 1)
  {
    hide Columns, Notes, Title, Body, Stamp, Rank, IsFromNode, KeyText, OwnEmits, NoteDb;
    NameFacts();
    StampOrder(1, 1, 3, 1);
    StampFacts(1, 1);
    StampFacts(3, 1);
    var s := Pusher(NoteDb(Early()), None, {});
    forall ch ensures OwnEmits(s, 1, ch) <==> ch in FirstPush() {
      OwnScan(s, Early(), ch);
    }
    assert OwnEmits(s, 1, ChangeTo(KEY, Title(), Stamp(3, 1), Integer(2)));
  }

  lemma {:induction false} Lowers()
    ensures ReceiveStep(At(Late()), [ChangeTo(KEY, Body(), Stamp(2, 2), Integer(9))], Calm(), At(Lowered()), 1)
  {
    hide Columns, Notes, Title, Body, Stamp, Rank, IsFromNode, KeyText, Commits, Mergeable, FirstPush, WellNamed;
    hide RowIsThere, RowNamed;
    StampFacts(2, 2);
    BodyArrives();
    NamesRow(NoteDb(Late()), KEY, Body(), Stamp(2, 2), Integer(9));
  }

  lemma {:induction false} LastScanSkipsNote()
    ensures ScanStep(At(Lowered()), At(Lowered()), 1)
  {
    hide Columns, Notes, Title, Body, Stamp, Rank, Lex, IsFromNode, KeyText, OwnEmits, NoteDb, FirstPush;
    StampText(2, 2, 3, 1);
    forall ch ensures !OwnEmits(At(Lowered()), 1, ch) {
      OwnScan(At(Lowered()), Lowered(), ch);
    }
  }

  lemma {:induction false} LateTitleIsUnpushed()
    ensures !OwnPushed(At(Lowered()), 1)
  {
    hide Columns, Notes, Title, Body, Stamp, Rank, IsFromNode, KeyText;
    SchemaFacts();
    StampFacts(5, 1);
    StampOrder(3, 1, 5, 1);
    var s := At(Lowered());
    assert CellAt(s.db, Notes(), KEY, Title()) == Cell(Integer(3), Stamp(5, 1));
    assert CellPush(s.db, Notes(), KEY, Title(), Cell(Integer(3), Stamp(5, 1))) !in FirstPush();
    assert !CellIsOurs(CellAt(s.db, Notes(), KEY, Title()), Notes(), KEY, Title(), Pushed(s), 1);
  }

  lemma {:induction false} NoteKeysFit(row: Row)
    ensures AllKeysFit(NoteDb(row)) && AllKeysFit(EMPTY)
  {
    hide Columns, Notes;
    SchemaFacts();
  }

  /** A statement on the note never makes a stamp stale: its key is full. */
  lemma {:induction false} NoteWrite(s: Pusher, op: Op, s': Pusher)
    requires op.pk == KEY && s' == s.(db := Exec(s.db, op)) && BeyondCursor(s.cursor, op.hlc)
    ensures WriteStep(s, op, s', 1) && MixedStep(s, s', 1)
  {
    hide Exec, IsFromNode, Safe, BeyondCursor;
  }

  lemma {:induction false} StartIsFair()
    ensures NoneLost(Pusher(EMPTY, None, {}), 1)
  {
    hide Columns, Notes;
    EmptyPusherStarts(EMPTY, 1);
  }

  /** Device 1 creates a note, changes its title and pushes, changes the title again at 5/1, and
      then receives a change of the lagging body at 2/2, which pulls the row HLC below the cursor
      3/1. The next scan skips the row: the title of 5/1 is not pushed. */
  lemma {:induction false} LoweredRowIsSkipped() returns (run: seq<Pusher>)
    ensures |run| == 7 && run[0] == Pusher(EMPTY, None, {}) && MixedRun(run, 1)
    ensures ScanStep(run[5], run[6], 1) && !OwnPushed(run[6], 1)
  {
    hide Columns, Notes, Title, Body, Stamp, Rank, Exec, NoteDb, FirstPush, NoteOf, ScanStep, ReceiveStep;
    hide OwnPushed, NoneLost, AllKeysFit, WriteStep;
    StartIsFair();
    CreatesNote();
    RetitlesNote(1, 1, Stamp(1, 1), Stamp(1, 1), Stamp(1, 1), 2, Stamp(3, 1));
    RetitlesNote(2, 1, Stamp(3, 1), Stamp(1, 1), Stamp(3, 1), 3, Stamp(5, 1));
    StampOrder(3, 1, 5, 1);
    FirstScan();
    Lowers();
    LastScanSkipsNote();
    LateTitleIsUnpushed();
    forall row ensures AllKeysFit(NoteDb(row)) && AllKeysFit(EMPTY) {
      NoteKeysFit(row);
    }
    var start := Pusher(EMPTY, None, {});
    var one := Pusher(NoteDb(NoteOf(1, 1, Stamp(1, 1), Stamp(1, 1), Stamp(1, 1))), None, {});
    var two := Pusher(NoteDb(Early()), None, {});
    NoteWrite(start, Created(), one);
    NoteWrite(one, Retitle(2, Stamp(3, 1)), two);
    NoteWrite(At(Early()), Retitle(3, Stamp(5, 1)), At(Late()));
    run := [start, one, two, At(Early()), At(Late()), At(Lowered()), At(Lowered())];
  }
}
