/**
  Pushing with a cursor while remote batches come in: a scan filtered to this node loses none of
  its writes exactly when the rows that hold an unpushed one get past the SQL prefilter.
 */
module MixedRuns {
  import opened Wrappers
  import opened HlcText
  import opened Store
  import Triggers
  import opened Grouping
  import opened Apply
  import opened Scanner
  import opened LocalRuns
  import opened PingPong

  /** The database, the push cursor, and everything pushed so far. */
  datatype Pusher = Pusher(db: Db, cursor: Option<Hlc>, pushed: set<Change>)

  /** The change that pushes a cell. */
  function CellPush(db: Db, table: Name, pk: Pk, c: Name, cell: Cell): Change {
    Change(table, KeyText(SchemaOf(db, table), pk), c, cell.hlc, cell.value)
  }

  /** Cell contents that have been pushed, and those that are no loss: pushed, or still ahead of the
      cursor. */
  ghost function Pushed(s: Pusher): iset<Fact> {
    iset f: Fact | CellPush(s.db, f.table, f.pk, f.column, Cell(f.value, f.hlc)) in s.pushed
  }

  ghost function Safe(s: Pusher): iset<Fact> {
    iset f: Fact | BeyondCursor(s.cursor, f.hlc) || f in Pushed(s)
  }

  /** A statement of a transaction begun after the last scan, which does not make a stamp stale. */
  ghost predicate WriteStep(s: Pusher, op: Op, s': Pusher, node: nat) {
    s' == s.(db := Exec(s.db, op)) && BeyondCursor(s.cursor, op.hlc) && !Stales(s.db, Safe(s), op, node)
  }

  /** A batch of foreign changes and of echoes of what was pushed. */
  ghost predicate ReceiveStep(s: Pusher, cs: seq<Change>, w: World, s': Pusher, node: nat)
    requires ValidWorld(w)
  {
    && Commits(s.db, cs, w, s'.db) && s'.cursor == s.cursor && s'.pushed == s.pushed
    && Faithful(s.db, cs, Pushed(s), node)
  }

  ghost predicate OwnEmits(s: Pusher, node: nat, ch: Change) {
    Emits(s.db, ch.table, Query(s.cursor, None, Some(node)), ch)
  }

  /** A scan filtered to this node pushes what it emits and moves the cursor to the newest of
      it. */
  ghost predicate ScanStep(s: Pusher, s': Pusher, node: nat) {
    && s'.db == s.db
    && (forall ch :: ch in s'.pushed <==> ch in s.pushed || OwnEmits(s, node, ch))
    && (s'.cursor == s.cursor || exists ch :: OwnEmits(s, node, ch) && s'.cursor == Some(ch.hlc))
    && (forall ch :: OwnEmits(s, node, ch) ==> s'.cursor.Some? && Rank(ch.hlc) <= Rank(s'.cursor.value))
  }

  ghost predicate MixedStep(s: Pusher, s': Pusher, node: nat) {
    || (exists op :: WriteStep(s, op, s', node))
    || (exists cs, w :: ValidWorld(w) && ReceiveStep(s, cs, w, s', node))
    || ScanStep(s, s', node)
  }

  // ---------------------------------------------------------------------------------------
  // The invariant
  // ---------------------------------------------------------------------------------------

  ghost predicate NoneLost(s: Pusher, node: nat) {
    s.db.triggersOn && CellsAreOurs(s.db, Safe(s), node)
  }

  /** Every column that carries an HLC of this node has been pushed with the value it holds. */
  ghost predicate OwnPushed(s: Pusher, node: nat) {
    CellsAreOurs(s.db, Pushed(s), node)
  }

  lemma {:induction false} MoreFacts(db: Db, cs: seq<Change>, few: iset<Fact>, many: iset<Fact>, node: nat)
    requires Faithful(db, cs, few, node) && forall f :: f in few ==> f in many
    ensures Faithful(db, cs, many, node)
  {
    hide IsFromNode, Rank, RowNamed;
  }

  lemma {:induction false} WriteLosesNone(s: Pusher, op: Op, s': Pusher, node: nat)
    requires NoneLost(s, node) && WriteStep(s, op, s', node)
    ensures NoneLost(s', node)
  {
    hide Rank, Exec, IsFromNode;
    ExecFrame(s.db, op);
    NoNodeWithoutHlc(node);
    assert Safe(s') == Safe(s);
    forall table, pk, c | c in DataColumns(SchemaOf(s'.db, table))
      ensures CellIsOurs(CellAt(s'.db, table, pk, c), table, pk, c, Safe(s'), node)
    {
      StatementCell(s.db, op, table, pk, c);
      assert CellIsOurs(CellAt(s.db, table, pk, c), table, pk, c, Safe(s), node);
      assert op.Update? && op.table == table && op.pk == pk && RowExists(s.db, table, pk) && Triggers.KeyHasNull(pk)
             ==> !StalesColumn(s.db, Safe(s), op, node, c);
    }
  }

  lemma {:induction false} ReceiveLosesNone(s: Pusher, cs: seq<Change>, w: World, s': Pusher, node: nat)
    requires ValidWorld(w) && NoneLost(s, node) && ReceiveStep(s, cs, w, s', node)
    ensures NoneLost(s', node)
  {
    hide Rank, Commits, IsFromNode, CellsAreOurs, Faithful;
    MoreFacts(s.db, cs, Pushed(s), Safe(s), node);
    RemoteCells(s.db, cs, w, s'.db, Safe(s), node);
    assert Safe(s') == Safe(s);
  }

  lemma {:induction false} PushedIsSafe(s: Pusher, node: nat)
    requires s.db.triggersOn && OwnPushed(s, node)
    ensures NoneLost(s, node)
  {
    hide IsFromNode;
    forall table, pk, c | c in DataColumns(SchemaOf(s.db, table))
      ensures CellIsOurs(CellAt(s.db, table, pk, c), table, pk, c, Safe(s), node)
    {
      assert CellIsOurs(CellAt(s.db, table, pk, c), table, pk, c, Pushed(s), node);
    }
  }

  // ---------------------------------------------------------------------------------------
  // When a scan loses nothing
  // ---------------------------------------------------------------------------------------

  /** The column carries an HLC of ours ahead of the cursor and has not been pushed. */
  ghost predicate Waiting(s: Pusher, node: nat, table: Name, pk: Pk, c: Name) {
    var cell := CellAt(s.db, table, pk, c);
    c in DataColumns(SchemaOf(s.db, table)) && IsFromNode(cell.hlc, node) && BeyondCursor(s.cursor, cell.hlc)
    && CellPush(s.db, table, pk, c, cell) !in s.pushed
  }

  /** Every row with a waiting column gets past the prefilter (`Scanner.PrefilterPasses`). */
  ghost predicate Visible(s: Pusher, node: nat) {
    forall table, pk, c :: Waiting(s, node, table, pk, c) ==>
      RowExists(s.db, table, pk) && Prefilter(Query(s.cursor, None, Some(node)), TableOf(s.db, table)[pk])
  }

  ghost predicate AllKeysFit(db: Db) {
    forall table :: KeysFit(db, table)
  }

  /** A column with an HLC of ours ahead of the cursor is emitted exactly if its row gets past the
      prefilter. */
  lemma {:induction false} EmitsIfVisible(s: Pusher, node: nat, table: Name, pk: Pk, c: Name)
    requires AllKeysFit(s.db) && c in DataColumns(SchemaOf(s.db, table))
    requires IsFromNode(CellAt(s.db, table, pk, c).hlc, node) && BeyondCursor(s.cursor, CellAt(s.db, table, pk, c).hlc)
    ensures RowExists(s.db, table, pk)
    ensures OwnEmits(s, node, CellPush(s.db, table, pk, c, CellAt(s.db, table, pk, c)))
            <==> Prefilter(Query(s.cursor, None, Some(node)), TableOf(s.db, table)[pk])
  {
    hide Rank, Lex, IsFromNode, KeysFit;
    NoNodeWithoutHlc(node);
    var schema, row := SchemaOf(s.db, table), TableOf(s.db, table)[pk];
    var q, ch := Query(s.cursor, None, Some(node)), CellPush(s.db, table, pk, c, CellAt(s.db, table, pk, c));
    assert Prefilter(q, row) ==> EmitsFrom(schema, table, pk, row, q, ch);
    if OwnEmits(s, node, ch) {
      var p :| RowExists(s.db, table, p) && EmitsFrom(schema, table, p, TableOf(s.db, table)[p], q, ch);
      KeyTextIsInjective(s.db, table, p, pk);
    }
  }

  /** Right after a scan every column of ours has been pushed, exactly when the rows with a waiting
      one got past the prefilter. */
  lemma {:induction false} ScanPushesOwn(s: Pusher, s': Pusher, node: nat)
    requires AllKeysFit(s.db) && NoneLost(s, node) && ScanStep(s, s', node)
    ensures OwnPushed(s', node) <==> Visible(s, node)
  {
    hide Rank, IsFromNode, OwnEmits, Prefilter, KeysFit;
    forall table, pk, c | Waiting(s, node, table, pk, c) ensures RowExists(s.db, table, pk) {
      EmitsIfVisible(s, node, table, pk, c);
    }
    if Visible(s, node) {
      forall table, pk, c | c in DataColumns(SchemaOf(s'.db, table))
        ensures CellIsOurs(CellAt(s'.db, table, pk, c), table, pk, c, Pushed(s'), node)
      {
        assert CellIsOurs(CellAt(s.db, table, pk, c), table, pk, c, Safe(s), node);
        if Waiting(s, node, table, pk, c) {
          EmitsIfVisible(s, node, table, pk, c);
        }
      }
    }
    if OwnPushed(s', node) {
      forall table, pk, c | Waiting(s, node, table, pk, c)
        ensures Prefilter(Query(s.cursor, None, Some(node)), TableOf(s.db, table)[pk])
      {
        EmitsIfVisible(s, node, table, pk, c);
        assert CellIsOurs(CellAt(s'.db, table, pk, c), table, pk, c, Pushed(s'), node);
      }
    }
  }

  // ---------------------------------------------------------------------------------------
  // Runs
  // ---------------------------------------------------------------------------------------

  ghost predicate MixedRun(run: seq<Pusher>, node: nat) {
    && run != [] && NoneLost(run[0], node)
    && (forall i :: 0 <= i < |run| ==> AllKeysFit(run[i].db))
    && (forall i :: 0 <= i < |run| - 1 ==> MixedStep(run[i], run[i + 1], node))
  }

  lemma {:induction false} MixedStepLosesNone(s: Pusher, s': Pusher, node: nat)
    requires AllKeysFit(s.db) && NoneLost(s, node) && MixedStep(s, s', node)
    requires ScanStep(s, s', node) ==> Visible(s, node) || OwnPushed(s', node)
    ensures NoneLost(s', node)
  {
    hide AllKeysFit, CellsAreOurs, ReceiveStep, WriteStep, Visible;
    if ScanStep(s, s', node) {
      ScanPushesOwn(s, s', node);
      PushedIsSafe(s', node);
    } else if exists op :: WriteStep(s, op, s', node) {
      var op :| WriteStep(s, op, s', node);
      WriteLosesNone(s, op, s', node);
    } else {
      var cs, w :| ValidWorld(w) && ReceiveStep(s, cs, w, s', node);
      ReceiveLosesNone(s, cs, w, s', node);
    }
  }

  lemma {:induction false} MixedRunLosesNone(run: seq<Pusher>, node: nat, n: nat)
    requires MixedRun(run, node) && n < |run|
    requires forall i :: 0 <= i < n && ScanStep(run[i], run[i + 1], node)
               ==> Visible(run[i], node) || OwnPushed(run[i + 1], node)
    ensures NoneLost(run[n], node)
  {
    hide NoneLost, AllKeysFit, MixedStep, ScanStep, Visible, OwnPushed;
    if n > 0 {
      MixedRunLosesNone(run, node, n - 1);
      var i := n - 1;
      assert MixedStep(run[i], run[i + 1], node);
      MixedStepLosesNone(run[i], run[i + 1], node);
    }
  }

  /** In every run that mixes local statements, remote batches and cursor scans of this node's own
      changes, no write of this node is lost, that is, right after each scan every column carrying
      an HLC of this node has been pushed, exactly when at each scan the rows with a waiting column
      get past the prefilter. */
  lemma {:induction false} MixedRunLosesNothing(run: seq<Pusher>, node: nat)
    requires MixedRun(run, node)
    ensures (forall i :: 0 <= i < |run| - 1 && ScanStep(run[i], run[i + 1], node) ==> OwnPushed(run[i + 1], node))
            <==> (forall i :: 0 <= i < |run| - 1 && ScanStep(run[i], run[i + 1], node) ==> Visible(run[i], node))
  {
    hide NoneLost, AllKeysFit, MixedStep, ScanStep, Visible, OwnPushed;
    if (forall i :: 0 <= i < |run| - 1 && ScanStep(run[i], run[i + 1], node) ==> OwnPushed(run[i + 1], node))
       || (forall i :: 0 <= i < |run| - 1 && ScanStep(run[i], run[i + 1], node) ==> Visible(run[i], node)) {
      forall i | 0 <= i < |run| - 1 && ScanStep(run[i], run[i + 1], node)
        ensures OwnPushed(run[i + 1], node) <==> Visible(run[i], node)
      {
        MixedRunLosesNone(run, node, i);
        ScanPushesOwn(run[i], run[i + 1], node);
      }
    }
  }

  /** A row whose HLC dominates its columns and compares with the cursor as text as it does as a
      number. */
  ghost predicate RowOrderly(s: Pusher, table: Name, row: Row) {
    && Dominated(SchemaOf(s.db, table), row)
    && (s.cursor.Some? ==> exists t, u :: PrintedInOrder(row.rowHlc, s.cursor, t, u))
  }

  ghost predicate PrintedInOrder(rowHlc: Option<Hlc>, cursor: Option<Hlc>, t: Timestamp, u: Timestamp) {
    t.Valid() && u.Valid() && rowHlc == Some(Print(t)) && cursor == Some(Print(u)) && TextOrderAgrees(t, u)
  }

  /** It is enough that the rows with a waiting column are orderly; other rows do not matter. */
  lemma {:induction false} OrderlyIsVisible(s: Pusher, node: nat)
    requires forall table, pk, c :: Waiting(s, node, table, pk, c) && RowExists(s.db, table, pk)
               ==> RowOrderly(s, table, TableOf(s.db, table)[pk])
    ensures Visible(s, node)
  {
    hide Rank, Lex, IsFromNode, TextOrderAgrees;
    NoNodeWithoutHlc(node);
    forall table, pk, c | Waiting(s, node, table, pk, c)
      ensures RowExists(s.db, table, pk) && Prefilter(Query(s.cursor, None, Some(node)), TableOf(s.db, table)[pk])
    {
      var row := TableOf(s.db, table)[pk];
      if s.cursor.Some? {
        var t, u :| PrintedInOrder(row.rowHlc, s.cursor, t, u);
        OrderIsomorphism(t, u);
        CompareIsRank(Print(t), Print(u));
        PrefilterPasses(row, Query(s.cursor, None, Some(node)), t, u);
      }
    }
  }

  /** A vault without rows is a fair start. */
  lemma {:induction false} EmptyPusherStarts(db: Db, node: nat)
    requires NoRows(db) && db.triggersOn
    ensures NoneLost(Pusher(db, None, {}), node)
  {
    NoNodeWithoutHlc(node);
  }
}
