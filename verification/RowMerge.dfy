/**
  Merging the changes of one row (`src-tauri/src/crdt/commands.rs:729-881`): the column loop,
  what the UPDATE and INSERT built from it store, and the last-writer-wins law they follow.
 */
module RowMerge {
  import opened Wrappers
  import opened HlcText
  import opened Store
  import opened Grouping

  // ---------------------------------------------------------------------------------------
  // The column loop
  // ---------------------------------------------------------------------------------------

  /** The loop's variables: the HLC map, `columns_to_update`, `max_hlc_for_row` and the
      pending columns noted so far. */
  datatype Merge = Merge(hlcs: map<Name, Hlc>, accepted: seq<Change>, maxHlc: Hlc, pending: set<(Name, Name)>)

  function MergeOne(known: set<Name>, m: Merge, ch: Change): Merge {
    if ch.column !in known then
      m.(hlcs := m.hlcs[ch.column := ch.hlc], pending := m.pending + {(ch.table, ch.column)})
    else if Newer(ch.hlc, HlcIn(m.hlcs, ch.column)) then
      m.(hlcs := m.hlcs[ch.column := ch.hlc],
         accepted := m.accepted + [ch],
         maxHlc := if Newer(ch.hlc, m.maxHlc) then ch.hlc else m.maxHlc)
    else m
  }

  function MergeAll(known: set<Name>, m: Merge, cs: seq<Change>): Merge {
    if cs == [] then m else MergeOne(known, MergeAll(known, m, cs[..|cs| - 1]), cs[|cs| - 1])
  }

  function StartMerge(row: Option<Row>, first: Change): Merge {
    Merge(if row.Some? then row.value.hlcs else map[], [], first.hlc, {})
  }

  /** UPDATE: of several assignments to a column SQLite keeps the rightmost. */
  function AssignLast(cells: map<Name, Value>, accepted: seq<Change>): map<Name, Value> {
    if accepted == [] then cells
    else
      var n := |accepted| - 1;
      AssignLast(cells, accepted[..n])[accepted[n].column := accepted[n].value]
  }

  /** INSERT: of several values for a column SQLite keeps the leftmost. */
  function AssignFirst(accepted: seq<Change>): map<Name, Value> {
    if accepted == [] then map[]
    else
      var n := |accepted| - 1;
      var cells := AssignFirst(accepted[..n]);
      if accepted[n].column in cells then cells else cells[accepted[n].column := accepted[n].value]
  }

  // ---------------------------------------------------------------------------------------
  // Last writer wins
  // ---------------------------------------------------------------------------------------

  /** `after` is `before` joined with the changes `s`: the newest of them, or `before` when
      none of them is newer. */
  ghost predicate Settled(before: Cell, after: Cell, s: set<Change>) {
    && Rank(before.hlc) <= Rank(after.hlc)
    && (forall ch :: ch in s ==> Rank(ch.hlc) <= Rank(after.hlc))
    && (after == before ||
        exists ch :: ch in s && after == Cell(ch.value, ch.hlc) && Rank(before.hlc) < Rank(ch.hlc))
  }

  function JoinOne(cell: Cell, ch: Change): Cell {
    if Newer(ch.hlc, cell.hlc) then Cell(ch.value, ch.hlc) else cell
  }

  lemma {:induction false} JoinSettles(before: Cell, mid: Cell, s: set<Change>, ch: Change)
    requires Settled(before, mid, s)
    ensures Settled(before, JoinOne(mid, ch), s + {ch})
  {
    hide Rank;
    assert ch in s + {ch};
    if !Newer(ch.hlc, mid.hlc) && mid != before {
      var c :| c in s && mid == Cell(c.value, c.hlc) && Rank(before.hlc) < Rank(c.hlc);
      assert c in s + {ch};
    }
  }

  lemma {:induction false} SettledCompose(a: Cell, b: Cell, c: Cell, s: set<Change>, t: set<Change>)
    requires Settled(a, b, s) && Settled(b, c, t)
    ensures Settled(a, c, s + t)
  {
    hide Rank;
    if c != b {
      var ch :| ch in t && c == Cell(ch.value, ch.hlc) && Rank(b.hlc) < Rank(ch.hlc);
      assert ch in s + t;
    } else if b != a {
      var ch :| ch in s && b == Cell(ch.value, ch.hlc) && Rank(a.hlc) < Rank(ch.hlc);
      assert ch in s + t;
    }
  }

  /** One value and one text per HLC among the changes to a cell. */
  ghost predicate OneValuePerHlc(s: set<Change>) {
    forall x, y :: x in s && y in s && Rank(x.hlc) == Rank(y.hlc) ==> x.value == y.value && x.hlc == y.hlc
  }

  /** The join depends on the changes only, not on how they arrived. */
  lemma {:induction false} SettledUnique(before: Cell, a: Cell, b: Cell, s: set<Change>)
    requires Settled(before, a, s) && Settled(before, b, s) && OneValuePerHlc(s)
    ensures a == b
  {
  }

  // ---------------------------------------------------------------------------------------
  // The loop computes the join
  // ---------------------------------------------------------------------------------------

  function OnColumn(cs: seq<Change>, column: Name): set<Change> {
    set ch | ch in cs && ch.column == column
  }

  lemma {:induction false} OnColumnSnoc(cs: seq<Change>, column: Name)
    requires cs != []
    ensures OnColumn(cs, column) ==
            OnColumn(cs[..|cs| - 1], column) + (if cs[|cs| - 1].column == column then {cs[|cs| - 1]} else {})
  {
    assert cs == cs[..|cs| - 1] + [cs[|cs| - 1]];
  }

  /** The cell an UPDATE would store for `column` at this point of the loop. */
  function CellSoFar(cells: map<Name, Value>, m: Merge, column: Name): Cell {
    Cell(ValueIn(AssignLast(cells, m.accepted), column), HlcIn(m.hlcs, column))
  }

  lemma {:induction false} MergeOneJoins(known: set<Name>, m: Merge, cells: map<Name, Value>, ch: Change, column: Name)
    requires column in known
    ensures CellSoFar(cells, MergeOne(known, m, ch), column) ==
            if ch.column == column then JoinOne(CellSoFar(cells, m, column), ch) else CellSoFar(cells, m, column)
  {
    hide Rank;
    assert (m.accepted + [ch])[..|m.accepted|] == m.accepted;
  }

  /** UPDATE stores the join of the old cell and the row's changes, in whatever order they come
      and however often a column repeats. */
  lemma {:induction false} UpdateSettles(known: set<Name>, m: Merge, cells: map<Name, Value>, cs: seq<Change>, column: Name)
    requires m.accepted == [] && column in known
    ensures var end := MergeAll(known, m, cs);
            Settled(Cell(ValueIn(cells, column), HlcIn(m.hlcs, column)),
                    Cell(ValueIn(AssignLast(cells, end.accepted), column), HlcIn(end.hlcs, column)),
                    OnColumn(cs, column))
  {
    hide Rank;
    if cs == [] {
      assert OnColumn(cs, column) == {};
    } else {
      var n := |cs| - 1;
      UpdateSettles(known, m, cells, cs[..n], column);
      OnColumnSnoc(cs, column);
      var mid := MergeAll(known, m, cs[..n]);
      MergeOneJoins(known, mid, cells, cs[n], column);
      hide MergeOne;
      if cs[n].column == column {
        JoinSettles(CellSoFar(cells, m, column), CellSoFar(cells, mid, column), OnColumn(cs[..n], column), cs[n]);
      } else {
        assert OnColumn(cs, column) == OnColumn(cs[..n], column);
      }
    }
  }

  /** What gets accepted, and what the row HLC then is. */
  lemma {:induction false} MergeFacts(known: set<Name>, m: Merge, cs: seq<Change>)
    requires m.accepted == []
    ensures var end := MergeAll(known, m, cs);
            && (forall ch :: ch in end.accepted ==> ch in cs && ch.column in known && ch.column in end.hlcs)
            && Rank(m.maxHlc) <= Rank(end.maxHlc)
            && (end.maxHlc == m.maxHlc || exists ch :: ch in end.accepted && end.maxHlc == ch.hlc)
            && (forall ch :: ch in end.accepted ==> Rank(ch.hlc) <= Rank(end.maxHlc))
            && (end.accepted == [] ==> forall c :: c in known ==> HlcIn(end.hlcs, c) == HlcIn(m.hlcs, c))
            && end.pending == m.pending + (set ch | ch in cs && ch.column !in known :: (ch.table, ch.column))
            && (end.accepted == [] <==>
                forall ch :: ch in cs && ch.column in known ==> !Newer(ch.hlc, HlcIn(m.hlcs, ch.column)))
  {
    hide Rank;
    if cs != [] {
      var n := |cs| - 1;
      assert cs == cs[..n] + [cs[n]];
      MergeFacts(known, m, cs[..n]);
    }
  }

  /** The change is newer than what the row holds for its column. */
  predicate BringsNews(known: set<Name>, hlcs: map<Name, Hlc>, ch: Change) {
    ch.column in known && Newer(ch.hlc, HlcIn(hlcs, ch.column))
  }

  /** A column's HLC moves only with an accepted change. */
  lemma {:induction false} MovedByAccepted(known: set<Name>, m: Merge, cs: seq<Change>, column: Name)
    requires m.accepted == [] && column in known
    ensures var end := MergeAll(known, m, cs);
            HlcIn(end.hlcs, column) == HlcIn(m.hlcs, column)
            || exists a :: a in end.accepted && a.hlc == HlcIn(end.hlcs, column)
  {
    hide Rank;
    if cs != [] {
      var n := |cs| - 1;
      MovedByAccepted(known, m, cs[..n], column);
      var mid, end := MergeAll(known, m, cs[..n]), MergeAll(known, m, cs);
      assert end == MergeOne(known, mid, cs[n]);
      assert forall a :: a in mid.accepted ==> a in end.accepted;
      if HlcIn(end.hlcs, column) != HlcIn(mid.hlcs, column) {
        assert cs[n] in end.accepted;
      }
    }
  }

  /** The row HLC a merge writes is at least `floor`, unless it writes nothing, exactly when the
      first change or some change with news is. */
  lemma {:induction false} MergedRowHlc(known: set<Name>, m: Merge, cs: seq<Change>, floor: nat)
    requires m.accepted == []
    ensures var end := MergeAll(known, m, cs);
            (end.accepted == [] || floor <= Rank(end.maxHlc))
            <==> || (forall ch :: ch in cs ==> !BringsNews(known, m.hlcs, ch))
                 || floor <= Rank(m.maxHlc)
                 || (exists ch :: ch in cs && BringsNews(known, m.hlcs, ch) && floor <= Rank(ch.hlc))
  {
    hide Rank;
    var end := MergeAll(known, m, cs);
    MergeFacts(known, m, cs);
    AcceptedBringNews(known, m, cs);
    forall ch | ch in cs && BringsNews(known, m.hlcs, ch) && floor <= Rank(ch.hlc)
      ensures floor <= Rank(end.maxHlc)
    {
      UpdateSettles(known, m, map[], cs, ch.column);
      assert ch in OnColumn(cs, ch.column);
      MovedByAccepted(known, m, cs, ch.column);
    }
  }

  lemma {:induction false} AcceptedBringNews(known: set<Name>, m: Merge, cs: seq<Change>)
    requires m.accepted == []
    ensures var end := MergeAll(known, m, cs);
            && (forall ch :: ch in end.accepted ==> BringsNews(known, m.hlcs, ch))
            && (forall c :: c in known ==> Rank(HlcIn(m.hlcs, c)) <= Rank(HlcIn(end.hlcs, c)))
  {
    hide Rank;
    if cs != [] {
      AcceptedBringNews(known, m, cs[..|cs| - 1]);
    }
  }

  function LastChange(cs: seq<Change>, c: Name): Option<Change> {
    if cs == [] then None
    else if cs[|cs| - 1].column == c then Some(cs[|cs| - 1])
    else LastChange(cs[..|cs| - 1], c)
  }

  /** A column this device does not know keeps no value but the HLC of its last change. */
  lemma {:induction false} UnknownColumnEntry(known: set<Name>, m: Merge, cs: seq<Change>, c: Name)
    requires c !in known && m.accepted == []
    ensures var end := MergeAll(known, m, cs);
            && (match LastChange(cs, c)
                case Some(ch) => c in end.hlcs && end.hlcs[c] == ch.hlc
                case None => (c in end.hlcs <==> c in m.hlcs) && HlcIn(end.hlcs, c) == HlcIn(m.hlcs, c))
            && forall ch :: ch in end.accepted ==> ch.column != c
  {
    hide Rank;
    if cs != [] {
      UnknownColumnEntry(known, m, cs[..|cs| - 1], c);
    }
  }

  // ---------------------------------------------------------------------------------------
  // INSERT and repeated columns
  // ---------------------------------------------------------------------------------------

  /** The oldest and the newest change to column `c` of a row that is not there yet. */
  function Oldest(cs: seq<Change>, c: Name): Option<Change> {
    if cs == [] then None
    else
      var n := |cs| - 1;
      var o := Oldest(cs[..n], c);
      if o.None? && cs[n].column == c && Rank(cs[n].hlc) > 0 then Some(cs[n]) else o
  }

  function Newest(cs: seq<Change>, c: Name): Option<Change> {
    if cs == [] then None
    else
      var n := |cs| - 1;
      var o := Newest(cs[..n], c);
      if cs[n].column == c && Rank(cs[n].hlc) > (if o.Some? then Rank(o.value.hlc) else 0) then Some(cs[n]) else o
  }

  /** Where a column repeats, its oldest and its newest change carry the same value. */
  ghost predicate RepeatsAgree(known: set<Name>, cs: seq<Change>) {
    forall c :: c in known && Oldest(cs, c).Some? && Newest(cs, c).Some?
      ==> Oldest(cs, c).value.value == Newest(cs, c).value.value
  }

  /** Column `c` of a new row: first value, last value and HLC the loop has for it. */
  ghost predicate NewColumnIs(m: Merge, c: Name, oldest: Option<Change>, newest: Option<Change>) {
    && (oldest.Some? <==> newest.Some?)
    && (c in AssignFirst(m.accepted) <==> oldest.Some?)
    && (c in AssignLast(map[], m.accepted) <==> oldest.Some?)
    && (oldest.Some? && newest.Some? ==>
        && AssignFirst(m.accepted)[c] == oldest.value.value
        && AssignLast(map[], m.accepted)[c] == newest.value.value)
    && HlcIn(m.hlcs, c) == (if newest.Some? then newest.value.hlc else "")
  }

  lemma {:induction false} NewColumnStep(known: set<Name>, m: Merge, ch: Change, c: Name,
                                         oldest: Option<Change>, newest: Option<Change>)
    requires c in known && NewColumnIs(m, c, oldest, newest)
    ensures var taken := ch.column == c && Rank(ch.hlc) > (if newest.Some? then Rank(newest.value.hlc) else 0);
            NewColumnIs(MergeOne(known, m, ch), c, if taken && oldest.None? then Some(ch) else oldest,
                        if taken then Some(ch) else newest)
  {
    hide Rank;
    EmptyIsOldest();
    assert (m.accepted + [ch])[..|m.accepted|] == m.accepted;
  }

  lemma {:induction false} NewRowColumn(known: set<Name>, maxHlc: Hlc, cs: seq<Change>, c: Name)
    requires c in known
    ensures NewColumnIs(MergeAll(known, Merge(map[], [], maxHlc, {}), cs), c, Oldest(cs, c), Newest(cs, c))
  {
    hide Rank;
    if cs != [] {
      var n := |cs| - 1;
      NewRowColumn(known, maxHlc, cs[..n], c);
      NewColumnStep(known, MergeAll(known, Merge(map[], [], maxHlc, {}), cs[..n]), cs[n], c,
                    Oldest(cs[..n], c), Newest(cs[..n], c));
      hide MergeOne;
      hide NewColumnIs;
    }
  }

  /** A new row holds the newest value of every column exactly when repeated columns agree. */
  lemma {:induction false} InsertKeepsNewest(known: set<Name>, maxHlc: Hlc, cs: seq<Change>)
    ensures var end := MergeAll(known, Merge(map[], [], maxHlc, {}), cs);
            (forall c :: c in known ==> ValueIn(AssignFirst(end.accepted), c) == ValueIn(AssignLast(map[], end.accepted), c))
            <==> RepeatsAgree(known, cs)
  {
    forall c | c in known
      ensures var end := MergeAll(known, Merge(map[], [], maxHlc, {}), cs);
              ValueIn(AssignFirst(end.accepted), c) == ValueIn(AssignLast(map[], end.accepted), c)
              <==> (Oldest(cs, c).Some? && Newest(cs, c).Some?
                    ==> Oldest(cs, c).value.value == Newest(cs, c).value.value)
    {
      NewRowColumn(known, maxHlc, cs, c);
    }
  }

  /** A column that occurs once, or always with the same value, agrees with itself. */
  lemma {:induction false} OldestMember(cs: seq<Change>, c: Name)
    ensures Oldest(cs, c).Some? ==>
            Oldest(cs, c).value in cs && Oldest(cs, c).value.column == c && Rank(Oldest(cs, c).value.hlc) > 0
    ensures Newest(cs, c).Some? ==>
            Newest(cs, c).value in cs && Newest(cs, c).value.column == c && Rank(Newest(cs, c).value.hlc) > 0
  {
    if cs != [] {
      var n := |cs| - 1;
      assert cs == cs[..n] + [cs[n]];
      OldestMember(cs[..n], c);
    }
  }

  const OLDER: Hlc := Print(Timestamp(1, 10))   // "1/a"
  const LATER: Hlc := Print(Timestamp(2, 10))   // "2/a"

  const TWO_WRITES: seq<Change> :=
    [Change("t", ObjectText(map["id" := Text("r")], ""), "c", OLDER, Integer(1)),
     Change("t", ObjectText(map["id" := Text("r")], ""), "c", LATER, Integer(2))]

  /** The failing case: two writes to one column of a row this replica does not have yet, in
      one batch. The stored value is the older one, under the newer HLC. */
  lemma {:induction false} InsertKeepsStaleValue()
    ensures var end := MergeAll({"c"}, Merge(map[], [], OLDER, {}), TWO_WRITES);
            && Rank(OLDER) < Rank(LATER)
            && ValueIn(AssignFirst(end.accepted), "c") == Integer(1)
            && HlcIn(end.hlcs, "c") == LATER
  {
    ParsePrint(Timestamp(1, 10));
    ParsePrint(Timestamp(2, 10));
    hide Rank;
    hide Print;
    NewRowColumn({"c"}, OLDER, TWO_WRITES, "c");
    assert TWO_WRITES[..1] == [TWO_WRITES[0]];
    assert Oldest(TWO_WRITES[..1], "c") == Some(TWO_WRITES[0]) == Newest(TWO_WRITES[..1], "c");
  }
}
