/**
  The INSERT rewriter (`src-tauri/src/crdt/insert_transformer.rs:25-106`): adds or replaces the
  `haex_hlc` column in a parsed statement, in place.
 */
module InsertTransformer {
  import opened Wrappers
  import opened Store

  datatype Expr = Opaque(text: string) | SingleQuoted(s: string)

  /** A possibly qualified column name; only its last part counts. */
  type ObjectName = seq<string>

  datatype Source = Values(rows: seq<seq<Expr>>) | Select(projection: seq<Expr>) | Unsupported | Missing

  predicate IsNamed(c: ObjectName, name: string) {
    c != [] && c[|c| - 1] == name
  }

  // ---------------------------------------------------------------------------------------
  // Meaning: which expression a statement assigns to which column
  // ---------------------------------------------------------------------------------------

  /** The first column of that name. */
  function Position(columns: seq<ObjectName>, name: string): (r: Option<nat>)
    ensures r.Some? ==> r.value < |columns| && IsNamed(columns[r.value], name)
    ensures r.Some? ==> forall i :: 0 <= i < r.value ==> !IsNamed(columns[i], name)
    ensures r.None? ==> forall i :: 0 <= i < |columns| ==> !IsNamed(columns[i], name)
  {
    if columns == [] then None
    else if IsNamed(columns[0], name) then Some(0)
    else match Position(columns[1..], name)
      case None =>
        assert forall i :: 1 <= i < |columns| ==> columns[i] == columns[1..][i - 1];
        None
      case Some(i) =>
        assert forall k :: 1 <= k < |columns| ==> columns[k] == columns[1..][k - 1];
        Some(i + 1)
  }

  function Assigned(columns: seq<ObjectName>, row: seq<Expr>, name: string): Option<Expr> {
    match Position(columns, name)
    case None => None
    case Some(i) => if i < |row| then Some(row[i]) else None
  }

  /** No two columns share a name. */
  ghost predicate DistinctColumns(columns: seq<ObjectName>) {
    forall i, j, name :: 0 <= i < j < |columns| && IsNamed(columns[i], name) ==> !IsNamed(columns[j], name)
  }

  // ---------------------------------------------------------------------------------------
  // The rewrite
  // ---------------------------------------------------------------------------------------

  function WithHlcColumn(columns: seq<ObjectName>): seq<ObjectName> {
    if Position(columns, HLC_TIMESTAMP_COLUMN).Some? then columns else columns + [[HLC_TIMESTAMP_COLUMN]]
  }

  function HlcIndex(columns: seq<ObjectName>): nat {
    match Position(columns, HLC_TIMESTAMP_COLUMN)
    case Some(i) => i
    case None => |columns|
  }

  function SetOrPush(row: seq<Expr>, index: nat, value: Expr): seq<Expr> {
    if index < |row| then row[index := value] else row + [value]
  }

  /** The rewritten row assigns every other column what the row did, and `haex_hlc` the timestamp. */
  ghost predicate KeepsMeaning(columns: seq<ObjectName>, row: seq<Expr>, columns': seq<ObjectName>, row': seq<Expr>,
                               timestamp: string)
  {
    DistinctColumns(columns) && |row| == |columns| ==>
      && |row'| == |columns'|
      && forall name :: Assigned(columns', row', name) ==
           if name == HLC_TIMESTAMP_COLUMN then Some(SingleQuoted(timestamp)) else Assigned(columns, row, name)
  }

  class InsertStatement {
    var columns: seq<ObjectName>
    var source: Source

    constructor (columns: seq<ObjectName>, source: Source)
      ensures this.columns == columns && this.source == source
    {
      this.columns, this.source := columns, source;
    }

    method FindOrAddColumn() returns (index: nat)
      modifies this`columns
      ensures columns == WithHlcColumn(old(columns)) && index == HlcIndex(old(columns))
    {
      match Position(columns, HLC_TIMESTAMP_COLUMN)
      case Some(i) => index := i;
      case None =>
        columns := columns + [[HLC_TIMESTAMP_COLUMN]];
        index := |columns| - 1;
    }

    /** The column list is extended even when the source is then refused. */
    method TransformInsert(timestamp: string) returns (ok: bool)
      modifies this
      ensures columns == WithHlcColumn(old(columns))
      ensures ok <==> old(source).Values? || old(source).Select?
      ensures match old(source)
              case Values(rows) =>
                && source.Values? && |source.rows| == |rows|
                && forall i :: 0 <= i < |rows| ==>
                     source.rows[i] == SetOrPush(rows[i], HlcIndex(old(columns)), SingleQuoted(timestamp))
              case Select(projection) =>
                source == Select(SetOrPush(projection, HlcIndex(old(columns)), SingleQuoted(timestamp)))
              case _ => source == old(source)
      ensures old(source).Values? ==> forall i :: 0 <= i < |source.rows| ==>
                KeepsMeaning(old(columns), old(source).rows[i], columns, source.rows[i], timestamp)
      ensures old(source).Select? ==> KeepsMeaning(old(columns), old(source).projection, columns, source.projection, timestamp)
    {
      hide SetOrPush, WithHlcColumn, HlcIndex, KeepsMeaning;
      var index := FindOrAddColumn();
      match source
      case Values(rows) =>
        var done: seq<seq<Expr>> := [];
        for i := 0 to |rows|
          invariant |done| == i && columns == WithHlcColumn(old(columns)) && index == HlcIndex(old(columns))
          invariant forall k :: 0 <= k < i ==> done[k] == SetOrPush(rows[k], index, SingleQuoted(timestamp))
          invariant forall k :: 0 <= k < i ==> KeepsMeaning(old(columns), rows[k], columns, done[k], timestamp)
        {
          RewriteKeepsMeaning(old(columns), rows[i], timestamp);
          done := done + [SetOrPush(rows[i], index, SingleQuoted(timestamp))];
        }
        source := Values(done);
        return true;
      case Select(projection) =>
        RewriteKeepsMeaning(old(columns), projection, timestamp);
        source := Select(SetOrPush(projection, index, SingleQuoted(timestamp)));
        return true;
      case Unsupported => return false;
      case Missing => return false;
    }
  }

  // ---------------------------------------------------------------------------------------
  // What the rewrite preserves
  // ---------------------------------------------------------------------------------------

  lemma {:induction false} PositionSnoc(columns: seq<ObjectName>, name: string)
    requires Position(columns, HLC_TIMESTAMP_COLUMN).None?
    ensures Position(WithHlcColumn(columns), name) ==
            if name == HLC_TIMESTAMP_COLUMN then Some(|columns|) else Position(columns, name)
  {
    var wide := columns + [[HLC_TIMESTAMP_COLUMN]];
    assert forall i :: 0 <= i < |columns| ==> wide[i] == columns[i];
    assert wide[|columns|] == [HLC_TIMESTAMP_COLUMN];
    if name == HLC_TIMESTAMP_COLUMN {
      assert IsNamed(wide[|columns|], name);
    } else {
      assert !IsNamed(wide[|columns|], name);
    }
  }

  /** With distinct columns and a row as wide as the column list, the rewritten statement assigns
      every other column the same expression and `haex_hlc` the timestamp, keeps the widths
      equal, and a second rewrite with the same timestamp changes nothing. */
  lemma {:induction false} RewritePreservesMeaning(columns: seq<ObjectName>, row: seq<Expr>, timestamp: string, name: string)
    requires DistinctColumns(columns) && |row| == |columns|
    ensures var columns' := WithHlcColumn(columns);
            var row' := SetOrPush(row, HlcIndex(columns), SingleQuoted(timestamp));
            && |row'| == |columns'|
            && Assigned(columns', row', name) ==
                 (if name == HLC_TIMESTAMP_COLUMN then Some(SingleQuoted(timestamp)) else Assigned(columns, row, name))
            && WithHlcColumn(columns') == columns'
            && SetOrPush(row', HlcIndex(columns'), SingleQuoted(timestamp)) == row'
  {
    var columns' := WithHlcColumn(columns);
    var row' := SetOrPush(row, HlcIndex(columns), SingleQuoted(timestamp));
    match Position(columns, HLC_TIMESTAMP_COLUMN)
    case None =>
      PositionSnoc(columns, name);
      PositionSnoc(columns, HLC_TIMESTAMP_COLUMN);
    case Some(i) =>
      if name != HLC_TIMESTAMP_COLUMN && Position(columns, name).Some? {
        assert Position(columns, name).value != i;
      }
  }

  lemma {:induction false} RewriteKeepsMeaning(columns: seq<ObjectName>, row: seq<Expr>, timestamp: string)
    ensures KeepsMeaning(columns, row, WithHlcColumn(columns), SetOrPush(row, HlcIndex(columns), SingleQuoted(timestamp)), timestamp)
  {
    hide Assigned, SetOrPush, WithHlcColumn, HlcIndex;
    if DistinctColumns(columns) && |row| == |columns| {
      RewritePreservesMeaning(columns, row, timestamp, HLC_TIMESTAMP_COLUMN);
      forall name
        ensures var columns' := WithHlcColumn(columns);
                var row' := SetOrPush(row, HlcIndex(columns), SingleQuoted(timestamp));
                |row'| == |columns'| && Assigned(columns', row', name) ==
                  if name == HLC_TIMESTAMP_COLUMN then Some(SingleQuoted(timestamp)) else Assigned(columns, row, name)
      {
        RewritePreservesMeaning(columns, row, timestamp, name);
      }
    }
  }

  /** A qualifier does not hide the timestamp column, and only the last part of a name makes one. */
  lemma {:induction false} QualifierDoesNotCount(columns: seq<ObjectName>, i: nat, qualifier: ObjectName, name: string)
    requires i < |columns| && columns[i] == qualifier + [name]
    ensures name == HLC_TIMESTAMP_COLUMN ==> WithHlcColumn(columns) == columns && HlcIndex(columns) <= i
    ensures name != HLC_TIMESTAMP_COLUMN ==> HlcIndex(columns) != i
  {
    assert IsNamed(columns[i], name);
  }

  /** The rewrite replaces a value that was meant for another column than `haex_hlc`. */
  ghost predicate LosesValue(columns: seq<ObjectName>, row: seq<Expr>, timestamp: string) {
    var row' := SetOrPush(row, HlcIndex(columns), SingleQuoted(timestamp));
    exists i :: 0 <= i < |row| && row'[i] != row[i] && (i < |columns| ==> !IsNamed(columns[i], HLC_TIMESTAMP_COLUMN))
  }

  /** Of the rows SQL accepts, as wide as the column list or without one, the rewrite loses a
      value exactly where there is no column list and the first value is not the timestamp
      itself; and the result fits its column list exactly if there was one or at most one
      value. */
  lemma {:induction false} LosesValueOnlyColumnless(columns: seq<ObjectName>, row: seq<Expr>, timestamp: string)
    requires |row| == |columns| || columns == []
    ensures LosesValue(columns, row, timestamp) <==> columns == [] && row != [] && row[0] != SingleQuoted(timestamp)
    ensures |SetOrPush(row, HlcIndex(columns), SingleQuoted(timestamp))| == |WithHlcColumn(columns)|
            <==> columns != [] || |row| <= 1
  {
    var row' := SetOrPush(row, HlcIndex(columns), SingleQuoted(timestamp));
    if columns == [] && row != [] {
      assert row'[0] == SingleQuoted(timestamp);
    }
  }

  /** The failing case: `INSERT INTO t VALUES ('x')` becomes `INSERT INTO t (haex_hlc) VALUES
      ('<timestamp>')`. */
  lemma {:induction false} ColumnlessInsertLosesFirstValue(timestamp: string)
    requires timestamp != "x"
    ensures WithHlcColumn([]) == [[HLC_TIMESTAMP_COLUMN]]
    ensures SetOrPush([SingleQuoted("x")], HlcIndex([]), SingleQuoted(timestamp)) == [SingleQuoted(timestamp)]
    ensures LosesValue([], [SingleQuoted("x")], timestamp)
  {
    LosesValueOnlyColumnless([], [SingleQuoted("x")], timestamp);
  }
}
