/**
  Naming rows: the WHERE clauses built from a primary-key object, what they accept, and the
  key an INSERT of an absent row ends up with (`src-tauri/src/crdt/commands.rs:39-61, 390-413,
  842-850`).
 */
module Keys {
  import opened Wrappers
  import opened Store

  // ---------------------------------------------------------------------------------------
  // WHERE clauses
  // ---------------------------------------------------------------------------------------

  /** `"c" IS NULL` or `"c" = ?`; a clause is their conjunction. */
  datatype Condition = IsNull(column: Name) | EqualsParam(column: Name)

  /** SQL evaluation with positional parameters: `=` is never true of NULL. */
  predicate Accepts(parts: seq<Condition>, params: seq<Value>, at: Name -> Value) {
    if parts == [] then params == []
    else match parts[0]
      case IsNull(c) => at(c) == Null && Accepts(parts[1..], params, at)
      case EqualsParam(c) =>
        params != [] && params[0] != Null && at(c) == params[0] && Accepts(parts[1..], params[1..], at)
  }

  function Parts(names: seq<Name>, fields: map<Name, Value>): seq<Condition> {
    if names == [] then []
    else [if ValueIn(fields, names[0]) == Null then IsNull(names[0]) else EqualsParam(names[0])] + Parts(names[1..], fields)
  }

  function Params(names: seq<Name>, fields: map<Name, Value>): seq<Value> {
    if names == [] then []
    else (if ValueIn(fields, names[0]) == Null then [] else [ValueIn(fields, names[0])]) + Params(names[1..], fields)
  }

  /** A built clause is null-safe equality on every named column. */
  lemma {:induction false} ClauseIsEquality(names: seq<Name>, fields: map<Name, Value>, at: Name -> Value)
    ensures Accepts(Parts(names, fields), Params(names, fields), at)
            <==> forall i :: 0 <= i < |names| ==> at(names[i]) == ValueIn(fields, names[i])
  {
    if names != [] {
      ClauseIsEquality(names[1..], fields, at);
      assert Parts(names, fields)[1..] == Parts(names[1..], fields);
      if ValueIn(fields, names[0]) == Null {
        assert Params(names, fields) == Params(names[1..], fields);
      } else {
        assert Params(names, fields)[1..] == Params(names[1..], fields);
      }
      assert forall i :: 1 <= i < |names| ==> names[i] == names[1..][i - 1];
      assert (forall i :: 0 <= i < |names| ==> at(names[i]) == ValueIn(fields, names[i])) <==>
             at(names[0]) == ValueIn(fields, names[0]) &&
             (forall i :: 0 <= i < |names[1..]| ==> at(names[1..][i]) == ValueIn(fields, names[1..][i]));
    }
  }

  method BuildPkWhereClause(names: seq<Name>, fields: map<Name, Value>)
    returns (parts: seq<Condition>, params: seq<Value>)
    ensures forall at: Name -> Value ::
      Accepts(parts, params, at) <==> forall i :: 0 <= i < |names| ==> at(names[i]) == WherePk(names, fields)[i]
  {
    parts, params := [], [];
    for i := 0 to |names|
      invariant parts == Parts(names[..i], fields) && params == Params(names[..i], fields)
    {
      PartsSnoc(names[..i], names[i], fields);
      assert names[..i + 1] == names[..i] + [names[i]];
      if names[i] !in fields || fields[names[i]] == Null {
        parts := parts + [IsNull(names[i])];
      } else {
        parts := parts + [EqualsParam(names[i])];
        params := params + [fields[names[i]]];
      }
    }
    assert names[..|names|] == names;
    ClauseNamesRow(names, fields);
  }

  lemma {:induction false} ClauseNamesRow(names: seq<Name>, fields: map<Name, Value>)
    ensures forall at: Name -> Value ::
      Accepts(Parts(names, fields), Params(names, fields), at)
      <==> forall i :: 0 <= i < |names| ==> at(names[i]) == WherePk(names, fields)[i]
  {
    forall at: Name -> Value
      ensures Accepts(Parts(names, fields), Params(names, fields), at)
              <==> forall i :: 0 <= i < |names| ==> at(names[i]) == WherePk(names, fields)[i]
    {
      ClauseIsEquality(names, fields, at);
    }
  }

  /** All or nothing: no clause when a name is unsafe or no column is named. */
  method BuildPkWhereFromMap(fields: map<Name, Value>) returns (r: Option<(seq<Condition>, seq<Value>)>)
    ensures r.None? <==> fields == map[] || exists c :: c in fields && !IsSafeIdentifier(c)
    ensures r.Some? ==> forall at: Name -> Value ::
      Accepts(r.value.0, r.value.1, at) <==> forall c :: c in fields ==> at(c) == fields[c]
  {
    if fields == map[] {
      return None;
    }
    var rest := fields.Keys;
    var order: seq<Name> := [];
    var parts: seq<Condition>, params: seq<Value> := [], [];
    while rest != {}
      invariant rest <= fields.Keys
      invariant forall c :: c in order <==> c in fields && c !in rest
      invariant forall c :: c in order ==> IsSafeIdentifier(c)
      invariant parts == Parts(order, fields) && params == Params(order, fields)
      decreases rest
    {
      var c :| c in rest;
      rest := rest - {c};
      if !IsSafeIdentifier(c) {
        return None;
      }
      PartsSnoc(order, c, fields);
      if fields[c] == Null {
        parts := parts + [IsNull(c)];
      } else {
        parts, params := parts + [EqualsParam(c)], params + [fields[c]];
      }
      order := order + [c];
    }
    assert forall c :: c in fields ==> c in order;
    forall at: Name -> Value
      ensures Accepts(parts, params, at) <==> forall c :: c in fields ==> at(c) == fields[c]
    {
      ClauseIsEquality(order, fields, at);
      forall i | 0 <= i < |order| ensures order[i] in fields { assert order[i] in order; }
    }
    var somewhere :| somewhere in fields;
    return Some((parts, params));
  }

  lemma {:induction false} PartsSnoc(names: seq<Name>, c: Name, fields: map<Name, Value>)
    ensures Parts(names + [c], fields) ==
            Parts(names, fields) + [if ValueIn(fields, c) == Null then IsNull(c) else EqualsParam(c)]
    ensures Params(names + [c], fields) ==
            Params(names, fields) + if ValueIn(fields, c) == Null then [] else [ValueIn(fields, c)]
  {
    if names != [] {
      assert (names + [c])[1..] == names[1..] + [c];
      PartsSnoc(names[1..], c, fields);
    }
  }

  // ---------------------------------------------------------------------------------------
  // The key of an inserted row
  // ---------------------------------------------------------------------------------------

  /** The values the key object does give, in key order. */
  function Present(names: seq<Name>, fields: map<Name, Value>): (r: seq<Value>)
    ensures |r| <= |names|
  {
    if names == [] then []
    else (if names[0] in fields then [fields[names[0]]] else []) + Present(names[1..], fields)
  }

  function Nulls(n: nat): (r: seq<Value>)
    ensures |r| == n
  {
    seq(n, _ => Null)
  }

  /** INSERT zips the key columns with the values that are present, so a value slides left past
      a key column the object does not name; the rest default to NULL. */
  function InsertPk(names: seq<Name>, fields: map<Name, Value>): Pk {
    Present(names, fields) + Nulls(|names| - |Present(names, fields)|)
  }

  /** Every key column before a non-NULL one is named. */
  ghost predicate KeyNamed(names: seq<Name>, fields: map<Name, Value>) {
    forall i, j :: 0 <= i < j < |names| && ValueIn(fields, names[j]) != Null ==> names[i] in fields
  }

  /** One past the last non-NULL value. */
  function LastValue(s: seq<Value>): nat {
    if s == [] then 0
    else
      var r := LastValue(s[1..]);
      if r > 0 then r + 1 else if s[0] != Null then 1 else 0
  }

  lemma {:induction false} LastValuePadded(s: seq<Value>, n: nat)
    ensures LastValue(s + Nulls(n)) == LastValue(s)
  {
    if s == [] {
      assert s + Nulls(n) == Nulls(n);
      LastOfNulls(n);
    } else {
      assert (s + Nulls(n))[1..] == s[1..] + Nulls(n);
      LastValuePadded(s[1..], n);
    }
  }

  lemma {:induction false} LastOfNulls(n: nat)
    ensures LastValue(Nulls(n)) == 0
  {
    if n > 0 {
      assert Nulls(n)[1..] == Nulls(n - 1);
      LastOfNulls(n - 1);
    }
  }

  lemma {:induction false} PresentSlidesLeft(names: seq<Name>, fields: map<Name, Value>)
    ensures LastValue(Present(names, fields)) <= LastValue(WherePk(names, fields))
    ensures LastValue(Present(names, fields)) == 0 <==> LastValue(WherePk(names, fields)) == 0
  {
    if names != [] {
      PresentSlidesLeft(names[1..], fields);
      assert WherePk(names, fields)[1..] == WherePk(names[1..], fields);
      if names[0] in fields {
        assert Present(names, fields)[1..] == Present(names[1..], fields);
      } else {
        assert Present(names, fields) == Present(names[1..], fields);
      }
    }
  }

  lemma {:induction false} NoValueIsNulls(s: seq<Value>)
    ensures LastValue(s) == 0 <==> s == Nulls(|s|)
  {
    if s != [] {
      NoValueIsNulls(s[1..]);
      assert s == [s[0]] + s[1..];
      assert Nulls(|s|) == [Null] + Nulls(|s| - 1);
    }
  }

  /** A value slides left past an unnamed first key column, unless there is no value at all. */
  lemma {:induction false} InsertedKeySlides(names: seq<Name>, fields: map<Name, Value>)
    requires names != [] && names[0] !in fields
    ensures InsertPk(names, fields) == WherePk(names, fields) <==> LastValue(WherePk(names[1..], fields)) == 0
  {
    var rest := names[1..];
    var where := WherePk(names, fields);
    assert where[1..] == WherePk(rest, fields);
    assert Present(names, fields) == Present(rest, fields);
    LastValuePadded(Present(rest, fields), |names| - |Present(rest, fields)|);
    PresentSlidesLeft(rest, fields);
    NoValueIsNulls(where);
    NoValueIsNulls(InsertPk(names, fields));
  }

  lemma {:induction false} KeyNamedSplit(names: seq<Name>, fields: map<Name, Value>)
    requires names != []
    ensures KeyNamed(names, fields) <==>
            KeyNamed(names[1..], fields) && (names[0] in fields || LastValue(WherePk(names[1..], fields)) == 0)
  {
    var rest := names[1..];
    NoValueIsNulls(WherePk(rest, fields));
    assert forall i :: 0 <= i < |rest| ==> rest[i] == names[i + 1] && WherePk(rest, fields)[i] == ValueIn(fields, rest[i]);
    if KeyNamed(names, fields) {
      assert forall j :: 0 <= j < |rest| && names[0] !in fields ==> WherePk(rest, fields)[j] == Null;
      assert names[0] !in fields ==> WherePk(rest, fields) == Nulls(|rest|);
    }
    if KeyNamed(rest, fields) && (names[0] in fields || WherePk(rest, fields) == Nulls(|rest|)) {
      forall i, j | 0 <= i < j < |names| && ValueIn(fields, names[j]) != Null
        ensures names[i] in fields
      {
        assert WherePk(rest, fields)[j - 1] != Null;
        if i > 0 {
          assert rest[i - 1] in fields;
        }
      }
    }
  }

  /** The inserted row is the one the WHERE clause looks for, exactly when the key object names
      every key column before its last value. */
  lemma {:induction false} InsertedKey(names: seq<Name>, fields: map<Name, Value>)
    ensures InsertPk(names, fields) == WherePk(names, fields) <==> KeyNamed(names, fields)
  {
    if names != [] {
      var rest := names[1..];
      KeyNamedSplit(names, fields);
      InsertedKey(rest, fields);
      if names[0] in fields {
        InsertedKeyStays(names, fields);
      } else {
        InsertedKeySlides(names, fields);
        if LastValue(WherePk(rest, fields)) == 0 {
          NoValueIsNulls(WherePk(rest, fields));
          assert forall j :: 0 <= j < |rest| ==> WherePk(rest, fields)[j] == ValueIn(fields, rest[j]) == Null;
        }
      }
    }
  }

  lemma {:induction false} InsertedKeyStays(names: seq<Name>, fields: map<Name, Value>)
    requires names != [] && names[0] in fields
    ensures InsertPk(names, fields) == WherePk(names, fields) <==> InsertPk(names[1..], fields) == WherePk(names[1..], fields)
  {
    var rest := names[1..];
    assert InsertPk(names, fields) == [fields[names[0]]] + InsertPk(rest, fields);
    assert WherePk(names, fields) == [fields[names[0]]] + WherePk(rest, fields);
    assert InsertPk(names, fields)[1..] == InsertPk(rest, fields);
    assert WherePk(names, fields)[1..] == WherePk(rest, fields);
  }

  /** How many of the columns the key object names. */
  function NamedCount(names: seq<Name>, fields: map<Name, Value>): nat {
    if names == [] then 0 else (if names[0] in fields then 1 else 0) + NamedCount(names[1..], fields)
  }

  lemma {:induction false} PresentAt(names: seq<Name>, fields: map<Name, Value>, j: nat)
    requires j < |names|
    ensures |Present(names, fields)| == NamedCount(names, fields)
    ensures names[j] in fields ==> var at := NamedCount(names[..j], fields);
                                   at < |Present(names, fields)| && Present(names, fields)[at] == fields[names[j]]
  {
    var rest := names[1..];
    if rest == [] {
      assert names[..j] == [] && Present(rest, fields) == [];
    } else if j == 0 {
      PresentAt(rest, fields, 0);
      assert names[..0] == [];
    } else {
      PresentAt(rest, fields, j - 1);
      assert names[..j][1..] == rest[..j - 1];
    }
  }

  /** Where the values of an INSERT land: each as many columns in as named columns are before its own,
      and NULL in the columns that are left. */
  lemma {:induction false} KeyValueLands(names: seq<Name>, fields: map<Name, Value>, j: nat)
    requires j < |names|
    ensures |InsertPk(names, fields)| == |names|
    ensures names[j] in fields ==> var at := NamedCount(names[..j], fields);
                                   at < |names| && InsertPk(names, fields)[at] == fields[names[j]]
    ensures NamedCount(names, fields) <= j ==> InsertPk(names, fields)[j] == Null
  {
    PresentAt(names, fields, j);
  }

  /** The failing case: key (a, b) and an object that names only b. */
  lemma {:induction false} InsertedKeyElsewhere()
    ensures var fields := map["b" := Integer(1)];
            && WherePk(["a", "b"], fields) == [Null, Integer(1)]
            && InsertPk(["a", "b"], fields) == [Integer(1), Null]
  {
    var fields: map<Name, Value> := map["b" := Integer(1)];
    assert ["a", "b"][1..] == ["b"] && ["b"][1..] == [];
    assert Present(["b"], fields) == [Integer(1)];
  }
}
