/**
  How a batch is ordered before it is applied (`src-tauri/src/crdt/commands.rs:285-343`):
  first into sender transactions in ascending HLC order, then into rows.
 */
module Grouping {
  import opened HlcText
  import opened Store

  datatype Change = Change(table: Name, rowPks: JsonText, column: Name, hlc: Hlc, value: Value)

  datatype Group<K> = Group(key: K, members: seq<Change>)

  type RowKey = (Name, JsonText)

  function RowKeyOf(ch: Change): RowKey { (ch.table, ch.rowPks) }

  function TransactionOf(ch: Change): Hlc { ch.hlc }

  // ---------------------------------------------------------------------------------------
  // Specification
  // ---------------------------------------------------------------------------------------

  /** The changes with key `k`, in their original order. */
  function Select<K(==)>(cs: seq<Change>, keyOf: Change -> K, k: K): seq<Change> {
    if cs == [] then []
    else
      var n := |cs| - 1;
      Select(cs[..n], keyOf, k) + if keyOf(cs[n]) == k then [cs[n]] else []
  }

  function Flatten<K>(gs: seq<Group<K>>): seq<Change> {
    if gs == [] then [] else Flatten(gs[..|gs| - 1]) + gs[|gs| - 1].members
  }

  ghost predicate Ascending(cs: seq<Change>) {
    forall i, j :: 0 <= i < j < |cs| ==> Rank(cs[i].hlc) <= Rank(cs[j].hlc)
  }

  /** The groups partition `cs` by key, each keeping its changes in their order. */
  ghost predicate Partitions<K(!new)>(gs: seq<Group<K>>, cs: seq<Change>, keyOf: Change -> K) {
    && (forall i :: 0 <= i < |gs| ==> gs[i].members == Select(cs, keyOf, gs[i].key) != [])
    && (forall i, j :: 0 <= i < j < |gs| ==> gs[i].key != gs[j].key)
    && (forall ch :: ch in cs ==> exists i :: 0 <= i < |gs| && gs[i].key == keyOf(ch))
  }

  /** Least rank in a group: its position among the groups. */
  function MinRank(cs: seq<Change>): nat
    requires cs != []
  {
    if |cs| == 1 then Rank(cs[0].hlc)
    else
      var rest := MinRank(cs[..|cs| - 1]);
      if Rank(cs[|cs| - 1].hlc) < rest then Rank(cs[|cs| - 1].hlc) else rest
  }

  ghost predicate GroupsAscend<K>(gs: seq<Group<K>>) {
    && (forall i :: 0 <= i < |gs| ==> gs[i].members != [])
    && (forall i, j :: 0 <= i < j < |gs| ==> MinRank(gs[i].members) <= MinRank(gs[j].members))
  }

  /** What the two groupings together promise about the rows of a batch. */
  ghost predicate RowGrouping(cs: seq<Change>, gs: seq<Group<RowKey>>) {
    && multiset(Flatten(gs)) == multiset(cs)
    && (forall i :: 0 <= i < |gs| ==> gs[i].members != [] && Ascending(gs[i].members))
    && (forall i, ch :: 0 <= i < |gs| && ch in gs[i].members ==> RowKeyOf(ch) == gs[i].key)
    && (forall i, j :: 0 <= i < j < |gs| ==> gs[i].key != gs[j].key)
    && GroupsAscend(gs)
  }

  // ---------------------------------------------------------------------------------------
  // Lemmas
  // ---------------------------------------------------------------------------------------

  lemma {:induction false} SelectMembers<K>(cs: seq<Change>, keyOf: Change -> K, k: K)
    ensures forall ch :: ch in Select(cs, keyOf, k) <==> ch in cs && keyOf(ch) == k
  {
    if cs != [] {
      var n := |cs| - 1;
      SelectMembers(cs[..n], keyOf, k);
      assert cs == cs[..n] + [cs[n]];
    }
  }

  lemma {:induction false} SelectNone<K>(cs: seq<Change>, keyOf: Change -> K, k: K)
    requires forall ch :: ch in cs ==> keyOf(ch) != k
    ensures Select(cs, keyOf, k) == []
  {
    if cs != [] {
      assert cs[|cs| - 1] in cs;
      SelectNone(cs[..|cs| - 1], keyOf, k);
    }
  }

  lemma {:induction false} SelectAscends<K>(cs: seq<Change>, keyOf: Change -> K, k: K)
    requires Ascending(cs)
    ensures Ascending(Select(cs, keyOf, k))
  {
    if cs != [] {
      var n := |cs| - 1;
      SelectAscends(cs[..n], keyOf, k);
      SelectMembers(cs[..n], keyOf, k);
      forall ch | ch in Select(cs[..n], keyOf, k)
        ensures Rank(ch.hlc) <= Rank(cs[n].hlc)
      {
        assert ch in cs[..n];
      }
    }
  }

  /** The changes whose key is in `ks`. */
  function SelectKeys<K>(cs: seq<Change>, keyOf: Change -> K, ks: set<K>): seq<Change> {
    if cs == [] then []
    else
      var n := |cs| - 1;
      SelectKeys(cs[..n], keyOf, ks) + if keyOf(cs[n]) in ks then [cs[n]] else []
  }

  lemma {:induction false} SelectKeysSplit<K>(cs: seq<Change>, keyOf: Change -> K, ks: set<K>, k: K)
    requires k !in ks
    ensures multiset(SelectKeys(cs, keyOf, ks + {k}))
            == multiset(SelectKeys(cs, keyOf, ks)) + multiset(Select(cs, keyOf, k))
  {
    if cs != [] {
      SelectKeysSplit(cs[..|cs| - 1], keyOf, ks, k);
    }
  }

  lemma {:induction false} SelectKeysAll<K>(cs: seq<Change>, keyOf: Change -> K, ks: set<K>)
    requires forall ch :: ch in cs ==> keyOf(ch) in ks
    ensures SelectKeys(cs, keyOf, ks) == cs
  {
    if cs != [] {
      var n := |cs| - 1;
      assert cs == cs[..n] + [cs[n]];
      SelectKeysAll(cs[..n], keyOf, ks);
    }
  }

  lemma {:induction false} SelectKeysNone<K>(cs: seq<Change>, keyOf: Change -> K)
    ensures SelectKeys(cs, keyOf, {}) == []
  {
    if cs != [] {
      SelectKeysNone(cs[..|cs| - 1], keyOf);
    }
  }

  ghost function Keys<K(!new)>(gs: seq<Group<K>>): set<K> {
    set i | 0 <= i < |gs| :: gs[i].key
  }

  lemma {:induction false} FlattenCounts<K(!new)>(gs: seq<Group<K>>, cs: seq<Change>, keyOf: Change -> K)
    requires forall i :: 0 <= i < |gs| ==> gs[i].members == Select(cs, keyOf, gs[i].key)
    requires forall i, j :: 0 <= i < j < |gs| ==> gs[i].key != gs[j].key
    ensures multiset(Flatten(gs)) == multiset(SelectKeys(cs, keyOf, Keys(gs)))
  {
    if gs == [] {
      assert Keys(gs) == {};
      SelectKeysNone(cs, keyOf);
    } else {
      var n := |gs| - 1;
      FlattenCounts(gs[..n], cs, keyOf);
      assert Keys(gs) == Keys(gs[..n]) + {gs[n].key};
      SelectKeysSplit(cs, keyOf, Keys(gs[..n]), gs[n].key);
    }
  }

  /** Partitioning loses and invents nothing. */
  lemma {:induction false} PartitionConserves<K(!new)>(gs: seq<Group<K>>, cs: seq<Change>, keyOf: Change -> K)
    requires Partitions(gs, cs, keyOf)
    ensures multiset(Flatten(gs)) == multiset(cs)
  {
    FlattenCounts(gs, cs, keyOf);
    forall ch | ch in cs
      ensures keyOf(ch) in Keys(gs)
    {
      var i :| 0 <= i < |gs| && gs[i].key == keyOf(ch);
    }
    SelectKeysAll(cs, keyOf, Keys(gs));
  }

  lemma {:induction false} MinRankBounds(cs: seq<Change>)
    requires cs != []
    ensures forall ch :: ch in cs ==> MinRank(cs) <= Rank(ch.hlc)
    ensures exists ch :: ch in cs && MinRank(cs) == Rank(ch.hlc)
  {
    hide Rank;
    if |cs| == 1 {
      assert cs[0] in cs;
    } else {
      var n := |cs| - 1;
      MinRankBounds(cs[..n]);
      assert cs == cs[..n] + [cs[n]];
      var ch :| ch in cs[..n] && MinRank(cs[..n]) == Rank(ch.hlc);
      assert ch in cs && cs[n] in cs;
    }
  }

  /** Transaction groups hold one HLC each, so laying them out in order is ascending. */
  lemma {:induction false} FlattenAscends(gs: seq<Group<Hlc>>)
    requires GroupsAscend(gs)
    requires forall i, ch :: 0 <= i < |gs| && ch in gs[i].members ==> ch.hlc == gs[i].key
    ensures Ascending(Flatten(gs))
    ensures gs != [] ==> forall ch :: ch in Flatten(gs) ==> Rank(ch.hlc) <= MinRank(gs[|gs| - 1].members)
  {
    hide Rank;
    hide MinRank;
    if gs != [] {
      var n := |gs| - 1;
      var before, last := Flatten(gs[..n]), gs[n].members;
      FlattenAscends(gs[..n]);
      MinRankBounds(last);
      forall ch | ch in last ensures Rank(ch.hlc) == MinRank(last) {}
      if n > 0 {
        assert MinRank(gs[n - 1].members) <= MinRank(last);
      }
      AppendAscends(before, last, MinRank(last));
    }
  }

  lemma {:induction false} AppendAscends(before: seq<Change>, last: seq<Change>, rank: nat)
    requires Ascending(before) && (forall ch :: ch in before ==> Rank(ch.hlc) <= rank)
    requires forall ch :: ch in last ==> Rank(ch.hlc) == rank
    ensures Ascending(before + last)
    ensures forall ch :: ch in before + last ==> Rank(ch.hlc) <= rank
  {
    hide Rank;
    var all := before + last;
    forall i, j | 0 <= i < j < |all| ensures Rank(all[i].hlc) <= Rank(all[j].hlc) {
      if j >= |before| {
        assert all[j] in last;
        assert i < |before| ==> all[i] in before;
        assert i >= |before| ==> all[i] in last;
      }
    }
  }

  // ---------------------------------------------------------------------------------------
  // The grouping code
  // ---------------------------------------------------------------------------------------

  /** `map.entry(key).or_default().push(change)` over the batch. */
  method Collect<K(!new,==)>(cs: seq<Change>, keyOf: Change -> K) returns (m: map<K, seq<Change>>)
    ensures forall k :: k in m ==> m[k] == Select(cs, keyOf, k) != []
    ensures forall ch :: ch in cs ==> keyOf(ch) in m
  {
    m := map[];
    for i := 0 to |cs|
      invariant forall k :: k in m ==> m[k] == Select(cs[..i], keyOf, k) != []
      invariant forall ch :: ch in cs[..i] ==> keyOf(ch) in m
    {
      var k := keyOf(cs[i]);
      assert cs[..i + 1][..i] == cs[..i];
      if k !in m {
        SelectNone(cs[..i], keyOf, k);
      }
      m := m[k := (if k in m then m[k] else []) + [cs[i]]];
    }
    assert cs[..|cs|] == cs;
  }

  lemma {:induction false} InsertAscends<K>(gs: seq<Group<K>>, g: Group<K>, at: nat)
    requires g.members != [] && GroupsAscend(gs) && at <= |gs|
    requires at > 0 ==> MinRank(gs[at - 1].members) <= MinRank(g.members)
    requires forall i :: at <= i < |gs| ==> MinRank(g.members) <= MinRank(gs[i].members)
    ensures GroupsAscend(gs[..at] + [g] + gs[at..])
  {
    hide Rank;
    hide MinRank;
    var r := gs[..at] + [g] + gs[at..];
    forall i: nat | i < |r| ensures r[i].members != [] {
      InsertedAt(gs, g, at, i);
    }
    forall i: nat, j: nat | i < j < |r|
      ensures MinRank(r[i].members) <= MinRank(r[j].members)
    {
      InsertedAt(gs, g, at, i);
      InsertedAt(gs, g, at, j);
    }
  }

  /** `hlc_min` over a group's timestamps, which decides its place. */
  method LeastHlc(cs: seq<Change>) returns (h: Hlc)
    requires cs != []
    ensures Rank(h) == MinRank(cs)
  {
    hide Rank, MinRank;
    var hs := seq(|cs|, i requires 0 <= i < |cs| => cs[i].hlc);
    var r := HlcMin(hs);
    MinRankBounds(cs);
    ghost var ch :| ch in cs && MinRank(cs) == Rank(ch.hlc);
    ghost var k :| 0 <= k < |cs| && cs[k] == ch;
    assert hs[k] in hs && !Newer(r.value, hs[k]);
    ghost var j :| 0 <= j < |hs| && hs[j] == r.value;
    assert cs[j] in cs && Rank(cs[j].hlc) >= MinRank(cs);
    return r.value;
  }

  /** One insertion of the stable sort: after every entry that is not greater. */
  method InsertGroup<K(!new)>(gs: seq<Group<K>>, g: Group<K>) returns (r: seq<Group<K>>, at: nat)
    requires g.members != [] && GroupsAscend(gs)
    ensures at <= |gs| && r == gs[..at] + [g] + gs[at..]
    ensures GroupsAscend(r)
  {
    hide Rank, MinRank;
    at := |gs|;
    var least := LeastHlc(g.members);
    while at > 0
      invariant at <= |gs|
      invariant forall i :: at <= i < |gs| ==> MinRank(g.members) <= MinRank(gs[i].members)
    {
      var other := LeastHlc(gs[at - 1].members);
      if !Newer(other, least) {
        break;
      }
      at := at - 1;
    }
    r := gs[..at] + [g] + gs[at..];
    InsertAscends(gs, g, at);
  }

  ghost predicate EntriesOf<K(!new)>(gs: seq<Group<K>>, m: map<K, seq<Change>>, ks: set<K>) {
    && (forall i :: 0 <= i < |gs| ==> gs[i].key in m && gs[i].key in ks && gs[i].members == m[gs[i].key])
    && (forall i, j :: 0 <= i < j < |gs| ==> gs[i].key != gs[j].key)
    && (forall k :: k in ks ==> exists i :: 0 <= i < |gs| && gs[i].key == k)
  }

  lemma {:induction false} InsertedAt<K>(gs: seq<Group<K>>, g: Group<K>, at: nat, i: nat)
    requires at <= |gs| && i <= |gs|
    ensures (gs[..at] + [g] + gs[at..])[i] == if i < at then gs[i] else if i == at then g else gs[i - 1]
  {
  }

  lemma {:induction false} InsertKeepsEntries<K(!new)>(gs: seq<Group<K>>, m: map<K, seq<Change>>, ks: set<K>, k: K, at: nat)
    requires EntriesOf(gs, m, ks) && k in m && k !in ks && at <= |gs|
    ensures EntriesOf(gs[..at] + [Group(k, m[k])] + gs[at..], m, ks + {k})
  {
    hide Rank;
    var r := gs[..at] + [Group(k, m[k])] + gs[at..];
    forall i: nat | i < |r|
      ensures r[i].key in m && r[i].key in ks + {k} && r[i].members == m[r[i].key]
    {
      InsertedAt(gs, Group(k, m[k]), at, i);
    }
    forall i: nat, j: nat | i < j < |r|
      ensures r[i].key != r[j].key
    {
      InsertedAt(gs, Group(k, m[k]), at, i);
      InsertedAt(gs, Group(k, m[k]), at, j);
    }
    forall k' | k' in ks + {k}
      ensures exists i :: 0 <= i < |r| && r[i].key == k'
    {
      if k' == k {
        assert r[at].key == k';
      } else {
        var i :| 0 <= i < |gs| && gs[i].key == k';
        InsertedAt(gs, Group(k, m[k]), at, if i < at then i else i + 1);
      }
    }
  }

  /** `map.into_iter().collect()`, in whatever order, then the stable `sort_by`. A transaction's
      changes all carry its key, so ordering entries by their least HLC serves both callers. */
  method SortEntries<K(!new,==)>(m: map<K, seq<Change>>) returns (gs: seq<Group<K>>)
    requires forall k :: k in m ==> m[k] != []
    ensures EntriesOf(gs, m, m.Keys)
    ensures GroupsAscend(gs)
  {
    gs := [];
    var rest := m.Keys;
    while rest != {}
      invariant rest <= m.Keys
      invariant EntriesOf(gs, m, m.Keys - rest)
      invariant GroupsAscend(gs)
      decreases rest
    {
      var k :| k in rest;
      ghost var before := gs;
      var at;
      gs, at := InsertGroup(gs, Group(k, m[k]));
      InsertKeepsEntries(before, m, m.Keys - rest, k, at);
      assert m.Keys - rest + {k} == m.Keys - (rest - {k});
      rest := rest - {k};
    }
    assert m.Keys - rest == m.Keys;
  }

  /** Sender transactions in ascending HLC order, flattened again as the caller does. */
  method GroupByTransactionHlc(cs: seq<Change>) returns (gs: seq<Group<Hlc>>)
    ensures Partitions(gs, cs, TransactionOf)
    ensures multiset(Flatten(gs)) == multiset(cs)
    ensures Ascending(Flatten(gs))
  {
    var m := Collect(cs, TransactionOf);
    gs := SortEntries(m);
    PartitionConserves(gs, cs, TransactionOf);
    forall i, ch | 0 <= i < |gs| && ch in gs[i].members
      ensures ch.hlc == gs[i].key
    {
      SelectMembers(cs, TransactionOf, gs[i].key);
    }
    FlattenAscends(gs);
  }

  /** The rows of an ascending list, by ascending least HLC. */
  method GroupRowChangesInHlcOrder(cs: seq<Change>) returns (gs: seq<Group<RowKey>>)
    ensures Partitions(gs, cs, RowKeyOf)
    ensures GroupsAscend(gs)
    ensures Ascending(cs) ==> RowGrouping(cs, gs)
  {
    var m := Collect(cs, RowKeyOf);
    gs := SortEntries(m);
    PartitionConserves(gs, cs, RowKeyOf);
    forall i | 0 <= i < |gs|
      ensures Ascending(cs) ==> Ascending(gs[i].members)
      ensures forall ch :: ch in gs[i].members ==> RowKeyOf(ch) == gs[i].key
    {
      SelectMembers(cs, RowKeyOf, gs[i].key);
      if Ascending(cs) {
        SelectAscends(cs, RowKeyOf, gs[i].key);
      }
    }
  }

  /** Both groupings in a row, as `apply_remote_changes_to_db` runs them. */
  method GroupBatch(cs: seq<Change>) returns (gs: seq<Group<RowKey>>)
    ensures RowGrouping(cs, gs)
  {
    var transactions := GroupByTransactionHlc(cs);
    gs := GroupRowChangesInHlcOrder(Flatten(transactions));
  }
}
