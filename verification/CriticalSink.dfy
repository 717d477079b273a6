/**
  The critical-notification table (`src-tauri/src/critical/sink.rs:159-253`) with its unique
  index on (code, location, acknowledged).
 */
module CriticalSink {
  import opened Wrappers

  type Id = string

  datatype Notification = Notification(
    code: string, location: string, params: string, count: nat, firstSeen: int, lastSeen: int, acknowledged: bool)

  type Rows = map<Id, Notification>

  predicate IsFor(n: Notification, code: string, location: string, acknowledged: bool) {
    n.code == code && n.location == location && n.acknowledged == acknowledged
  }

  /** The unique index. */
  ghost predicate Unique(rows: Rows) {
    forall a, b :: a in rows && b in rows && IsFor(rows[a], rows[b].code, rows[b].location, rows[b].acknowledged)
      ==> a == b
  }

  /** One statement; `id` of an emit is its fresh UUID, `granted` whether an acknowledge went
      through. */
  datatype Event =
    | Emit(id: Id, code: string, location: string, params: string, now: int)
    | Acknowledge(id: Id, granted: bool)
    | Cleanup(cutoff: int)

  /** The UPDATE of an acknowledge collides when the pair has an acknowledged row already. */
  ghost predicate Collides(rows: Rows, id: Id) {
    id in rows && exists other :: other in rows && other != id && IsFor(rows[other], rows[id].code, rows[id].location, true)
  }

  ghost predicate Possible(rows: Rows, e: Event) {
    match e
    case Emit(id, _, _, _, _) => id !in rows
    case Acknowledge(id, granted) => granted <==> !Collides(rows, id)
    case Cleanup(_) => true
  }

  ghost function After(rows: Rows, e: Event): Rows {
    match e
    case Emit(id, code, location, params, now) =>
      if k :| k in rows && IsFor(rows[k], code, location, false)
      then rows[k := rows[k].(count := rows[k].count + 1, lastSeen := now, params := params)]
      else rows[id := Notification(code, location, params, 1, now, now, false)]
    case Acknowledge(id, granted) =>
      if id in rows && granted then rows[id := rows[id].(acknowledged := true)] else rows
    case Cleanup(cutoff) => map id | id in rows && rows[id].lastSeen >= cutoff :: rows[id]
  }

  class Sink {
    var rows: Rows

    ghost predicate Valid()
      reads this
    {
      Unique(rows)
    }

    constructor ()
      ensures Valid() && rows == map[]
    {
      rows := map[];
    }

    /** The UPSERT; `id` is a fresh UUID. */
    method Emit(id: Id, code: string, location: string, params: string, now: int)
      requires Valid() && id !in rows
      modifies this
      ensures Valid() && rows == After(old(rows), Event.Emit(id, code, location, params, now))
    {
      StepKeepsUnique(rows, Event.Emit(id, code, location, params, now));
      if k :| k in rows && IsFor(rows[k], code, location, false) {
        rows := rows[k := rows[k].(count := rows[k].count + 1, lastSeen := now, params := params)];
      } else {
        rows := rows[id := Notification(code, location, params, 1, now, now, false)];
      }
    }

    /** `None` is the constraint error; otherwise the number of rows updated. */
    method Acknowledge(id: Id) returns (r: Option<nat>)
      requires Valid()
      modifies this
      ensures Valid() && rows == After(old(rows), Event.Acknowledge(id, r.Some?))
      ensures r.None? <==> Collides(old(rows), id)
      ensures r.Some? ==> r.value == if id in old(rows) then 1 else 0
    {
      StepKeepsUnique(rows, Event.Acknowledge(id, !Collides(rows, id)));
      if id !in rows {
        return Some(0);
      }
      if other :| other in rows && other != id && IsFor(rows[other], rows[id].code, rows[id].location, true) {
        return None;
      }
      rows := rows[id := rows[id].(acknowledged := true)];
      return Some(1);
    }

    method Cleanup(cutoff: int) returns (deleted: nat)
      requires Valid()
      modifies this
      ensures Valid() && rows == After(old(rows), Event.Cleanup(cutoff))
      ensures deleted == |old(rows)| - |rows|
      ensures forall id :: id in rows <==> id in old(rows) && old(rows)[id].lastSeen >= cutoff
      ensures forall id :: id in rows ==> rows[id] == old(rows)[id]
    {
      StepKeepsUnique(rows, Event.Cleanup(cutoff));
      var left := map id | id in rows && rows[id].lastSeen >= cutoff :: rows[id];
      SmallerMap(left, rows);
      deleted := |rows| - |left|;
      rows := left;
    }

    /** The banner row: unacknowledged, and seen last. */
    method NewestUnacked() returns (r: Option<Id>)
      ensures r.None? <==> forall id :: id in rows ==> rows[id].acknowledged
      ensures r.Some? ==> r.value in rows && !rows[r.value].acknowledged
      ensures r.Some? ==> forall id :: id in rows && !rows[id].acknowledged ==> rows[id].lastSeen <= rows[r.value].lastSeen
    {
      r := None;
      var rest := rows.Keys;
      while rest != {}
        invariant rest <= rows.Keys
        invariant r.None? <==> forall id :: id in rows && id !in rest ==> rows[id].acknowledged
        invariant r.Some? ==> r.value in rows && !rows[r.value].acknowledged
        invariant r.Some? ==> forall id :: id in rows && id !in rest && !rows[id].acknowledged
                                ==> rows[id].lastSeen <= rows[r.value].lastSeen
        decreases rest
      {
        var id :| id in rest;
        if !rows[id].acknowledged && (r.None? || rows[r.value].lastSeen < rows[id].lastSeen) {
          r := Some(id);
        }
        rest := rest - {id};
      }
    }
  }

  // ---------------------------------------------------------------------------------------
  // Runs
  // ---------------------------------------------------------------------------------------

  lemma {:induction false} SmallerMap(part: Rows, whole: Rows)
    requires part.Keys <= whole.Keys
    ensures |part| <= |whole|
  {
    assert whole.Keys == part.Keys + (whole.Keys - part.Keys);
  }

  lemma {:induction false} StepKeepsUnique(rows: Rows, e: Event)
    requires Unique(rows) && Possible(rows, e)
    ensures Unique(After(rows, e))
  {
  }

  /** Reference: what a pair's banner should show, from the history of events alone. */
  datatype Tally = Tally(id: Id, firstSeen: int, lastSeen: int, count: nat, params: string)

  function Ledger(events: seq<Event>, code: string, location: string): Option<Tally> {
    if events == [] then None
    else
      var before := Ledger(events[..|events| - 1], code, location);
      match events[|events| - 1]
      case Emit(id, c, l, params, now) =>
        if c != code || l != location then before
        else if before.None? then Some(Tally(id, now, now, 1, params))
        else Some(before.value.(count := before.value.count + 1, lastSeen := now, params := params))
      case Acknowledge(id, granted) =>
        if granted && before.Some? && before.value.id == id then None else before
      case Cleanup(cutoff) => if before.Some? && before.value.lastSeen < cutoff then None else before
  }

  ghost predicate Run(states: seq<Rows>, events: seq<Event>) {
    && |states| == |events| + 1 && states[0] == map[]
    && forall i :: 0 <= i < |events| ==> Possible(states[i], events[i]) && states[i + 1] == After(states[i], events[i])
  }

  /** The pair's unacknowledged row is exactly the tally. */
  ghost predicate Shows(rows: Rows, code: string, location: string, t: Option<Tally>) {
    match t
    case None => forall k :: k in rows ==> !IsFor(rows[k], code, location, false)
    case Some(t) => t.id in rows && rows[t.id] == Notification(code, location, t.params, t.count, t.firstSeen, t.lastSeen, false)
  }

  lemma {:induction false} StepFollowsLedger(rows: Rows, events: seq<Event>, code: string, location: string)
    requires events != [] && Unique(rows) && Possible(rows, events[|events| - 1])
    requires Shows(rows, code, location, Ledger(events[..|events| - 1], code, location))
    ensures Shows(After(rows, events[|events| - 1]), code, location, Ledger(events, code, location))
  {
    var e, before := events[|events| - 1], Ledger(events[..|events| - 1], code, location);
    match e
    case Emit(id, c, l, params, now) =>
      if c == code && l == location && before.Some? {
        assert IsFor(rows[before.value.id], code, location, false);
      }
    case Acknowledge(id, granted) =>
    case Cleanup(cutoff) =>
  }

  /** Over every run there is at most one row per (code, location, acknowledged), and a pair has
      an unacknowledged row exactly when it was emitted since it was last acknowledged or
      cleaned; that row counts those emits, keeps the first one's id and time, and shows the last
      one's parameters. */
  lemma {:induction false} RunFollowsLedger(states: seq<Rows>, events: seq<Event>, code: string, location: string)
    requires Run(states, events)
    ensures Unique(states[|events|])
    ensures Shows(states[|events|], code, location, Ledger(events, code, location))
  {
    if events != [] {
      var n := |events| - 1;
      RunFollowsLedger(states[..n + 1], events[..n], code, location);
      StepKeepsUnique(states[n], events[n]);
      StepFollowsLedger(states[n], events, code, location);
    }
  }

  /** An acknowledged row stays as it is under every statement but a cleanup beyond it. */
  lemma {:induction false} StepKeepsAcknowledged(rows: Rows, e: Event, id: Id)
    requires Possible(rows, e) && id in rows && rows[id].acknowledged
    requires e.Cleanup? ==> e.cutoff <= rows[id].lastSeen
    ensures id in After(rows, e) && After(rows, e)[id] == rows[id]
  {
  }

  /** A granted acknowledge keeps the row, with nothing but the flag changed, until a cleanup goes
      beyond the time it was last seen, whatever else is emitted, acknowledged or cleaned. */
  lemma {:induction false} AcknowledgedRowStays(states: seq<Rows>, events: seq<Event>, i: nat, n: nat, id: Id)
    requires Run(states, events) && i < n <= |events| && events[i] == Acknowledge(id, true) && id in states[i]
    requires forall k :: i < k < n && events[k].Cleanup? ==> events[k].cutoff <= states[i][id].lastSeen
    ensures id in states[n] && states[n][id] == states[i][id].(acknowledged := true)
  {
    if n == i + 1 {
      assert states[i + 1] == After(states[i], events[i]);
    } else {
      AcknowledgedRowStays(states, events, i, n - 1, id);
      assert states[n - 1 + 1] == After(states[n - 1], events[n - 1]) && Possible(states[n - 1], events[n - 1]);
      StepKeepsAcknowledged(states[n - 1], events[n - 1], id);
    }
  }

  /** While that row stays, the pair cannot be acknowledged again: whatever row the next emits bring
      up, acknowledging it fails. */
  lemma {:induction false} SecondAcknowledgeFails(states: seq<Rows>, events: seq<Event>, i: nat, n: nat, id: Id, next: Id)
    requires Run(states, events) && i < n < |events| && events[i] == Acknowledge(id, true) && id in states[i]
    requires forall k :: i < k < n && events[k].Cleanup? ==> events[k].cutoff <= states[i][id].lastSeen
    requires events[n].Acknowledge? && events[n].id == next && next in states[n] && next != id
    requires states[n][next].code == states[i][id].code && states[n][next].location == states[i][id].location
    ensures !events[n].granted
  {
    AcknowledgedRowStays(states, events, i, n, id);
    assert Possible(states[n], events[n]);
    assert IsFor(states[n][id], states[n][next].code, states[n][next].location, true);
  }

  /** Such a run: emit, acknowledge, emit again, and the second acknowledge fails. */
  lemma {:induction false} BannerCannotBeDismissedTwice() returns (states: seq<Rows>)
    ensures var events := [Emit("1", "code", "place", "", 5), Acknowledge("1", true),
                           Emit("2", "code", "place", "", 6), Acknowledge("2", false)];
            Run(states, events) && "2" in states[4] && !states[4]["2"].acknowledged
  {
    assert "1"[0] != "2"[0];
    var one := Notification("code", "place", "", 1, 5, 5, false);
    var two := Notification("code", "place", "", 1, 6, 6, false);
    var rows1: Rows := map["1" := one];
    var rows2: Rows := map["1" := one.(acknowledged := true)];
    var rows3: Rows := rows2["2" := two];
    states := [map[], rows1, rows2, rows3, rows3];
    assert After(map[], Emit("1", "code", "place", "", 5)) == rows1;
    assert rows1["1" := one.(acknowledged := true)] == rows2;
    assert !Collides(rows1, "1");
    assert IsFor(rows3["1"], rows3["2"].code, rows3["2"].location, true);
  }
}
