/**
  The transaction-scoped HLC: `ConnectionContext` (`src-tauri/src/database/connection_context.rs`)
  on top of `HlcService` (`src-tauri/src/crdt/hlc.rs:230-272`). uhlc itself is represented by
  its contract: new timestamps strictly increase, and an update either rejects a timestamp too
  far ahead or moves past it.
 */
module TxHlc {
  import opened Wrappers
  import opened HlcText

  // ---------------------------------------------------------------------------------------
  // The state machine
  // ---------------------------------------------------------------------------------------

  /** Slot, write mark, and the clock's last time; `ready` once the clock is initialised. */
  datatype State = State(slot: Option<Timestamp>, writePending: bool, ready: bool, last: nat)

  /** `now` is the physical clock's reading. */
  datatype Event =
    | Draw(now: nat)
    | MarkWrite
    | Reset
    | Advance(remote: Timestamp, now: nat)

  /** How far ahead of the physical clock a remote timestamp may be (one second). */
  const MAX_DELTA: nat := 0x1_0000_0000

  predicate Accepts(remote: Timestamp, now: nat) {
    remote.time <= now + MAX_DELTA
  }

  function NextTime(last: nat, now: nat): nat {
    if now > last then now else last + 1
  }

  function AdvancedTime(last: nat, remote: Timestamp, now: nat): nat {
    if now >= remote.time && now >= last then now
    else if remote.time >= last then remote.time + 1
    else last + 1
  }

  /** A draw reuses the slot only after a write mark. */
  predicate Pinned(s: State) {
    s.writePending && s.slot.Some?
  }

  function Output(node: nat, s: State, e: Event): Option<Timestamp> {
    match e
    case Draw(now) =>
      if Pinned(s) then s.slot
      else if s.ready then Some(Timestamp(NextTime(s.last, now), node))
      else None
    case _ => None
  }

  function Next(node: nat, s: State, e: Event): State {
    match e
    case Draw(now) =>
      if Pinned(s) || !s.ready then s
      else s.(slot := Some(Timestamp(NextTime(s.last, now), node)), last := NextTime(s.last, now))
    case MarkWrite => s.(writePending := true)
    case Reset => s.(slot := None, writePending := false)
    case Advance(remote, now) =>
      if s.ready && Accepts(remote, now) then s.(last := AdvancedTime(s.last, remote, now)) else s
  }

  function After(node: nat, s: State, es: seq<Event>): State {
    if es == [] then s else Next(node, After(node, s, es[..|es| - 1]), es[|es| - 1])
  }

  /** What the `i`-th event of a run returns. */
  function Out(node: nat, s: State, es: seq<Event>, i: nat): Option<Timestamp>
    requires i < |es|
  {
    Output(node, After(node, s, es[..i]), es[i])
  }

  predicate NoReset(es: seq<Event>, from: nat, to: nat)
    requires from <= to <= |es|
  {
    forall k :: from <= k < to ==> es[k] != Reset
  }

  // ---------------------------------------------------------------------------------------
  // The objects
  // ---------------------------------------------------------------------------------------

  class HlcService {
    var ready: bool
    var last: nat
    const node: nat

    constructor (node: nat)
      ensures this.node == node && ready && last == 0
    {
      this.node := node;
      ready := true;
      last := 0;
    }

    method NewTimestamp(now: nat) returns (r: Option<Timestamp>)
      modifies this
      ensures ready == old(ready)
      ensures r.Some? <==> ready
      ensures r.Some? ==> last > old(last) && last >= now && r == Some(Timestamp(last, node)) && last == NextTime(old(last), now)
      ensures r.None? ==> last == old(last)
      ensures r.Some? && now > old(last) ==> last == now
    {
      if !ready {
        return None;
      }
      last := NextTime(last, now);
      return Some(Timestamp(last, node));
    }

    /** A rejected update is only logged. */
    method AdvancePastRemote(remote: Timestamp, now: nat)
      modifies this
      ensures ready == old(ready)
      ensures last == if ready && Accepts(remote, now) then AdvancedTime(old(last), remote, now) else old(last)
      ensures ready && Accepts(remote, now) ==> last >= remote.time && last >= old(last) && last >= now
    {
      if ready && Accepts(remote, now) {
        last := AdvancedTime(last, remote, now);
      }
    }
  }

  /** `Timestamp::from_str` as uhlc promises it: it reads back what uhlc prints. */
  ghost predicate ReadsPrinted(parse: string -> Option<Timestamp>) {
    forall t: Timestamp :: t.Valid() ==> parse(Print(t)) == Some(t)
  }

  predicate IsPrinted(h: string, t: Timestamp) {
    t.Valid() && h == Print(t)
  }

  /** Some timestamp of the batch is too far ahead to be accepted. */
  ghost predicate FarAhead(batch: seq<string>, now: nat) {
    exists h, t :: h in batch && IsPrinted(h, t) && !Accepts(t, now)
  }

  ghost predicate AllPrinted(batch: seq<string>) {
    forall h :: h in batch ==> exists t :: IsPrinted(h, t)
  }

  /** The newest timestamp of a batch decides for all of them. */
  lemma {:induction false} NewestDecides(batch: seq<string>, max: Timestamp, now: nat)
    requires max.Valid() && Print(max) in batch && forall h :: h in batch ==> !Newer(h, Print(max))
    ensures forall h, t :: h in batch && IsPrinted(h, t) ==> t.time <= max.time
    ensures Accepts(max, now) <==> !FarAhead(batch, now)
  {
    hide Rank;
    forall h, t | h in batch && IsPrinted(h, t) ensures t.time <= max.time {
      OrderIsomorphism(t, max);
      CompareIsRank(Print(t), Print(max));
    }
    assert IsPrinted(Print(max), max);
  }

  /** The end of a successful apply: the clock moves past the timestamp the sync backend reported, or
      else past the newest of the batch. One timestamp too far ahead keeps it from moving past any. */
  method AdvancePastBatch(clock: HlcService, parse: string -> Option<Timestamp>, batch: seq<string>,
                          reported: Option<string>, now: nat)
    requires ReadsPrinted(parse)
    modifies clock
    ensures clock.ready == old(clock.ready) && clock.last >= old(clock.last)
    ensures (reported.None? || reported.value == "") && AllPrinted(batch) && clock.ready ==>
              if FarAhead(batch, now) then clock.last == old(clock.last)
              else forall h, t :: h in batch && IsPrinted(h, t) ==> clock.last >= t.time
    ensures forall t :: reported.Some? && IsPrinted(reported.value, t) && clock.ready ==>
              if Accepts(t, now) then clock.last >= t.time else clock.last == old(clock.last)
  {
    hide Rank;
    var newest: string;
    if reported.Some? && reported.value != "" {
      newest := reported.value;
    } else {
      var max := HlcMax(batch);
      newest := if max.Some? then max.value else "";
      if max.Some? && AllPrinted(batch) {
        assert newest in batch;
        ghost var t :| IsPrinted(newest, t);
        NewestDecides(batch, t, now);
      }
    }
    if newest == "" {
      return;
    }
    var read := parse(newest);
    if read.Some? {
      clock.AdvancePastRemote(read.value, now);
    }
  }

  class ConnectionContext {
    var txHlcSlot: Option<Timestamp>
    var writePending: bool
    const hlc: HlcService

    ghost function View(): State
      reads this, hlc
    {
      State(txHlcSlot, writePending, hlc.ready, hlc.last)
    }

    constructor (hlc: HlcService)
      ensures this.hlc == hlc && View() == State(None, false, hlc.ready, hlc.last)
    {
      this.hlc := hlc;
      txHlcSlot, writePending := None, false;
    }

    method CurrentOrNewTxHlc(now: nat) returns (r: Option<Timestamp>)
      modifies this, hlc
      ensures r == Output(hlc.node, old(View()), Draw(now))
      ensures View() == Next(hlc.node, old(View()), Draw(now))
    {
      if writePending {
        if txHlcSlot.Some? {
          return txHlcSlot;
        }
      }
      r := hlc.NewTimestamp(now);
      if r.Some? {
        txHlcSlot := r;
      }
    }

    method MarkWritePending()
      modifies this
      ensures View() == Next(hlc.node, old(View()), MarkWrite)
    {
      writePending := true;
    }

    method ResetTxSlot()
      modifies this
      ensures View() == Next(hlc.node, old(View()), Reset)
    {
      txHlcSlot := None;
      writePending := false;
    }
  }

  // ---------------------------------------------------------------------------------------
  // Runs
  // ---------------------------------------------------------------------------------------

  lemma {:induction false} AfterSplit(node: nat, s: State, es: seq<Event>, k: nat)
    requires k <= |es|
    ensures After(node, s, es) == After(node, After(node, s, es[..k]), es[k..])
  {
    if k == |es| {
      assert es[..k] == es && es[k..] == [];
    } else {
      var n := |es| - 1;
      AfterSplit(node, s, es[..n], k);
      assert es[..n][..k] == es[..k] && es[..n][k..] == es[k..][..n - k];
      assert es[k..][n - k] == es[n];
    }
  }

  /** Between a pinned state and the next reset nothing moves the slot. */
  lemma {:induction false} PinnedStays(node: nat, s: State, es: seq<Event>)
    requires Pinned(s) && NoReset(es, 0, |es|)
    ensures Pinned(After(node, s, es)) && After(node, s, es).slot == s.slot
  {
    if es != [] {
      assert NoReset(es[..|es| - 1], 0, |es| - 1);
      PinnedStays(node, s, es[..|es| - 1]);
    }
  }

  lemma {:induction false} MarkStays(node: nat, s: State, es: seq<Event>)
    requires s.writePending && NoReset(es, 0, |es|)
    ensures After(node, s, es).writePending
  {
    if es != [] {
      assert NoReset(es[..|es| - 1], 0, |es| - 1);
      MarkStays(node, s, es[..|es| - 1]);
    }
  }

  lemma {:induction false} SlotStaysUndrawn(node: nat, s: State, es: seq<Event>)
    requires NoReset(es, 0, |es|) && forall k :: 0 <= k < |es| ==> !es[k].Draw?
    ensures After(node, s, es).slot == s.slot
  {
    if es != [] {
      assert NoReset(es[..|es| - 1], 0, |es| - 1);
      SlotStaysUndrawn(node, s, es[..|es| - 1]);
    }
  }

  lemma {:induction false} AfterStep(node: nat, s: State, es: seq<Event>, i: nat)
    requires i < |es|
    ensures After(node, s, es[..i + 1]) == Next(node, After(node, s, es[..i]), es[i])
  {
    assert es[..i + 1][..i] == es[..i];
  }

  /** The states at `i` and at a later `j` of one run. */
  lemma {:induction false} AfterFrom(node: nat, s: State, es: seq<Event>, i: nat, j: nat)
    requires i <= j <= |es|
    ensures After(node, s, es[..j]) == After(node, After(node, s, es[..i]), es[i..j])
  {
    AfterSplit(node, s, es[..j], i);
    assert es[..j][..i] == es[..i] && es[..j][i..] == es[i..j];
  }

  /** All draws between a write mark and the next reset return the same timestamp. */
  lemma {:induction false} OneHlcPerTransaction(node: nat, s: State, es: seq<Event>, m: nat, i: nat, j: nat)
    requires m < i < j < |es| && es[m] == MarkWrite && es[i].Draw? && es[j].Draw? && NoReset(es, m, j)
    requires Out(node, s, es, i).Some?
    ensures Out(node, s, es, j) == Out(node, s, es, i)
  {
    AfterStep(node, s, es, m);
    AfterFrom(node, s, es, m + 1, i);
    MarkStays(node, After(node, s, es[..m + 1]), es[m + 1..i]);
    AfterStep(node, s, es, i);
    AfterFrom(node, s, es, i + 1, j);
    PinnedStays(node, After(node, s, es[..i + 1]), es[i + 1..j]);
  }

  /** If the transaction drew before its first write, that last draw is the pinned value. */
  lemma {:induction false} PinsTheLastDraw(node: nat, s: State, es: seq<Event>, d: nat, m: nat, i: nat)
    requires d < m < i < |es| && es[d].Draw? && es[m] == MarkWrite && es[i].Draw? && NoReset(es, d, i)
    requires (forall k :: d < k < m ==> !es[k].Draw?) && Out(node, s, es, d).Some?
    ensures Out(node, s, es, i) == Out(node, s, es, d)
  {
    AfterStep(node, s, es, d);
    AfterFrom(node, s, es, d + 1, m);
    SlotStaysUndrawn(node, After(node, s, es[..d + 1]), es[d + 1..m]);
    AfterStep(node, s, es, m);
    AfterFrom(node, s, es, m + 1, i);
    PinnedStays(node, After(node, s, es[..m + 1]), es[m + 1..i]);
  }

  /** The slot never runs ahead of the clock. */
  ghost predicate Sound(s: State) {
    s.slot.Some? ==> s.slot.value.time <= s.last
  }

  lemma {:induction false} SoundRun(node: nat, s: State, es: seq<Event>)
    requires Sound(s)
    ensures Sound(After(node, s, es)) && s.last <= After(node, s, es).last
  {
    if es != [] {
      SoundRun(node, s, es[..|es| - 1]);
    }
  }

  /** After a reset every slot value is newer than everything before the reset. */
  lemma {:induction false} FreshAfterReset(node: nat, s: State, es: seq<Event>, floor: nat)
    requires floor <= s.last && (s.slot.Some? ==> s.slot.value.time > floor)
    ensures var end := After(node, s, es); floor <= end.last && (end.slot.Some? ==> end.slot.value.time > floor)
  {
    if es != [] {
      FreshAfterReset(node, s, es[..|es| - 1], floor);
    }
  }

  /** Transactions are ordered by their timestamps: whatever a transaction returns is newer than
      everything returned before the reset that precedes it, probes and remote advances
      notwithstanding. */
  lemma {:induction false} TransactionsIncrease(node: nat, s: State, es: seq<Event>, i: nat, r: nat, j: nat)
    requires Sound(s) && i < r < j < |es| && es[r] == Reset
    requires Out(node, s, es, i).Some? && Out(node, s, es, j).Some?
    ensures CompareTimestamps(Out(node, s, es, j).value, Out(node, s, es, i).value) == Greater
  {
    SoundRun(node, s, es[..i]);
    AfterStep(node, s, es, i);
    AfterFrom(node, s, es, i + 1, r);
    SoundRun(node, s, es[..i + 1]);
    SoundRun(node, After(node, s, es[..i + 1]), es[i + 1..r]);
    AfterStep(node, s, es, r);
    AfterFrom(node, s, es, r + 1, j);
    FreshAfterReset(node, After(node, s, es[..r + 1]), es[r + 1..j], After(node, s, es[..r + 1]).last);
  }

  /** Without a write mark the flag stays down. */
  lemma {:induction false} StaysUnmarked(node: nat, s: State, es: seq<Event>)
    requires !s.writePending && forall k :: 0 <= k < |es| ==> es[k] != MarkWrite
    ensures !After(node, s, es).writePending
  {
    if es != [] {
      StaysUnmarked(node, s, es[..|es| - 1]);
    }
  }

  /** A draw of a transaction that has not written yet, `r` being where it began, is fresh: newer than
      everything returned before, so a read-only probe never repeats a timestamp. */
  lemma {:induction false} UnmarkedDrawIsFresh(node: nat, s: State, es: seq<Event>, i: nat, r: nat, j: nat)
    requires Sound(s) && i < j < |es| && r <= j && es[j].Draw?
    requires if r == 0 then !s.writePending else es[r - 1] == Reset
    requires forall k :: r <= k < j ==> es[k] != MarkWrite
    requires Out(node, s, es, i).Some? && Out(node, s, es, j).Some?
    ensures CompareTimestamps(Out(node, s, es, j).value, Out(node, s, es, i).value) == Greater
  {
    if r > 0 {
      AfterStep(node, s, es, r - 1);
    } else {
      assert es[..0] == [];
    }
    AfterFrom(node, s, es, r, j);
    StaysUnmarked(node, After(node, s, es[..r]), es[r..j]);
    SoundRun(node, s, es[..i]);
    AfterStep(node, s, es, i);
    SoundRun(node, s, es[..i + 1]);
    AfterFrom(node, s, es, i + 1, j);
    SoundRun(node, After(node, s, es[..i + 1]), es[i + 1..j]);
  }

  /** A remote timestamp too far ahead leaves no trace. */
  lemma {:induction false} RejectedAdvanceIsIgnored(node: nat, s: State, remote: Timestamp, now: nat)
    requires remote.time > now + 0x1_0000_0000
    ensures Next(node, s, Advance(remote, now)) == s
  {
  }

  lemma {:induction false} ReadyStays(node: nat, s: State, es: seq<Event>)
    ensures After(node, s, es).ready == s.ready
  {
    if es != [] {
      ReadyStays(node, s, es[..|es| - 1]);
    }
  }

  /** The draw at `d` takes a new timestamp instead of the pinned one. */
  predicate DrawsAnew(node: nat, s: State, es: seq<Event>, d: nat)
    requires d < |es|
  {
    es[d].Draw? && !Pinned(After(node, s, es[..d]))
  }

  /** Without a new draw the slot stays, or a reset empties it for good. */
  lemma {:induction false} SlotWithoutNewDraw(node: nat, s: State, es: seq<Event>, a: nat, j: nat)
    requires a <= j <= |es| && forall d :: a <= d < j ==> !DrawsAnew(node, s, es, d)
    ensures After(node, s, es[..j]).slot == After(node, s, es[..a]).slot || After(node, s, es[..j]).slot == None
  {
    if a < j {
      SlotWithoutNewDraw(node, s, es, a, j - 1);
      AfterStep(node, s, es, j - 1);
      assert !DrawsAnew(node, s, es, j - 1);
    }
  }

  lemma {:induction false} NewDrawIsBeyond(node: nat, s: State, es: seq<Event>, a: nat, d: nat, j: nat)
    requires a < d <= j < |es| && es[a].Advance? && DrawsAnew(node, s, es, d)
    requires After(node, s, es[..a]).ready && Accepts(es[a].remote, es[a].now)
    requires Out(node, s, es, j).Some?
    ensures Out(node, s, es, j).value.time > es[a].remote.time
  {
    var floor := es[a].remote.time;
    AfterStep(node, s, es, a);
    AfterFrom(node, s, es, a + 1, d);
    ClockNeverFalls(node, After(node, s, es[..a + 1]), es[a + 1..d]);
    ReadyStays(node, After(node, s, es[..a + 1]), es[a + 1..d]);
    AfterStep(node, s, es, d);
    if d < j {
      AfterFrom(node, s, es, d + 1, j);
      FreshAfterReset(node, After(node, s, es[..d + 1]), es[d + 1..j], floor);
    }
  }

  lemma {:induction false} ClockNeverFalls(node: nat, s: State, es: seq<Event>)
    ensures s.last <= After(node, s, es).last
  {
    if es != [] {
      ClockNeverFalls(node, s, es[..|es| - 1]);
    }
  }

  /** After an accepted remote timestamp at `a`, a draw at `j` returns a timestamp beyond it exactly
      when some draw since then took a new one, or the slot was beyond it already. */
  lemma {:induction false} BeyondRemote(node: nat, s: State, es: seq<Event>, a: nat, j: nat)
    requires a < j < |es| && es[a].Advance? && es[j].Draw?
    requires After(node, s, es[..a]).ready && Accepts(es[a].remote, es[a].now)
    ensures Out(node, s, es, j).Some?
    ensures var slot := After(node, s, es[..a]).slot;
            Out(node, s, es, j).value.time > es[a].remote.time
            <==> (exists d :: a < d <= j && DrawsAnew(node, s, es, d))
                 || (slot.Some? && slot.value.time > es[a].remote.time)
  {
    AfterStep(node, s, es, a);
    AfterFrom(node, s, es, a + 1, j);
    ReadyStays(node, After(node, s, es[..a + 1]), es[a + 1..j]);
    if d :| a < d <= j && DrawsAnew(node, s, es, d) {
      NewDrawIsBeyond(node, s, es, a, d, j);
    } else {
      assert !DrawsAnew(node, s, es, j);
      SlotWithoutNewDraw(node, s, es, a + 1, j);
    }
  }

  /** Once the clock has reached a timestamp, in every run each new draw is beyond it. */
  lemma {:induction false} NewDrawsStayBeyond(node: nat, s: State, es: seq<Event>, j: nat, t: Timestamp)
    requires s.ready && s.last >= t.time && j < |es| && DrawsAnew(node, s, es, j)
    ensures Out(node, s, es, j).Some? && CompareTimestamps(Out(node, s, es, j).value, t) == Greater
  {
    ClockNeverFalls(node, s, es[..j]);
    ReadyStays(node, s, es[..j]);
  }

  /** The failing case of `AdvancePastBatch`: a batch with an acceptable timestamp and one too far
      ahead. Only the newest is offered to the clock, which rejects it, and the next draw is older
      than the acceptable one. */
  lemma {:induction false} FarTimestampBlocksBatch(node: nat, near: Timestamp, far: Timestamp)
    requires near == Timestamp(5, 1) && far == Timestamp(0x1_0000_0001, 1)
    ensures FarAhead([Print(near), Print(far)], 0) && Accepts(near, 0) && Newer(Print(far), Print(near))
    ensures var s, es := State(None, false, true, 0), [Advance(far, 0), Draw(0)];
            Out(node, s, es, 1).Some? && CompareTimestamps(Out(node, s, es, 1).value, near) == Less
  {
    OrderIsomorphism(far, near);
    CompareIsRank(Print(far), Print(near));
    hide Rank, Print;
    assert IsPrinted(Print(far), far) && Print(far) in [Print(near), Print(far)];
    var s, es := State(None, false, true, 0), [Advance(far, 0), Draw(0)];
    AfterStep(node, s, es, 0);
    assert es[..0] == [];
  }

  /** The failing case: a read-only probe before the remote timestamp arrives is
      what a later write gets pinned to. */
  lemma {:induction false} StaleProbe(node: nat, s: State, remote: Timestamp, now: nat)
    requires s.ready && !s.writePending && Accepts(remote, now) && remote.time > NextTime(s.last, now)
    ensures var es := [Draw(now), Advance(remote, now), MarkWrite, Draw(now)];
            Out(node, s, es, 3).Some? && Out(node, s, es, 3).value.time < remote.time
  {
    var es := [Draw(now), Advance(remote, now), MarkWrite, Draw(now)];
    assert es[..0] == [];
    AfterStep(node, s, es, 0);
    AfterStep(node, s, es, 1);
    AfterStep(node, s, es, 2);
  }
}
