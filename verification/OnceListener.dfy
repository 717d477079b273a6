/**
  `createOnceListener` (`src/lib/once-listener.ts:30-64`): the single-flight init/dispose
  protocol, as the atomic steps between its awaits, in every interleaving.
 */
module OnceListener {
  import opened Wrappers

  type Promise = nat
  datatype Status = Pending | Resolved | Rejected

  /** `inflight` and `unlisteners` are the closure's variables; a listener set is named by the
      setup promise that produced it. The rest is what the runtime holds: every setup started so
      far, the suspended `initAsync` calls by the promise each captured, the rejection handlers
      still to run, and the sets whose unlisten functions have been called. */
  datatype State = State(
    inflight: Option<Promise>,
    unlisteners: Option<Promise>,
    setups: seq<Status>,
    waiters: multiset<Promise>,
    handlers: set<Promise>,
    unlistened: set<Promise>)

  const START := State(None, None, [], multiset{}, {}, {})

  datatype Event =
    | Init                        // initAsync up to its await
    | Settle(p: Promise, ok: bool)// the setup promise settles
    | Resume(p: Promise)          // a suspended initAsync continues
    | Handle(p: Promise)          // the rejection handler runs
    | Dispose

  predicate Enabled(s: State, e: Event) {
    match e
    case Init => true
    case Dispose => true
    case Settle(p, _) => p < |s.setups| && s.setups[p] == Pending
    case Resume(p) => p < |s.setups| && s.setups[p] != Pending && p in s.waiters
    case Handle(p) => p < |s.setups| && s.setups[p] == Rejected && p in s.handlers
  }

  function Next(s: State, e: Event): State
    requires Enabled(s, e)
  {
    match e
    case Init =>
      if s.unlisteners.Some? then s
      else if s.inflight.Some? then s.(waiters := s.waiters + multiset{s.inflight.value})
      else
        var p := |s.setups|;
        s.(inflight := Some(p), setups := s.setups + [Pending], waiters := s.waiters + multiset{p},
           handlers := s.handlers + {p})
    case Settle(p, ok) => s.(setups := s.setups[p := if ok then Resolved else Rejected])
    case Resume(p) =>
      var left := s.(waiters := s.waiters - multiset{p});
      if s.setups[p] == Rejected then left
      else if s.inflight != Some(p) then left.(unlistened := s.unlistened + {p})
      else left.(unlisteners := Some(p))
    case Handle(p) => s.(inflight := None, handlers := s.handlers - {p})
    case Dispose =>
      s.(inflight := None, unlisteners := None,
         unlistened := if s.unlisteners.Some? then s.unlistened + {s.unlisteners.value} else s.unlistened)
  }

  // ---------------------------------------------------------------------------------------
  // The listener object
  // ---------------------------------------------------------------------------------------

  class Listener {
    var inflight: Option<Promise>
    var unlisteners: Option<Promise>
    ghost var runtime: State

    ghost predicate Valid()
      reads this
    {
      runtime.inflight == inflight && runtime.unlisteners == unlisteners && NoLeak(runtime)
    }

    constructor ()
      ensures Valid() && runtime == START
    {
      inflight, unlisteners := None, None;
      runtime := START;
    }

    /** `initAsync` up to the await; `captured` is what it waits for, if anything. `setup` names
        the promise of a newly started setup. */
    method InitAsync(setup: Promise) returns (captured: Option<Promise>)
      requires Valid() && setup == |runtime.setups|
      modifies this
      ensures Valid() && runtime == Next(old(runtime), Init)
      ensures captured == if unlisteners.Some? then None else inflight
    {
      StepKeepsNoLeak(runtime, Init);
      runtime := Next(runtime, Init);
      if unlisteners.Some? {
        return None;
      }
      if inflight.None? {
        inflight := Some(setup);
      }
      return inflight;
    }

    /** The rest of `initAsync`, once `captured` has resolved. */
    method ResumeInit(captured: Promise) returns (tornDown: bool)
      requires Valid() && Enabled(runtime, Resume(captured)) && runtime.setups[captured] == Resolved
      modifies this
      ensures Valid() && runtime == Next(old(runtime), Resume(captured))
      ensures tornDown <==> old(inflight) != Some(captured)
      ensures !tornDown ==> unlisteners == Some(captured) == inflight
    {
      StepKeepsNoLeak(runtime, Resume(captured));
      runtime := Next(runtime, Resume(captured));
      if inflight != Some(captured) {
        return true;
      }
      unlisteners := Some(captured);
      return false;
    }

    /** What happens outside the closure: a setup settles, or a caller gets a rejection. */
    ghost method Outside(e: Event)
      requires Valid() && Enabled(runtime, e)
      requires e.Settle? || (e.Resume? && runtime.setups[e.p] == Rejected)
      modifies this`runtime
      ensures Valid() && runtime == Next(old(runtime), e)
    {
      StepKeepsNoLeak(runtime, e);
      runtime := Next(runtime, e);
    }

    /** The `catch` handler of the setup promise `p`. */
    method OnRejected(p: Promise)
      requires Valid() && Enabled(runtime, Handle(p))
      modifies this
      ensures Valid() && runtime == Next(old(runtime), Handle(p))
    {
      StepKeepsNoLeak(runtime, Handle(p));
      runtime := Next(runtime, Handle(p));
      inflight := None;
    }

    method Dispose()
      requires Valid()
      modifies this
      ensures Valid() && runtime == Next(old(runtime), Event.Dispose)
      ensures inflight == None && unlisteners == None
    {
      StepKeepsNoLeak(runtime, Event.Dispose);
      runtime := Next(runtime, Event.Dispose);
      unlisteners := None;
      inflight := None;
    }
  }

  // ---------------------------------------------------------------------------------------
  // No leaked listener
  // ---------------------------------------------------------------------------------------

  /** The set of a completed setup is accounted for. */
  ghost predicate Accounted(s: State, p: Promise) {
    s.unlisteners == Some(p) || p in s.unlistened || p in s.waiters
  }

  ghost predicate NoLeak(s: State) {
    && (forall p :: p in s.waiters ==> p < |s.setups|)
    && (forall p :: 0 <= p < |s.setups| && s.setups[p] == Pending ==> p in s.waiters)
    && (forall p :: 0 <= p < |s.setups| && s.setups[p] == Resolved ==> Accounted(s, p))
    && (s.inflight.Some? ==> s.inflight.value < |s.setups|)
    && (s.inflight.Some? && s.unlisteners.Some? ==> s.unlisteners == s.inflight)
    && (s.unlisteners.Some? ==> s.unlisteners.value < |s.setups| && s.setups[s.unlisteners.value] == Resolved)
  }

  lemma {:induction false} ResumeKeepsNoLeak(s: State, p: Promise)
    requires NoLeak(s) && Enabled(s, Resume(p))
    ensures NoLeak(Next(s, Resume(p)))
  {
    var s' := Next(s, Resume(p));
    forall q | q != p ensures q in s'.waiters <==> q in s.waiters {}
    forall q | 0 <= q < |s.setups| && s.setups[q] == Resolved
      ensures Accounted(s', q)
    {
      assert Accounted(s, q);
    }
  }

  lemma {:induction false} InitKeepsNoLeak(s: State)
    requires NoLeak(s)
    ensures NoLeak(Next(s, Init))
  {
    var s' := Next(s, Init);
    forall q | q in s.waiters ensures q in s'.waiters {}
    forall q | 0 <= q < |s'.setups| && s'.setups[q] == Resolved
      ensures Accounted(s', q)
    {
      assert Accounted(s, q);
    }
  }

  lemma {:induction false} StepKeepsNoLeak(s: State, e: Event)
    requires NoLeak(s) && Enabled(s, e)
    ensures NoLeak(Next(s, e))
  {
    match e
    case Init => InitKeepsNoLeak(s);
    case Resume(p) => ResumeKeepsNoLeak(s, p);
    case Settle(p, ok) =>
      forall q | 0 <= q < |s.setups| && s.setups[q] == Resolved ensures Accounted(s, q) {}
    case Handle(p) =>
    case Dispose =>
      forall q | 0 <= q < |s.setups| && s.setups[q] == Resolved ensures Accounted(Next(s, e), q) {
        assert Accounted(s, q);
      }
  }

  ghost predicate Run(states: seq<State>, events: seq<Event>) {
    && |states| == |events| + 1 && states[0] == START
    && forall i :: 0 <= i < |events| ==> Enabled(states[i], events[i]) && states[i + 1] == Next(states[i], events[i])
  }

  /** In every interleaving, each completed setup's listeners are installed, torn down, or in the
      hands of a suspended caller that will do one of the two. */
  lemma {:induction false} NothingLeaks(states: seq<State>, events: seq<Event>)
    requires Run(states, events)
    ensures NoLeak(states[|events|])
  {
    if events != [] {
      var n := |events| - 1;
      NothingLeaks(states[..n + 1], events[..n]);
      StepKeepsNoLeak(states[n], events[n]);
    }
  }

  /** A caller installs only the set of the promise that is still in flight, and only into an
      empty place or over itself. */
  lemma {:induction false} InstallsOnlyInflight(states: seq<State>, events: seq<Event>, i: nat)
    requires Run(states, events) && i < |events|
    requires states[i + 1].unlisteners.Some? && states[i + 1].unlisteners != states[i].unlisteners
    ensures events[i].Resume? && states[i].inflight == Some(events[i].p) && states[i].unlisteners == None
  {
    var prefix := events[..i];
    assert Run(states[..i + 1], prefix);
    NothingLeaks(states[..i + 1], prefix);
  }

  // ---------------------------------------------------------------------------------------
  // Late rejections
  // ---------------------------------------------------------------------------------------

  /** The installed set is the one in flight, and nobody has torn it down. */
  ghost predicate InstalledIsLive(s: State) {
    s.unlisteners.Some? ==> s.inflight == s.unlisteners && s.unlisteners.value !in s.unlistened
  }

  /** What is torn down has been started, and is not what is in flight. */
  ghost predicate InflightIsLive(s: State) {
    && (forall p :: p in s.unlistened ==> p < |s.setups|)
    && (s.inflight.Some? ==> s.inflight.value !in s.unlistened)
  }

  /** No rejection handler runs while a set is installed. */
  ghost predicate NoLateRejection(states: seq<State>, events: seq<Event>) {
    forall k :: 0 <= k < |events| && k < |states| && events[k].Handle? ==> states[k].unlisteners.None?
  }

  lemma {:induction false} RunKeepsInflightLive(states: seq<State>, events: seq<Event>)
    requires Run(states, events)
    ensures InflightIsLive(states[|events|])
  {
    if events != [] {
      var n := |events| - 1;
      RunKeepsInflightLive(states[..n + 1], events[..n]);
      NothingLeaks(states[..n + 1], events[..n]);
    }
  }

  /** One step keeps the installed set live, unless it is a rejection handler under an installed
      set. */
  lemma {:induction false} StepKeepsInstalled(s: State, e: Event)
    requires NoLeak(s) && InflightIsLive(s) && InstalledIsLive(s) && Enabled(s, e)
    ensures InstalledIsLive(Next(s, e)) <==> (e.Handle? ==> s.unlisteners.None?)
  {
  }

  lemma {:induction false} RunKeepsInstalled(states: seq<State>, events: seq<Event>)
    requires Run(states, events) && NoLateRejection(states, events)
    ensures forall k :: 0 <= k < |states| ==> InstalledIsLive(states[k])
  {
    if events != [] {
      var n := |events| - 1;
      RunKeepsInstalled(states[..n + 1], events[..n]);
      RunKeepsInflightLive(states[..n + 1], events[..n]);
      NothingLeaks(states[..n + 1], events[..n]);
      assert forall k :: 0 <= k <= n ==> states[..n + 1][k] == states[k];
      assert InstalledIsLive(states[n]);
      StepKeepsInstalled(states[n], events[n]);
    } else {
      assert states[0] == START;
    }
  }

  /** Throughout a run the installed set is the live one in flight, exactly when no rejection
      handler runs while a set is installed. */
  lemma {:induction false} InstalledStaysLive(states: seq<State>, events: seq<Event>)
    requires Run(states, events)
    ensures (forall k :: 0 <= k < |states| ==> InstalledIsLive(states[k])) <==> NoLateRejection(states, events)
  {
    if NoLateRejection(states, events) {
      RunKeepsInstalled(states, events);
    } else {
      var k :| 0 <= k < |events| && events[k].Handle? && states[k].unlisteners.Some?;
      assert states[k + 1] == Next(states[k], events[k]);
      assert !InstalledIsLive(states[k + 1]);
    }
  }

  /** Nobody has torn the installed set down. */
  ghost predicate InstalledStands(s: State) {
    s.unlisteners.Some? ==> s.unlisteners.value !in s.unlistened
  }

  /** A rejection handler runs while the set of `p` is installed, and a caller of `p` resumes
      before anything is disposed of. */
  ghost predicate Deadens(states: seq<State>, events: seq<Event>, i: nat, k: nat, p: Promise) {
    && i < k < |events| && |states| == |events| + 1
    && events[i].Handle? && states[i].unlisteners == Some(p) && events[k] == Resume(p)
    && forall j :: i < j < k ==> !events[j].Dispose?
  }

  lemma {:induction false} StepStands(s: State, e: Event)
    requires NoLeak(s) && InflightIsLive(s) && InstalledStands(s) && Enabled(s, e)
    ensures InstalledStands(Next(s, e)) <==> !(e.Resume? && s.unlisteners == Some(e.p) && s.inflight != Some(e.p))
  {
  }

  lemma {:induction false} StepInstalled(s: State, e: Event, p: Promise)
    requires NoLeak(s) && Enabled(s, e)
    ensures s.unlisteners == Some(p) && !e.Dispose? ==> Next(s, e).unlisteners == Some(p)
    ensures s.unlisteners == Some(p) && s.inflight == None && !e.Dispose? ==> Next(s, e).inflight == None
    ensures Next(s, e).unlisteners == Some(p) && Next(s, e).inflight != Some(p) ==>
            !e.Dispose? && s.unlisteners == Some(p) && (e.Handle? || s.inflight != Some(p))
    ensures e.Handle? ==> Next(s, e).inflight == None
  {
  }

  /** An installed set that is not in flight lost its place to a rejection handler. */
  lemma {:induction false} OustedByHandler(states: seq<State>, events: seq<Event>, n: nat, p: Promise) returns (i: nat)
    requires Run(states, events) && n <= |events|
    requires states[n].unlisteners == Some(p) && states[n].inflight != Some(p)
    ensures i < n && events[i].Handle? && states[i].unlisteners == Some(p)
    ensures forall j :: i < j < n ==> !events[j].Dispose?
  {
    hide Next, Enabled, NoLeak;
    assert states[0] == START;
    var m := n - 1;
    NothingLeaks(states[..m + 1], events[..m]);
    assert Enabled(states[m], events[m]) && states[m + 1] == Next(states[m], events[m]);
    StepInstalled(states[m], events[m], p);
    if events[m].Handle? {
      i := m;
    } else {
      i := OustedByHandler(states, events, m, p);
    }
  }

  /** Once ousted, an installed set stays so until something is disposed of. */
  lemma {:induction false} StaysOusted(states: seq<State>, events: seq<Event>, i: nat, k: nat, p: Promise)
    requires Run(states, events) && i < k <= |events| && events[i].Handle? && states[i].unlisteners == Some(p)
    requires forall j :: i < j < k ==> !events[j].Dispose?
    ensures states[k].unlisteners == Some(p) && states[k].inflight == None
  {
    hide Next, Enabled, NoLeak;
    var m := k - 1;
    NothingLeaks(states[..m + 1], events[..m]);
    assert Enabled(states[m], events[m]) && states[m + 1] == Next(states[m], events[m]);
    StepInstalled(states[m], events[m], p);
    if m > i {
      StaysOusted(states, events, i, m, p);
    }
  }

  lemma {:induction false} FirstTearDown(states: seq<State>, events: seq<Event>, n: nat)
    requires Run(states, events) && n <= |events| && !InstalledStands(states[n])
    ensures exists i: nat, k: nat, p: Promise :: Deadens(states, events, i, k, p)
  {
    hide Next, Enabled, NoLeak;
    assert states[0] == START;
    var k := n - 1;
    if !InstalledStands(states[k]) {
      FirstTearDown(states, events, k);
    } else {
      NothingLeaks(states[..k + 1], events[..k]);
      RunKeepsInflightLive(states[..k + 1], events[..k]);
      assert Enabled(states[k], events[k]) && states[k + 1] == Next(states[k], events[k]);
      StepStands(states[k], events[k]);
      var p := events[k].p;
      var i := OustedByHandler(states, events, k, p);
      assert Deadens(states, events, i, k, p);
    }
  }

  /** Throughout a run no installed set is torn down, exactly when no rejection handler runs under
      an installed set with another of its callers still to resume before the next dispose. */
  lemma {:induction false} InstalledNeverTornDown(states: seq<State>, events: seq<Event>)
    requires Run(states, events)
    ensures (forall n :: 0 <= n < |states| ==> InstalledStands(states[n]))
            <==> !(exists i: nat, k: nat, p: Promise :: Deadens(states, events, i, k, p))
  {
    if n :| 0 <= n < |states| && !InstalledStands(states[n]) {
      FirstTearDown(states, events, n);
    }
    if i: nat, k: nat, p: Promise :| Deadens(states, events, i, k, p) {
      StaysOusted(states, events, i, k, p);
      NothingLeaks(states[..k + 1], events[..k]);
      assert Enabled(states[k], events[k]) && states[k + 1] == Next(states[k], events[k]);
      assert !InstalledStands(states[k + 1]);
    }
  }

  /** Once no caller is suspended, every setup rejected, was torn down or is the installed one, and
      only one of these unless a late rejection deadened it. */
  lemma {:induction false} QuiescentIsClean(states: seq<State>, events: seq<Event>, p: Promise)
    requires Run(states, events)
    requires var s := states[|events|]; s.waiters == multiset{} && p < |s.setups|
    ensures var s := states[|events|];
            && (s.setups[p] == Rejected || p in s.unlistened || s.unlisteners == Some(p))
            && (s.unlisteners == Some(p) ==> s.setups[p] == Resolved)
            && (s.unlisteners == Some(p) && p in s.unlistened ==>
                  exists i: nat, k: nat, q: Promise :: Deadens(states, events, i, k, q))
  {
    hide Next, Enabled;
    NothingLeaks(states, events);
    if !InstalledStands(states[|events|]) {
      FirstTearDown(states, events, |events|);
    }
  }

  lemma {:induction false} StepInflight(s: State, e: Event, p: Promise)
    requires Enabled(s, e) && p < |s.setups|
    ensures p < |Next(s, e).setups|
    ensures Next(s, e).inflight == Some(p) <==> s.inflight == Some(p) && !e.Dispose? && !e.Handle?
  {
  }

  /** From the start of setup `p` on, it is in flight until something is disposed of or a
      rejection handler runs, and never again after that. */
  lemma {:induction false} InflightUntilDisturbed(states: seq<State>, events: seq<Event>, i: nat, p: Promise, n: nat)
    requires Run(states, events) && i < n <= |events|
    requires p == |states[i].setups| < |states[i + 1].setups|
    ensures p < |states[n].setups|
    ensures states[n].inflight == Some(p) <==> forall k :: i < k < n ==> !events[k].Dispose? && !events[k].Handle?
  {
    hide Next;
    hide Enabled;
    if n == i + 1 {
      SetupIsInflight(states[i], events[i]);
    } else {
      InflightUntilDisturbed(states, events, i, p, n - 1);
      assert states[n - 1 + 1] == Next(states[n - 1], events[n - 1]);
      StepInflight(states[n - 1], events[n - 1], p);
    }
  }

  lemma {:induction false} SetupIsInflight(s: State, e: Event)
    requires Enabled(s, e) && |s.setups| < |Next(s, e).setups|
    ensures Next(s, e).inflight == Some(|s.setups|)
  {
  }

  /** The caller of a resolved setup ends up with its listeners live and installed exactly when,
      since the setup started, nothing was disposed of and no rejection handler, which can
      only be another setup's, ran. */
  lemma {:induction false} InstallsUnlessDisturbed(states: seq<State>, events: seq<Event>, i: nat, p: Promise, n: nat)
    requires Run(states, events) && i < n < |events|
    requires p == |states[i].setups| < |states[i + 1].setups|
    requires events[n] == Resume(p) && states[n].setups[p] == Resolved
    ensures states[n + 1].unlisteners == Some(p) && p !in states[n + 1].unlistened
            <==> forall k :: i < k < n ==> !events[k].Dispose? && !events[k].Handle?
  {
    InflightUntilDisturbed(states, events, i, p, n);
    RunKeepsInflightLive(states[..n + 1], events[..n]);
    assert states[n + 1] == Next(states[n], events[n]);
  }

  // ---------------------------------------------------------------------------------------
  // Two failing runs
  // ---------------------------------------------------------------------------------------

  const EVICTING: seq<Event> :=
    [Init, Dispose, Init, Settle(0, false), Handle(0), Settle(1, true), Resume(1)]

  const DEADENING: seq<Event> :=
    [Init, Dispose, Init, Init, Settle(1, true), Resume(1), Settle(0, false), Handle(0), Resume(1)]

  /** The rejection handler clears the slot without looking whose promise is in it. Setup 0 is
      disposed of and rejects while setup 1 is in flight: setup 1's caller finds an empty slot,
      tears its own listeners down and leaves nothing installed. */
  lemma {:induction false} LateRejectionEvictsSuccessor() returns (states: seq<State>)
    ensures Run(states, EVICTING)
    ensures var end := states[|EVICTING|];
            end.setups == [Rejected, Resolved] && end.inflight == None && end.unlisteners == None && 1 in end.unlistened
  {
    var s1 := Next(START, Init);
    var s2 := Next(s1, Dispose);
    var s3 := Next(s2, Init);
    var s4 := Next(s3, Settle(0, false));
    var s5 := Next(s4, Handle(0));
    var s6 := Next(s5, Settle(1, true));
    states := [START, s1, s2, s3, s4, s5, s6, Next(s6, Resume(1))];
  }

  ghost predicate StepTo(s: State, e: Event, after: State) {
    Enabled(s, e) && after == Next(s, e)
  }

  const DEADENED: seq<State> :=
    [START,
     State(Some(0), None, [Pending], multiset{0}, {0}, {}),
     State(None, None, [Pending], multiset{0}, {0}, {}),
     State(Some(1), None, [Pending, Pending], multiset{0, 1}, {0, 1}, {}),
     State(Some(1), None, [Pending, Pending], multiset{0, 1, 1}, {0, 1}, {}),
     State(Some(1), None, [Pending, Resolved], multiset{0, 1, 1}, {0, 1}, {}),
     State(Some(1), Some(1), [Pending, Resolved], multiset{0, 1}, {0, 1}, {}),
     State(Some(1), Some(1), [Rejected, Resolved], multiset{0, 1}, {0, 1}, {}),
     State(None, Some(1), [Rejected, Resolved], multiset{0, 1}, {1}, {}),
     State(None, Some(1), [Rejected, Resolved], multiset{0}, {1}, {1})]

  lemma {:induction false} TwoSetupsStart()
    ensures forall i :: 0 <= i < 3 ==> StepTo(DEADENED[i], DEADENING[i], DEADENED[i + 1])
  {
    assert StepTo(DEADENED[0], DEADENING[0], DEADENED[1]);
    assert StepTo(DEADENED[1], DEADENING[1], DEADENED[2]);
    assert StepTo(DEADENED[2], DEADENING[2], DEADENED[3]);
  }

  lemma {:induction false} SecondSetupResolves()
    ensures forall i :: 3 <= i < 5 ==> StepTo(DEADENED[i], DEADENING[i], DEADENED[i + 1])
  {
    assert StepTo(DEADENED[3], DEADENING[3], DEADENED[4]);
    assert StepTo(DEADENED[4], DEADENING[4], DEADENED[5]);
  }

  lemma {:induction false} FirstCallerInstalls()
    ensures forall i :: 5 <= i < 7 ==> StepTo(DEADENED[i], DEADENING[i], DEADENED[i + 1])
  {
    assert StepTo(DEADENED[5], DEADENING[5], DEADENED[6]);
    assert StepTo(DEADENED[6], DEADENING[6], DEADENED[7]);
  }

  lemma {:induction false} LateRejectionDeadens()
    ensures forall i :: 7 <= i < 9 ==> StepTo(DEADENED[i], DEADENING[i], DEADENED[i + 1])
  {
    assert StepTo(DEADENED[7], DEADENING[7], DEADENED[8]);
    assert StepTo(DEADENED[8], DEADENING[8], DEADENED[9]);
  }

  /** With two callers waiting for setup 1, the first installs it, the late rejection of setup 0
      clears the slot, and the second tears the installed set down: it stays installed, dead, and
      every later `initAsync` returns at once. */
  lemma {:induction false} LateRejectionDeadensInstalled()
    ensures Run(DEADENED, DEADENING)
    ensures var end := DEADENED[|DEADENING|];
            end.unlisteners == Some(1) && 1 in end.unlistened && Next(end, Init) == end
  {
    TwoSetupsStart();
    SecondSetupResolves();
    FirstCallerInstalls();
    LateRejectionDeadens();
    assert Next(DEADENED[9], Init) == DEADENED[9];
    hide Next;
    hide Enabled;
    forall i | 0 <= i < |DEADENING|
      ensures Enabled(DEADENED[i], DEADENING[i]) && DEADENED[i + 1] == Next(DEADENED[i], DEADENING[i])
    {
      assert StepTo(DEADENED[i], DEADENING[i], DEADENED[i + 1]);
    }
  }
}
