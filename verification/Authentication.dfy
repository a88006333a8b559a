/** Single-flight browser authentication of src/external_auth.rs, as a
    transition system over one entry.

    One step is one critical section under the lock of `Entry.state`. The loads
    and stores of `valid` outside the lock are steps of their own. A load inside
    the lock is part of its critical section: no step between it and the end of
    the section could tell the difference. */
module Authentication {
  import opened Options

  datatype Answer = Token(token: string) | Failed(message: string)

  /** A shared authentication job, seen through its atomics and its result. */
  datatype Flight = Flight(cancel: bool, waiters: nat, result: Option<Answer>)

  /** `Entry` with the flights that it ever had, in creation order. */
  datatype Entry = Entry(valid: bool, token: Option<string>, flight: Option<nat>, failed: bool, flights: seq<Flight>)

  const NEW_ENTRY := Entry(true, None, None, false, [])

  // ----- Critical sections

  /** `Entry::invalidate` after the store to `valid` */
  function TakenDown(e: Entry): Entry {
    var flights := if e.flight.Some? && e.flight.value < |e.flights|
                   then e.flights[e.flight.value := e.flights[e.flight.value].(cancel := true)] else e.flights;
    e.(token := None, flight := None, flights := flights)
  }

  /** The cached token that `authenticate` returns at once. */
  function Usable(e: Entry, rejected: Option<string>): Option<string> {
    if e.token.Some? && e.token != rejected then e.token else None
  }

  predicate Joins(e: Entry) {
    e.flight.Some? && e.flight.value < |e.flights| && !e.flights[e.flight.value].cancel
  }

  /** The flight of a caller that has to wait: the current one unless it is cancelled, else a new one. */
  function JoinedFlight(e: Entry): nat { if Joins(e) then e.flight.value else |e.flights| }

  /** The critical section of `authenticate`, when the caller has to wait. */
  function Joined(e: Entry): Entry {
    if Joins(e) then
      var f := e.flights[e.flight.value];
      e.(token := None, failed := false, flights := e.flights[e.flight.value := f.(waiters := f.waiters + 1)])
    else
      e.(token := None, failed := false, flight := Some(|e.flights|), flights := e.flights + [Flight(false, 1, None)])
  }

  predicate MayPublish(e: Entry, f: nat)
    requires f < |e.flights|
  {
    e.valid && !e.flights[f].cancel && e.flight == Some(f)
  }

  /** The completion block of a job. */
  function Completed(e: Entry, f: nat, answer: Answer): Entry
    requires f < |e.flights|
  {
    var flights := e.flights[f := e.flights[f].(result := Some(answer))];
    if MayPublish(e, f) then
      e.(
        token := if answer.Token? then Some(answer.token) else None,
        failed := answer.Failed?, flight := None, flights := flights)
    else if e.flight == Some(f) then e.(flight := None, flights := flights)
    else e.(flights := flights)
  }

  /** `Waiter::drop` */
  function Left(e: Entry, f: nat): Entry
    requires f < |e.flights| && e.flights[f].waiters > 0
  {
    var flight := e.flights[f];
    var left := flight.(waiters := flight.waiters - 1, cancel := flight.cancel || flight.waiters == 1);
    e.(flights := e.flights[f := left])
  }

  /** `Source::reject` */
  function Rejected(e: Entry, token: Option<string>): Entry {
    if e.token.Some? && e.token == token then e.(token := None, failed := true) else e
  }

  // ----- Threads

  datatype Outcome = Returned(token: string) | Cached(found: Option<string>) | Cancelled | SettingsChanged
      | Error(message: string) | TimedOut

  /** Where a caller of `authenticate` or `cached` is. */
  datatype Caller =
    | Checked               // found the entry valid, before the lock
    | Peeking               // the same, in `cached`
    | Spawning(flight: nat) // made a flight, and has not started its thread yet
    | Waiting(flight: nat)
    | Looked(flight: nat)   // found itself not cancelled and the entry valid, before reading the result
    | Leaving(flight: nat, outcome: Outcome)
    | Done(outcome: Outcome)

  datatype Job = Unborn | Running | Finished

  /** A thread in `Entry::invalidate`: it stored `valid`, or it returned. */
  datatype SignOut = Stored | SignedOut

  /** All of one entry. `killed` are the flights that a sign-out took down. */
  datatype System = System(entry: Entry, callers: seq<Caller>, jobs: seq<Job>, signOuts: seq<SignOut>, killed: set<nat>)

  const INITIAL := System(NEW_ENTRY, [], [], [], {})

  datatype Action =
    | Begin(cancelled: bool)
    | Peek
    | ReadCache(caller: nat)
    | Lock(caller: nat, rejected: Option<string>)
    | Spawn(caller: nat)
    | Look(caller: nat, cancelled: bool)
    | Read(caller: nat, late: bool)
    | Leave(caller: nat)
    | Finish(flight: nat, answer: Answer)
    | Reject(token: Option<string>)
    | Store
    | TakeDown(signOut: nat)

  predicate Enabled(s: System, a: Action) {
    match a
    case Begin(_) => true
    case Peek => true
    case ReadCache(c) => c < |s.callers| && s.callers[c].Peeking?
    case Lock(c, _) => c < |s.callers| && s.callers[c].Checked?
    case Spawn(c) => c < |s.callers| && s.callers[c].Spawning? && s.callers[c].flight < |s.jobs|
    case Look(c, _) => c < |s.callers| && s.callers[c].Waiting?
    case Read(c, _) => c < |s.callers| && s.callers[c].Looked? && s.callers[c].flight < |s.entry.flights|
    case Leave(c) => c < |s.callers| && s.callers[c].Leaving? && s.callers[c].flight < |s.entry.flights|
                     && s.entry.flights[s.callers[c].flight].waiters > 0
    case Finish(f, _) => f < |s.jobs| && s.jobs[f].Running? && f < |s.entry.flights|
    case Reject(_) => true
    case Store => true
    case TakeDown(k) => k < |s.signOuts| && s.signOuts[k].Stored?
  }

  function Outgoing(answer: Answer): Outcome {
    if answer.Token? then Returned(answer.token) else Error(answer.message)
  }

  function Do(s: System, a: Action): System
    requires Enabled(s, a)
  {
    var e := s.entry;
    match a
    case Begin(cancelled) =>
      var caller := if cancelled then Done(Cancelled) else if !e.valid then Done(SettingsChanged) else Checked;
      s.(callers := s.callers + [caller])
    case Peek => s.(callers := s.callers + [if e.valid then Peeking else Done(SettingsChanged)])
    case ReadCache(c) => s.(callers := s.callers[c := Done(Cached(e.token))])
    case Lock(c, rejected) =>
      var token := Usable(e, rejected);
      if token.Some? then s.(callers := s.callers[c := Done(Returned(token.value))])
      else if Joins(e) then s.(entry := Joined(e), callers := s.callers[c := Waiting(JoinedFlight(e))])
      else s.(entry := Joined(e), callers := s.callers[c := Spawning(JoinedFlight(e))], jobs := s.jobs + [Unborn])
    case Spawn(c) =>
      var f := s.callers[c].flight;
      s.(callers := s.callers[c := Waiting(f)], jobs := s.jobs[f := Running])
    case Look(c, cancelled) =>
      var f := s.callers[c].flight;
      s.(callers := s.callers[c := if cancelled || !e.valid then Leaving(f, Cancelled) else Looked(f)])
    case Read(c, late) =>
      var f := s.callers[c].flight;
      var result := e.flights[f].result;
      var caller := if result.Some? then Leaving(f, Outgoing(result.value))
                    else if late then Leaving(f, TimedOut) else Waiting(f);
      s.(callers := s.callers[c := caller])
    case Leave(c) =>
      s.(entry := Left(e, s.callers[c].flight), callers := s.callers[c := Done(s.callers[c].outcome)])
    case Finish(f, answer) => s.(entry := Completed(e, f, answer), jobs := s.jobs[f := Finished])
    case Reject(token) => s.(entry := Rejected(e, token))
    case Store => s.(entry := e.(valid := false), signOuts := s.signOuts + [Stored])
    case TakeDown(k) =>
      s.(entry := TakenDown(e), signOuts := s.signOuts[k := SignedOut],
         killed := if e.flight.Some? then s.killed + {e.flight.value} else s.killed)
  }

  /** The system after some actions. Actions that are not enabled do nothing. */
  function Run(s: System, actions: seq<Action>): System {
    if actions == [] then s
    else
      var before := Run(s, actions[..|actions| - 1]);
      var a := actions[|actions| - 1];
      if Enabled(before, a) then Do(before, a) else before
  }

  /** A caller never gets back the token that it says was rejected: the step drops the cached
      token, and the caller waits. Any other cached token is returned and stays. */
  lemma RejectedIsDropped(s: System, c: nat, rejected: Option<string>)
    requires Enabled(s, Lock(c, rejected))
    ensures var t := Do(s, Lock(c, rejected));
            && (rejected.Some? ==> t.callers[c] != Done(Returned(rejected.value)))
            && (s.entry.token.Some? && s.entry.token != rejected ==>
                  t.callers[c] == Done(Returned(s.entry.token.value)) && t.entry == s.entry)
            && (s.entry.token.None? || s.entry.token == rejected ==>
                  t.entry.token.None? && !t.entry.failed && (t.callers[c].Waiting? || t.callers[c].Spawning?)
                  && t.entry.flight == Some(t.callers[c].flight))
            && forall d :: 0 <= d < |s.callers| && d != c ==> t.callers[d] == s.callers[d]
  {
  }

  // ----- What every step keeps

  /** The caller holds a waiter of flight `f`. */
  predicate IsOn(c: Caller, f: nat) { (c.Spawning? || c.Waiting? || c.Looked? || c.Leaving?) && c.flight == f }

  function Live(callers: seq<Caller>, f: nat): nat {
    if callers == [] then 0 else (if IsOn(callers[0], f) then 1 else 0) + Live(callers[1..], f)
  }

  function Starting(callers: seq<Caller>, f: nat): nat {
    if callers == [] then 0 else (if callers[0] == Spawning(f) then 1 else 0) + Starting(callers[1..], f)
  }

  ghost predicate InRange(s: System) {
    && |s.jobs| == |s.entry.flights|
    && (s.entry.flight.Some? ==> s.entry.flight.value < |s.jobs|)
    && (forall f: nat :: f in s.killed ==> f < |s.jobs|)
    && (forall c: nat, f: nat :: c < |s.callers| && IsOn(s.callers[c], f) ==> f < |s.jobs|)
  }

  /** What holds of one flight: its waiter count is that of its live waiters; it is
      cancelled when that count is zero or a sign-out took it down, and only then;
      while it is neither cancelled nor finished it is the entry's flight; it has a
      result once its only thread finished. */
  ghost predicate FlightOk(s: System, f: nat)
    requires f < |s.entry.flights| == |s.jobs|
  {
    var flight := s.entry.flights[f];
    && flight.waiters == Live(s.callers, f)
    && (flight.cancel <==> flight.waiters == 0 || f in s.killed)
    && (!flight.cancel && flight.result.None? ==> s.entry.flight == Some(f))
    && (flight.result.Some? <==> s.jobs[f].Finished?)
    && (s.entry.flight == Some(f) ==> flight.result.None? && f !in s.killed)
    && Starting(s.callers, f) == (if s.jobs[f].Unborn? then 1 else 0)
  }

  /** An entry is invalid once a sign-out began, and after one returned it holds no token. */
  ghost predicate SignOutOk(s: System) {
    && (s.signOuts != [] <==> !s.entry.valid)
    && (SignedOut in s.signOuts ==> s.entry.token.None?)
  }

  ghost predicate Inv(s: System) {
    InRange(s) && SignOutOk(s) && forall f :: 0 <= f < |s.jobs| ==> FlightOk(s, f)
  }

  lemma {:induction false} CountUpdate(callers: seq<Caller>, c: nat, caller: Caller, f: nat)
    requires c < |callers|
    ensures Live(callers[c := caller], f)
         == Live(callers, f) - (if IsOn(callers[c], f) then 1 else 0) + (if IsOn(caller, f) then 1 else 0)
    ensures Starting(callers[c := caller], f)
         == Starting(callers, f) - (if callers[c] == Spawning(f) then 1 else 0)
             + (if caller == Spawning(f) then 1 else 0)
  {
    hide IsOn;
    if c == 0 {
      assert callers[0 := caller][1..] == callers[1..];
    } else {
      assert callers[c := caller][1..] == callers[1..][c - 1 := caller];
      CountUpdate(callers[1..], c - 1, caller, f);
    }
  }

  lemma {:induction false} CountAppend(callers: seq<Caller>, caller: Caller, f: nat)
    ensures Live(callers + [caller], f) == Live(callers, f) + (if IsOn(caller, f) then 1 else 0)
    ensures Starting(callers + [caller], f) == Starting(callers, f) + (if caller == Spawning(f) then 1 else 0)
  {
    hide IsOn;
    if callers == [] {
      assert callers + [caller] == [caller];
    } else {
      assert (callers + [caller])[1..] == callers[1..] + [caller];
      CountAppend(callers[1..], caller, f);
    }
  }

  lemma {:induction false} CountNone(callers: seq<Caller>, f: nat)
    requires forall c :: 0 <= c < |callers| ==> !IsOn(callers[c], f)
    ensures Live(callers, f) == 0 && Starting(callers, f) == 0
  {
    if callers != [] {
      CountNone(callers[1..], f);
    }
  }

  lemma {:induction false} CountSome(callers: seq<Caller>, c: nat, f: nat)
    requires c < |callers| && IsOn(callers[c], f)
    ensures Live(callers, f) > 0 && (callers[c] == Spawning(f) ==> Starting(callers, f) > 0)
  {
    hide IsOn;
    if c > 0 {
      CountSome(callers[1..], c - 1, f);
    }
  }

  /** A step that changes one caller and neither its flight nor the entry. */
  lemma CallerMoves(s: System, c: nat, caller: Caller)
    requires Inv(s) && c < |s.callers| && caller.Spawning? == s.callers[c].Spawning? == false
    requires forall f :: IsOn(caller, f) == IsOn(s.callers[c], f)
    ensures Inv(s.(callers := s.callers[c := caller]))
  {
    hide Live, Starting, IsOn;
    var t := s.(callers := s.callers[c := caller]);
    forall f | 0 <= f < |s.jobs|
      ensures FlightOk(t, f)
    {
      assert FlightOk(s, f);
      CountUpdate(s.callers, c, caller, f);
    }
    forall d: nat, f: nat | d < |t.callers| && IsOn(t.callers[d], f)
      ensures f < |s.jobs|
    {
      assert IsOn(s.callers[d], f);
    }
  }

  /** A new caller that waits for nothing yet. */
  lemma CallerComes(s: System, caller: Caller)
    requires Inv(s) && (caller.Checked? || caller.Peeking? || caller.Done?)
    ensures Inv(s.(callers := s.callers + [caller]))
  {
    var t := s.(callers := s.callers + [caller]);
    assert forall f :: !IsOn(caller, f);
    hide Live, Starting, IsOn;
    forall f | 0 <= f < |s.jobs|
      ensures FlightOk(t, f)
    {
      assert FlightOk(s, f);
      CountAppend(s.callers, caller, f);
    }
    forall d: nat, f: nat | d < |t.callers| && IsOn(t.callers[d], f)
      ensures f < |s.jobs|
    {
      assert d < |s.callers| && IsOn(s.callers[d], f);
    }
  }

  lemma LockKeepsInv(s: System, c: nat, rejected: Option<string>)
    requires Inv(s) && Enabled(s, Lock(c, rejected))
    ensures Inv(Do(s, Lock(c, rejected)))
  {
    var e, t := s.entry, Do(s, Lock(c, rejected));
    assert forall f :: !IsOn(s.callers[c], f);
    if Usable(e, rejected).Some? {
      CallerMoves(s, c, Done(Returned(Usable(e, rejected).value)));
    } else {
      var joined := JoinedFlight(e);
      var caller := t.callers[c];
      assert forall f :: IsOn(caller, f) <==> f == joined;
      hide Live, Starting, IsOn;
      forall f | 0 <= f < |t.jobs|
        ensures FlightOk(t, f)
      {
        CountUpdate(s.callers, c, caller, f);
        if f < |s.jobs| {
          assert FlightOk(s, f);
        } else {
          CountNone(s.callers, f);
        }
      }
      forall d: nat, f: nat | d < |t.callers| && IsOn(t.callers[d], f)
        ensures f < |t.jobs|
      {
        assert d != c ==> IsOn(s.callers[d], f);
      }
    }
  }

  lemma SpawnKeepsInv(s: System, c: nat)
    requires Inv(s) && Enabled(s, Spawn(c))
    ensures Inv(Do(s, Spawn(c)))
    ensures s.jobs[s.callers[c].flight].Unborn?
  {
    var t, joined := Do(s, Spawn(c)), s.callers[c].flight;
    CountSome(s.callers, c, joined);
    assert FlightOk(s, joined);
    assert forall f :: IsOn(t.callers[c], f) == IsOn(s.callers[c], f);
    hide Live, Starting, IsOn;
    forall f | 0 <= f < |t.jobs|
      ensures FlightOk(t, f)
    {
      assert FlightOk(s, f);
      CountUpdate(s.callers, c, Waiting(joined), f);
    }
    forall d: nat, f: nat | d < |t.callers| && IsOn(t.callers[d], f)
      ensures f < |t.jobs|
    {
      assert IsOn(s.callers[d], f);
    }
  }

  lemma LeaveKeepsInv(s: System, c: nat)
    requires Inv(s) && Enabled(s, Leave(c))
    ensures Inv(Do(s, Leave(c)))
  {
    var t, left := Do(s, Leave(c)), s.callers[c].flight;
    assert forall f :: !IsOn(t.callers[c], f) && (IsOn(s.callers[c], f) <==> f == left);
    hide Live, Starting, IsOn;
    forall f | 0 <= f < |t.jobs|
      ensures FlightOk(t, f)
    {
      assert FlightOk(s, f);
      CountUpdate(s.callers, c, t.callers[c], f);
    }
    forall d: nat, f: nat | d < |t.callers| && IsOn(t.callers[d], f)
      ensures f < |t.jobs|
    {
      assert IsOn(s.callers[d], f);
    }
  }

  lemma FinishKeepsInv(s: System, f: nat, answer: Answer)
    requires Inv(s) && Enabled(s, Finish(f, answer))
    ensures Inv(Do(s, Finish(f, answer)))
  {
    hide Live, Starting, IsOn;
    var t := Do(s, Finish(f, answer));
    forall g | 0 <= g < |t.jobs|
      ensures FlightOk(t, g)
    {
      assert FlightOk(s, g) && FlightOk(s, f);
    }
  }

  lemma SignOutKeepsInv(s: System, a: Action)
    requires Inv(s) && Enabled(s, a) && (a.Store? || a.TakeDown? || a.Reject?)
    ensures Inv(Do(s, a))
  {
    hide Live, Starting, IsOn;
    var t := Do(s, a);
    forall g | 0 <= g < |t.jobs|
      ensures FlightOk(t, g)
    {
      assert FlightOk(s, g);
    }
    if a.TakeDown? {
      assert s.signOuts[a.signOut] in s.signOuts;
    }
  }

  lemma StepKeepsInv(s: System, a: Action)
    requires Inv(s) && Enabled(s, a)
    ensures Inv(Do(s, a))
  {
    hide Inv, Joined, Completed, Left, TakenDown;
    match a
    case Begin(_) => CallerComes(s, Do(s, a).callers[|s.callers|]);
    case Peek => CallerComes(s, Do(s, a).callers[|s.callers|]);
    case ReadCache(c) => CallerMoves(s, c, Done(Cached(s.entry.token)));
    case Lock(c, rejected) => LockKeepsInv(s, c, rejected);
    case Spawn(c) => SpawnKeepsInv(s, c);
    case Look(c, _) => CallerMoves(s, c, Do(s, a).callers[c]);
    case Read(c, _) => CallerMoves(s, c, Do(s, a).callers[c]);
    case Leave(c) => LeaveKeepsInv(s, c);
    case Finish(f, answer) => FinishKeepsInv(s, f, answer);
    case Reject(_) => SignOutKeepsInv(s, a);
    case Store => SignOutKeepsInv(s, a);
    case TakeDown(_) => SignOutKeepsInv(s, a);
  }

  /** In every interleaving. */
  lemma {:induction false} RunKeepsInv(s: System, actions: seq<Action>)
    requires Inv(s)
    ensures Inv(Run(s, actions))
  {
    hide Inv, Do, Enabled;
    if actions != [] {
      RunKeepsInv(s, actions[..|actions| - 1]);
      var before, a := Run(s, actions[..|actions| - 1]), actions[|actions| - 1];
      if Enabled(before, a) {
        StepKeepsInv(before, a);
      }
    }
  }

  // ----- Single flight, with independent cancellation

  function After(actions: seq<Action>): System { Run(INITIAL, actions) }

  lemma AfterHasInv(actions: seq<Action>)
    ensures Inv(After(actions))
  {
    RunKeepsInv(INITIAL, actions);
  }

  predicate IsOpen(flight: Flight) { !flight.cancel && flight.result.None? }

  /** At most one flight is neither cancelled nor finished; the waiter count of a
      flight is the number of its live waiters; it is cancelled exactly when that
      is zero or a sign-out took the flight down. */
  lemma SingleFlight(actions: seq<Action>, f: nat, g: nat)
    requires var flights := After(actions).entry.flights; f < |flights| && g < |flights|
    ensures var s := After(actions);
            && (IsOpen(s.entry.flights[f]) && IsOpen(s.entry.flights[g]) ==> f == g)
            && s.entry.flights[f].waiters == Live(s.callers, f)
            && (s.entry.flights[f].cancel <==> Live(s.callers, f) == 0 || f in s.killed)
  {
    hide Run;
    AfterHasInv(actions);
    assert FlightOk(After(actions), f) && FlightOk(After(actions), g);
  }

  /** A caller that gives up cancels its flight exactly when nobody else waits for it. */
  lemma LastWaiterCancels(s: System, c: nat)
    requires Inv(s) && Enabled(s, Leave(c)) && !s.entry.flights[s.callers[c].flight].cancel
    ensures var f := s.callers[c].flight;
            Do(s, Leave(c)).entry.flights[f].cancel <==>
            (forall d :: 0 <= d < |s.callers| && d != c ==> !IsOn(s.callers[d], f))
  {
    var f, rest := s.callers[c].flight, s.callers[c := Done(Cancelled)];
    assert FlightOk(s, f);
    CountUpdate(s.callers, c, Done(Cancelled), f);
    if forall d :: 0 <= d < |s.callers| && d != c ==> !IsOn(s.callers[d], f) {
      CountNone(rest, f);
    } else {
      var d :| 0 <= d < |s.callers| && d != c && IsOn(s.callers[d], f);
      assert rest[d] == s.callers[d];
      CountSome(rest, d, f);
    }
  }

  /** A cancelled flight stays cancelled and gains no waiter, and a result never changes. */
  lemma FlightsOnlyAge(s: System, a: Action, f: nat)
    requires Inv(s) && Enabled(s, a) && f < |s.entry.flights|
    ensures var (before, after) := (s.entry.flights, Do(s, a).entry.flights);
            && f < |after|
            && (before[f].cancel ==> after[f].cancel && after[f].waiters <= before[f].waiters)
            && (before[f].result.Some? ==> after[f].result == before[f].result)
  {
    hide Live, Starting, IsOn;
    assert FlightOk(s, f);
    if a.Lock? && s.entry.flight.Some? {
      assert FlightOk(s, s.entry.flight.value);
    }
  }

  /** Only a job publishes a token: its own, while the entry is valid and its
      flight is the entry's flight and not cancelled. */
  lemma OnlyJobsPublish(s: System, a: Action)
    requires Inv(s) && Enabled(s, a) && Do(s, a).entry.token.Some? && Do(s, a).entry.token != s.entry.token
    ensures a.Finish? && MayPublish(s.entry, a.flight) && a.answer == Token(Do(s, a).entry.token.value)
    ensures Live(s.callers, a.flight) > 0
  {
    hide Live, Starting, IsOn;
    assert a.Finish? && FlightOk(s, a.flight);
  }

  // ----- Sign-out is final

  lemma {:induction false} RunAppend(s: System, first: seq<Action>, more: seq<Action>)
    ensures Run(s, first + more) == Run(Run(s, first), more)
    decreases more
  {
    hide Do, Enabled;
    if more == [] {
      assert first + more == first;
    } else {
      assert (first + more)[..|first + more| - 1] == first + more[..|more| - 1];
      RunAppend(s, first, more[..|more| - 1]);
    }
  }

  predicate IsToken(outcome: Outcome) { outcome.Returned? || (outcome.Cached? && outcome.found.Some?) }

  /** The caller returned a token. */
  predicate ReturnedToken(s: System, c: nat) {
    c < |s.callers| && s.callers[c].Done? && IsToken(s.callers[c].outcome)
  }

  /** The caller can still return a token, or did: it looked in time, and its flight has not failed. */
  predicate MayReturnToken(s: System, c: nat) {
    c < |s.callers|
    && match s.callers[c]
       case Looked(f) => f < |s.entry.flights|
           && (s.entry.flights[f].result.Some? ==> s.entry.flights[f].result.value.Token?)
       case Leaving(_, outcome) => IsToken(outcome)
       case Done(outcome) => IsToken(outcome)
       case _ => false
  }

  /** After a sign-out returned, `t` holds no token, and the callers that can still
      return one could already do so in `s`. */
  ghost predicate NoNewToken(s: System, t: System) {
    && SignedOut in t.signOuts && t.entry.token.None? && !t.entry.valid
    && (forall c :: MayReturnToken(t, c) ==> MayReturnToken(s, c))
  }

  lemma StepAfterSignOut(s: System, t: System, a: Action)
    requires Inv(t) && Enabled(t, a) && NoNewToken(s, t)
    ensures NoNewToken(s, Do(t, a))
  {
    hide Live, Starting, IsOn, FlightOk;
    StepKeepsInv(t, a);
    var u := Do(t, a);
    var k :| 0 <= k < |t.signOuts| && t.signOuts[k] == SignedOut;
    assert u.signOuts[k] == SignedOut;
    forall c | MayReturnToken(u, c)
      ensures MayReturnToken(t, c)
    {
      StepGivesNoToken(t, a, c);
    }
  }

  lemma StepGivesNoToken(t: System, a: Action, c: nat)
    requires Inv(t) && Enabled(t, a) && t.entry.token.None? && !t.entry.valid && MayReturnToken(Do(t, a), c)
    ensures MayReturnToken(t, c)
  {
    hide Live, Starting;
    assert c < |t.callers| && t.callers[c].Looked? ==> IsOn(t.callers[c], t.callers[c].flight);
    if a.Finish? {
      assert FlightOk(t, a.flight);
    }
  }

  /** Once `invalidate` returned, no later state of the entry holds a token, in any
      interleaving with jobs and callers that found the entry valid before. Only
      callers that had already looked at it can still hand one out. */
  lemma {:induction false} SignOutIsFinal(before: seq<Action>, more: seq<Action>)
    requires SignedOut in After(before).signOuts
    ensures NoNewToken(After(before), After(before + more))
    decreases more
  {
    hide Do, Enabled, Inv, NoNewToken;
    if more == [] {
      AfterHasInv(before);
      assert before + more == before;
      SignOutNow(After(before));
    } else {
      var rest, a := more[..|more| - 1], more[|more| - 1];
      assert before + more == (before + rest) + [a];
      SignOutIsFinal(before, rest);
      RunAppend(INITIAL, before + rest, [a]);
      AfterHasInv(before + rest);
      RunOne(After(before + rest), a);
      if Enabled(After(before + rest), a) {
        StepAfterSignOut(After(before), After(before + rest), a);
      }
    }
  }

  lemma RunOne(s: System, a: Action)
    ensures Run(s, [a]) == if Enabled(s, a) then Do(s, a) else s
  {
    hide Do, Enabled;
    assert [a][..0] == [];
    assert Run(s, []) == s;
  }

  lemma SignOutNow(s: System)
    requires Inv(s) && SignedOut in s.signOuts
    ensures NoNewToken(s, s)
  {
  }

  // ----- The window of a late token

  lemma {:induction false} SomeStarter(callers: seq<Caller>, f: nat) returns (c: nat)
    requires Starting(callers, f) > 0
    ensures c < |callers| && callers[c] == Spawning(f)
  {
    if callers[0] == Spawning(f) {
      c := 0;
    } else {
      var d := SomeStarter(callers[1..], f);
      c := d + 1;
    }
  }

  /** The steps that end the job of a flight that a caller has looked at. */
  lemma JobCanFinish(s: System, c: nat, token: string) returns (more: seq<Action>)
    requires Inv(s) && MayReturnToken(s, c) && s.callers[c].Looked?
    ensures Inv(Run(s, more)) && c < |Run(s, more).callers| && Run(s, more).callers[c] == s.callers[c]
    ensures var f := s.callers[c].flight;
            && f < |Run(s, more).entry.flights| && Run(s, more).entry.flights[f].result.Some?
            && Run(s, more).entry.flights[f].result.value.Token?
  {
    hide Inv, Live, Starting, IsOn, FlightOk, Run;
    var f := s.callers[c].flight;
    var t := s;
    more := [];
    JobOf(s, f);
    if s.jobs[f].Unborn? {
      var d := SomeStarter(s.callers, f);
      StepKeepsInv(s, Spawn(d));
      RunOne(s, Spawn(d));
      t, more := Do(s, Spawn(d)), [Spawn(d)];
    } else {
      RunNothing(s);
    }
    if t.jobs[f].Running? {
      StepKeepsInv(t, Finish(f, Token(token)));
      RunNext(s, more, Finish(f, Token(token)), t);
      more := more + [Finish(f, Token(token))];
    }
  }

  /** The job of a flight: it has a result once it finished, and somebody starts it before. */
  lemma JobOf(s: System, f: nat)
    requires Inv(s) && f < |s.entry.flights|
    ensures f < |s.jobs| == |s.entry.flights| && (s.entry.flights[f].result.Some? <==> s.jobs[f].Finished?)
    ensures s.jobs[f].Unborn? ==> Starting(s.callers, f) > 0
  {
    hide Live, Starting, IsOn;
    assert FlightOk(s, f);
  }

  lemma RunNothing(s: System)
    ensures Run(s, []) == s
  {
  }

  /** A caller on a flight is counted, so it can leave. */
  lemma LeavesCounted(s: System, c: nat)
    requires Inv(s) && c < |s.callers| && s.callers[c].Leaving?
    ensures Enabled(s, Leave(c))
  {
    var f := s.callers[c].flight;
    assert IsOn(s.callers[c], f);
    CountSome(s.callers, c, f);
    assert FlightOk(s, f);
  }

  /** Whoever may return a token does so in some continuation. */
  lemma TokenCanStillReturn(s: System, c: nat, token: string) returns (more: seq<Action>)
    requires Inv(s) && MayReturnToken(s, c)
    ensures ReturnedToken(Run(s, more), c)
  {
    hide Inv, Live, Starting, IsOn, FlightOk, Run;
    more := [];
    RunNothing(s);
    var t := s;
    if s.callers[c].Looked? {
      more := JobCanFinish(s, c, token);
      var ready := Run(s, more);
      StepKeepsInv(ready, Read(c, false));
      RunNext(s, more, Read(c, false), ready);
      more, t := more + [Read(c, false)], Do(ready, Read(c, false));
    }
    if t.callers[c].Leaving? {
      LeavesCounted(t, c);
      RunNext(s, more, Leave(c), t);
      more := more + [Leave(c)];
    }
  }

  /** After a sign-out returned, the callers that can return a token in some
      continuation are exactly those that looked in time and whose flight has not failed. */
  lemma LateTokenWindow(before: seq<Action>, c: nat)
    requires SignedOut in After(before).signOuts
    ensures (exists more :: ReturnedToken(After(before + more), c)) <==> MayReturnToken(After(before), c)
  {
    hide Run, Inv, NoNewToken;
    AfterHasInv(before);
    if MayReturnToken(After(before), c) {
      var more := TokenCanStillReturn(After(before), c, "");
      RunAppend(INITIAL, before, more);
      assert ReturnedToken(After(before + more), c);
    }
    forall more | ReturnedToken(After(before + more), c)
      ensures MayReturnToken(After(before), c)
    {
      SignOutIsFinal(before, more);
      NoNewTokenAt(After(before), After(before + more), c);
    }
  }

  lemma NoNewTokenAt(s: System, t: System, c: nat)
    requires NoNewToken(s, t) && ReturnedToken(t, c)
    ensures MayReturnToken(s, c)
  {
    assert MayReturnToken(t, c);
  }

  /** The window is real: a caller that looked before the sign-out can return the
      late result of its cancelled flight. */
  lemma LateTokenIsPossible(token: string)
    ensures var s := After([Begin(false), Lock(0, None), Spawn(0), Look(0, false), Store, TakeDown(0),
                            Finish(0, Token(token)), Read(0, false), Leave(0)]);
            s.signOuts == [SignedOut] && s.entry.token.None? && s.callers == [Done(Returned(token))]
  {
    hide Run;
    var start := [Begin(false), Lock(0, None), Spawn(0), Look(0, false)];
    var s4 := LookedAt();
    var s5 := Do(s4, Store);
    var s6 := Do(s5, TakeDown(0));
    var s7 := Do(s6, Finish(0, Token(token)));
    var s8 := Do(s7, Read(0, false));
    RunNext(INITIAL, start, Store, s4);
    RunNext(INITIAL, start + [Store], TakeDown(0), s5);
    RunNext(INITIAL, start + [Store] + [TakeDown(0)], Finish(0, Token(token)), s6);
    RunNext(INITIAL, start + [Store] + [TakeDown(0)] + [Finish(0, Token(token))], Read(0, false), s7);
    RunNext(INITIAL, start + [Store] + [TakeDown(0)] + [Finish(0, Token(token))] + [Read(0, false)], Leave(0), s8);
    assert start + [Store] + [TakeDown(0)] + [Finish(0, Token(token))] + [Read(0, false)] + [Leave(0)]
        == [Begin(false), Lock(0, None), Spawn(0), Look(0, false), Store, TakeDown(0),
            Finish(0, Token(token)), Read(0, false), Leave(0)];
  }

  /** One caller that started the only flight and looked at it. */
  lemma LookedAt() returns (s: System)
    ensures s == After([Begin(false), Lock(0, None), Spawn(0), Look(0, false)])
    ensures s == System(Entry(true, None, Some(0), false, [Flight(false, 1, None)]), [Looked(0)], [Running], [], {})
  {
    var s1 := Do(INITIAL, Begin(false));
    var s2 := Do(s1, Lock(0, None));
    var s3 := Do(s2, Spawn(0));
    s := Do(s3, Look(0, false));
    RunOne(INITIAL, Begin(false));
    hide Run;
    RunNext(INITIAL, [Begin(false)], Lock(0, None), s1);
    RunNext(INITIAL, [Begin(false)] + [Lock(0, None)], Spawn(0), s2);
    RunNext(INITIAL, [Begin(false)] + [Lock(0, None)] + [Spawn(0)], Look(0, false), s3);
    assert [Begin(false)] + [Lock(0, None)] + [Spawn(0)] + [Look(0, false)]
        == [Begin(false), Lock(0, None), Spawn(0), Look(0, false)];
  }

  lemma RunNext(s: System, actions: seq<Action>, a: Action, before: System)
    requires Run(s, actions) == before && Enabled(before, a)
    ensures Run(s, actions + [a]) == Do(before, a)
  {
    hide Do, Enabled;
    assert (actions + [a])[..|actions|] == actions;
  }
}
