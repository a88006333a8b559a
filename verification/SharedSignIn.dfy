/** What callers get from one entry of src/external_auth.rs, from their first step to
    their last: the shared answer, the cached token, or the reason why there is none. */
module SharedSignIn {
  import opened Options
  import opened Authentication

  ghost function Step(s: System, a: Action): System { if Enabled(s, a) then Do(s, a) else s }

  ghost predicate IsAt(s: System, c: nat, caller: Caller) { c < |s.callers| && s.callers[c] == caller }

  lemma RunTwo(s: System, a: Action, b: Action)
    ensures Run(s, [a]) == Step(s, a) && Run(s, [a, b]) == Step(Step(s, a), b)
  {
    hide Do, Enabled;
    assert [a][..0] == [] && [a, b][..1] == [a];
    assert Run(s, []) == s;
  }

  lemma RunThree(s: System, a: Action, b: Action, c: Action)
    ensures Run(s, [a, b, c]) == Step(Step(Step(s, a), b), c)
  {
    hide Do, Enabled;
    RunTwo(s, a, b);
    assert [a, b, c][..2] == [a, b];
  }

  // ----- The answer of a flight

  /** Everyone who waits for a flight of a valid entry returns its answer, and is counted off. */
  lemma WaiterGetsAnswer(s: System, c: nat, f: nat, late: bool)
    requires Inv(s) && c < |s.callers| && s.callers[c] == Waiting(f) && s.entry.valid
    requires f < |s.entry.flights| && s.entry.flights[f].result.Some?
    ensures var t := Run(s, [Look(c, false), Read(c, late), Leave(c)]);
            && IsAt(t, c, Done(match s.entry.flights[f].result.value
                               case Token(token) => Returned(token)
                               case Failed(message) => Error(message)))
            && f < |t.entry.flights| && t.entry.flights[f].waiters == s.entry.flights[f].waiters - 1
  {
    hide Live, Starting, Run, IsOn, Inv;
    RunThree(s, Look(c, false), Read(c, late), Leave(c));
    ReadsAnswer(s, c, f, late);
    LeavesCounted(Step(Step(s, Look(c, false)), Read(c, late)), c);
  }

  lemma ReadsAnswer(s: System, c: nat, f: nat, late: bool)
    requires Inv(s) && c < |s.callers| && s.callers[c] == Waiting(f) && s.entry.valid
    requires f < |s.entry.flights| && s.entry.flights[f].result.Some?
    ensures var t := Step(Step(s, Look(c, false)), Read(c, late));
            Inv(t) && t.entry == s.entry && IsAt(t, c, Leaving(f, Outgoing(s.entry.flights[f].result.value)))
  {
    hide Live, Starting, Run, IsOn, Inv;
    StepKeepsInv(s, Look(c, false));
    StepKeepsInv(Do(s, Look(c, false)), Read(c, late));
  }

  /** A waiter that is cancelled, or finds the entry invalid, leaves without an answer, even
      when there is one. */
  lemma CancelledWaiterLeaves(s: System, c: nat, cancelled: bool)
    requires Inv(s) && c < |s.callers| && s.callers[c].Waiting? && (cancelled || !s.entry.valid)
    ensures IsAt(Run(s, [Look(c, cancelled), Leave(c)]), c, Done(Cancelled))
  {
    hide Live, Starting, Run, IsOn;
    RunTwo(s, Look(c, cancelled), Leave(c));
    StepKeepsInv(s, Look(c, cancelled));
    LeavesCounted(Do(s, Look(c, cancelled)), c);
  }

  /** Before there is an answer a waiter goes on waiting, until its time is over. */
  lemma WaitsForAnswer(s: System, c: nat, f: nat)
    requires Inv(s) && c < |s.callers| && s.callers[c] == Waiting(f) && s.entry.valid
    requires f < |s.entry.flights| && s.entry.flights[f].result.None?
    ensures Run(s, [Look(c, false), Read(c, false)]) == s
    ensures IsAt(Run(s, [Look(c, false), Read(c, true), Leave(c)]), c, Done(TimedOut))
  {
    hide Live, Starting, Run, IsOn;
    RunTwo(s, Look(c, false), Read(c, false));
    RunThree(s, Look(c, false), Read(c, true), Leave(c));
    StepKeepsInv(s, Look(c, false));
    var t := Do(s, Look(c, false));
    assert s.callers[c := Looked(f)][c := Waiting(f)] == s.callers;
    StepKeepsInv(t, Read(c, true));
    LeavesCounted(Do(t, Read(c, true)), c);
  }

  // ----- New callers

  /** A caller that is cancelled or finds the entry invalid never gets to the lock. */
  lemma NewCaller(s: System, cancelled: bool)
    ensures Run(s, [Begin(cancelled)])
         == s.(callers := s.callers + [if cancelled then Done(Cancelled)
                                       else if s.entry.valid then Checked else Done(SettingsChanged)])
    ensures s.entry.valid ==>
              Run(s, [Peek, ReadCache(|s.callers|)]).callers == s.callers + [Done(Cached(s.entry.token))]
    ensures !s.entry.valid ==> Run(s, [Peek]).callers == s.callers + [Done(SettingsChanged)]
  {
    hide Run;
    RunTwo(s, Begin(cancelled), Peek);
    RunTwo(s, Peek, ReadCache(|s.callers|));
    if s.entry.valid {
      var c := |s.callers|;
      var t := Step(s, Peek);
      assert t.callers == s.callers + [Peeking];
      assert t.callers[c := Done(Cached(s.entry.token))] == s.callers + [Done(Cached(s.entry.token))];
    }
  }

  /** The answer of a flight that nobody took down is the entry's: a token is at hand for
      everyone who comes later, and after a failure the next one starts anew. The answer of any
      other flight changes neither. */
  lemma AnswerIsShared(s: System, f: nat, answer: Answer)
    requires Inv(s) && f < |s.jobs| && s.jobs[f].Running?
    ensures var (t, c) := (Run(s, [Finish(f, answer)]), |s.callers|);
            && f < |t.entry.flights| && t.entry.flights[f].result == Some(answer)
            && if s.entry.valid && !s.entry.flights[f].cancel then
                 && t.entry.flight.None? && t.entry.failed == answer.Failed?
                 && t.entry.token == (if answer.Token? then Some(answer.token) else None)
                 && (answer.Token? ==>
                       IsAt(Run(s, [Finish(f, answer), Begin(false), Lock(c, None)]), c,
                            Done(Returned(answer.token))))
                 && (answer.Failed? ==>
                       IsAt(Run(s, [Finish(f, answer), Begin(false), Lock(c, None)]), c, Spawning(|s.jobs|)))
               else
                 && t.entry.token == s.entry.token && t.entry.failed == s.entry.failed
                 && t.entry.flight == if s.entry.flight == Some(f) then None else s.entry.flight
  {
    hide Live, Starting, Run, IsOn, IsAt;
    var c := |s.callers|;
    assert FlightOk(s, f);
    hide Inv, FlightOk;
    RunTwo(s, Finish(f, answer), Begin(false));
    RunThree(s, Finish(f, answer), Begin(false), Lock(c, None));
    if s.entry.valid && !s.entry.flights[f].cancel {
      NextCaller(Step(s, Finish(f, answer)));
    }
  }

  /** What the next caller finds when there is no flight. */
  lemma NextCaller(s: System)
    requires s.entry.valid && s.entry.flight.None?
    ensures var c := |s.callers|;
            IsAt(Step(Step(s, Begin(false)), Lock(c, None)), c,
                 if s.entry.token.Some? then Done(Returned(s.entry.token.value)) else Spawning(|s.entry.flights|))
  {
  }

  // ----- Rejection and sign-out

  /** A rejected token is forgotten, and the failure recorded, if it is the one at hand. */
  lemma RejectionIs(s: System, token: Option<string>)
    ensures var t := Run(s, [Reject(token)]);
            if s.entry.token.Some? && s.entry.token == token then
              t == s.(entry := s.entry.(token := None, failed := true))
            else t == s
  {
    hide Run;
    RunTwo(s, Reject(token), Peek);
  }

  /** A sign-out forgets the token and takes the flight down, once; other flights go on. */
  lemma SignOutIs(s: System)
    requires Inv(s)
    ensures var (k, t) := (|s.signOuts|, Run(s, [Store, TakeDown(|s.signOuts|)]));
            && !t.entry.valid && t.entry.token.None? && t.entry.flight.None? && t.entry.failed == s.entry.failed
            && t.signOuts == s.signOuts + [SignedOut] && t.callers == s.callers && t.jobs == s.jobs
            && |t.entry.flights| == |s.entry.flights|
            && (forall f :: 0 <= f < |s.entry.flights| ==>
                  t.entry.flights[f]
                  == if s.entry.flight == Some(f) then s.entry.flights[f].(cancel := true) else s.entry.flights[f])
            && forall i :: 0 <= i < |s.signOuts| && s.signOuts[i].SignedOut? ==> Run(s, [TakeDown(i)]) == s
  {
    hide Live, Starting, Run, IsOn;
    var k := |s.signOuts|;
    RunTwo(s, Store, TakeDown(k));
    forall i | 0 <= i < |s.signOuts| && s.signOuts[i].SignedOut?
      ensures Run(s, [TakeDown(i)]) == s
    {
      RunTwo(s, TakeDown(i), Peek);
    }
    assert (s.signOuts + [Stored])[k := SignedOut] == s.signOuts + [SignedOut];
  }

  /** After a sign-out returned, nobody hands out a token that did not already have it, was about
      to return it, or had looked at its flight. */
  lemma LateTokensAreFew(before: seq<Action>, more: seq<Action>, c: nat, token: string)
    requires SignedOut in After(before).signOuts
    requires IsAt(After(before + more), c, Done(Returned(token)))
             || IsAt(After(before + more), c, Done(Cached(Some(token))))
    ensures var s := After(before);
            && c < |s.callers|
            && match s.callers[c]
               case Looked(_) => true
               case Leaving(_, outcome) => outcome.Returned? || outcome.Cached?
               case Done(outcome) => outcome.Returned? || (outcome.Cached? && outcome.found.Some?)
               case _ => false
  {
    hide Run;
    SignOutIsFinal(before, more);
    assert MayReturnToken(After(before + more), c);
  }
}
