/** The objects of src/external_auth.rs: flights and entries that threads share,
    and the registry of entries. Each method is one critical section; its
    contract is the step of module Authentication. */
module SignIn {
  import opened Options
  import A = Authentication

  datatype Method = Password | TrinoExternal

  /** A connection profile: what tells two connections apart is its `id`, its
      `endpoint` (host, user and the other compared settings) and its sign-in method. */
  datatype Profile = Profile(id: nat, endpoint: string, authentication: Method, name: string)

  predicate SameConnection(a: Profile, b: Profile) {
    a.id == b.id && a.endpoint == b.endpoint && a.authentication == b.authentication
  }

  /** All that tells two connections apart is equal; the name can differ. */
  ghost predicate IsSameAs(a: Profile, b: Profile) { a == b.(name := a.name) }

  class FlightCell {
    var cancel: bool
    var waiters: nat
    var result: Option<A.Answer>

    constructor ()
      ensures !cancel && waiters == 0 && result.None?
    {
      cancel, waiters, result := false, 0, None;
    }
  }

  ghost predicate Distinct<T>(cells: seq<T>) { forall i, j :: 0 <= i < j < |cells| ==> cells[i] != cells[j] }

  ghost function IndexOf(all: seq<FlightCell>, cell: FlightCell): (i: nat)
    requires cell in all
    ensures i < |all| && all[i] == cell
  {
    var i :| 0 <= i < |all| && all[i] == cell;
    i
  }

  ghost function ViewOf(all: seq<FlightCell>): (flights: seq<A.Flight>)
    reads all
    ensures |flights| == |all|
    ensures forall i :: 0 <= i < |all| ==> flights[i] == A.Flight(all[i].cancel, all[i].waiters, all[i].result)
  {
    if all == [] then []
    else ViewOf(all[..|all| - 1]) + [A.Flight(all[|all| - 1].cancel, all[|all| - 1].waiters, all[|all| - 1].result)]
  }

  class EntryCell {
    const profile: Profile
    var valid: bool
    var token: Option<string>
    var flight: FlightCell?
    var failed: bool

    constructor (profile: Profile)
      ensures this.profile == profile && valid && token.None? && flight == null && !failed
    {
      this.profile := profile;
      valid, token, flight, failed := true, None, null, false;
    }

    /** `all` are the flights that this entry ever had. */
    ghost predicate Knows(all: seq<FlightCell>)
      reads this
    {
      Distinct(all) && (flight != null ==> flight in all)
    }

    /** The entry as the transition system sees it. */
    ghost function View(all: seq<FlightCell>): A.Entry
      requires Knows(all)
      reads this, all
    {
      A.Entry(valid, token, if flight == null then None else Some(IndexOf(all, flight)), failed, ViewOf(all))
    }

    method Invalidate(ghost all: seq<FlightCell>)
      requires Knows(all)
      modifies this, flight
      ensures Knows(all) && View(all) == A.TakenDown(old(View(all)).(valid := false))
      ensures !valid && token.None? && flight == null
      ensures old(flight) != null ==> old(flight).cancel
    {
      ghost var before := View(all);
      valid := false;
      token := None;
      if flight != null {
        ghost var f := IndexOf(all, flight);
        flight.cancel := true;
        flight := null;
        assert ViewOf(all) == before.flights[f := before.flights[f].(cancel := true)];
      }
    }

    method SignOut()
      modifies this, flight
      ensures !valid && token.None? && flight == null
      ensures old(flight) != null ==> old(flight).cancel
    {
      Invalidate(if flight == null then [] else [flight]);
    }

    /** The critical section of `authenticate`: the usable token, or else the
        flight to wait for, and whether the caller has to start its job. */
    method Join(rejected: Option<string>, ghost all: seq<FlightCell>)
      returns (cached: Option<string>, joined: FlightCell?, start: bool, ghost now: seq<FlightCell>)
      requires Knows(all)
      modifies this, flight
      ensures Knows(now) && cached == A.Usable(old(View(all)), rejected)
      ensures cached.Some? <==> old(token).Some? && old(token) != rejected
      ensures cached.Some? ==> cached == old(token)
      ensures cached.None? ==>
                && token.None? && !failed && joined != null && flight == joined && !joined.cancel
                && (start <==> old(flight) == null || old(flight.cancel))
                && joined.waiters == (if start then 1 else old(flight.waiters) + 1)
                && (!start ==> joined == old(flight))
      ensures cached.Some? ==> now == all && View(now) == old(View(all)) && joined == null && !start
      ensures cached.None? ==>
                && View(now) == A.Joined(old(View(all)))
                && start == !A.Joins(old(View(all)))
                && (if start then fresh(joined) && now == all + [joined] else now == all)
                && A.JoinedFlight(old(View(all))) < |now| && joined == now[A.JoinedFlight(old(View(all)))]
    {
      now, joined, start, cached := all, null, false, None;
      if token.Some? && token != rejected {
        cached := token;
      } else if flight != null && !flight.cancel {
        joined := JoinCurrent(all);
      } else {
        joined, now := StartFlight(all);
        start := true;
      }
    }

    method JoinCurrent(ghost all: seq<FlightCell>) returns (joined: FlightCell)
      requires Knows(all) && flight != null && !flight.cancel
      modifies this, flight
      ensures Knows(all) && A.Joins(old(View(all))) && View(all) == A.Joined(old(View(all)))
      ensures joined == all[A.JoinedFlight(old(View(all)))]
    {
      ghost var before := View(all);
      ghost var f := IndexOf(all, flight);
      token := None;
      failed := false;
      joined := flight;
      joined.waiters := joined.waiters + 1;
      assert ViewOf(all) == before.flights[f := A.Flight(false, before.flights[f].waiters + 1,
          before.flights[f].result)];
    }

    method StartFlight(ghost all: seq<FlightCell>) returns (joined: FlightCell, ghost now: seq<FlightCell>)
      requires Knows(all) && (flight == null || flight.cancel)
      modifies this
      ensures Knows(now) && fresh(joined) && now == all + [joined]
      ensures !A.Joins(old(View(all))) && View(now) == A.Joined(old(View(all)))
    {
      hide IndexOf, ViewOf;
      ghost var before := View(all);
      token := None;
      failed := false;
      joined := new FlightCell();
      joined.waiters := 1;
      flight := joined;
      now := all + [joined];
      assert now[IndexOf(now, joined)] == joined && now[|all|] == joined;
      assert now[..|all|] == all;
      assert ViewOf(now) == before.flights + [A.Flight(false, 1, None)];
    }

    /** The completion block of the job of `running`. */
    method Complete(running: FlightCell, answer: A.Answer, ghost all: seq<FlightCell>)
      requires Knows(all) && running in all
      modifies this, running
      ensures Knows(all) && View(all) == A.Completed(old(View(all)), IndexOf(all, running), answer)
      ensures running.result == Some(answer)
      ensures if old(valid && !running.cancel && flight == running) then
                flight == null && failed == answer.Failed?
                && token == if answer.Token? then Some(answer.token) else None
              else
                flight == (if old(flight) == running then null else old(flight))
                && failed == old(failed) && token == old(token)
    {
      hide IndexOf, ViewOf;
      ghost var before, f := View(all), IndexOf(all, running);
      if valid && !running.cancel && flight == running {
        token := if answer.Token? then Some(answer.token) else None;
        failed := answer.Failed?;
        flight := null;
      } else if flight == running {
        flight := null;
      }
      running.result := Some(answer);
      assert ViewOf(all) == before.flights[f := before.flights[f].(result := Some(answer))];
      assert before.flight == Some(f) <==> old(flight) == running;
    }

    /** `Waiter::drop` */
    method Leave(left: FlightCell, ghost all: seq<FlightCell>)
      requires Knows(all) && left in all && left.waiters > 0
      modifies left
      ensures Knows(all) && View(all) == A.Left(old(View(all)), IndexOf(all, left))
      ensures left.waiters == old(left.waiters) - 1 && (left.cancel <==> old(left.cancel) || left.waiters == 0)
    {
      ghost var before, f := View(all), IndexOf(all, left);
      left.waiters := left.waiters - 1;
      if left.waiters == 0 {
        left.cancel := true;
      }
      assert ViewOf(all) == before.flights[f := A.Flight(left.cancel, left.waiters, left.result)];
    }

    method Reject(rejected: Option<string>, ghost all: seq<FlightCell>)
      requires Knows(all)
      modifies this
      ensures Knows(all) && View(all) == A.Rejected(old(View(all)), rejected)
      ensures old(token).Some? && old(token) == rejected ==> token.None? && failed
      ensures old(token).None? || old(token) != rejected ==> token == old(token) && failed == old(failed)
    {
      if token.Some? && token == rejected {
        token := None;
        failed := true;
      }
    }
  }

  /** What a retained and a removed entry look like after the call. */
  twostate predicate Retained(e: EntryCell, keep: bool)
    reads e, e.flight
  {
    if keep then unchanged(e) && (e.flight != null ==> e.flight.cancel == old(e.flight.cancel))
    else !e.valid && e.token.None? && e.flight == null
  }

  ghost predicate Apart(entries: seq<EntryCell>)
    reads entries
  {
    forall i, j :: 0 <= i < j < |entries| ==>
      entries[i] != entries[j] && (entries[i].flight == null || entries[i].flight != entries[j].flight)
  }

  /** The loop of `retain`. */
  method RetainEach(entries: seq<EntryCell>, keep: Profile -> bool) returns (kept: seq<EntryCell>)
    requires Apart(entries)
    modifies entries, set e | e in entries && e.flight != null :: e.flight
    ensures kept == Kept(entries, keep)
    ensures forall e :: e in entries ==> Retained(e, keep(e.profile))
    ensures forall e :: e in entries && !keep(e.profile) && old(e.flight) != null ==> old(e.flight).cancel
  {
    kept := [];
    for i := 0 to |entries|
      invariant kept == Kept(entries[..i], keep)
      invariant forall j :: 0 <= j < i ==> Retained(entries[j], keep(entries[j].profile))
      invariant forall j :: 0 <= j < i && !keep(entries[j].profile) && old(entries[j].flight) != null ==>
                old(entries[j].flight).cancel
      invariant forall j :: i <= j < |entries| ==> Retained(entries[j], true)
    {
      var entry := entries[i];
      assert entries[..i + 1][..i] == entries[..i];
      assert Retained(entry, true);
      if keep(entry.profile) {
        kept := kept + [entry];
      } else {
        entry.SignOut();
      }
    }
    assert entries[..|entries|] == entries;
  }

  datatype Access = Granted(entry: EntryCell) | NotExternal | NotUsable | SettingsChanged

  /** The registry of entries, under its own lock. */
  class Service {
    var entries: seq<EntryCell>
    var profiles: seq<Profile>

    constructor ()
      ensures Valid() && entries == [] && profiles == []
    {
      entries, profiles := [], [];
    }

    /** Every entry of the registry is valid, no two are for the same connection,
        and no two share a flight. */
    ghost predicate Valid()
      reads this, entries
    {
      && (forall i :: 0 <= i < |entries| ==> entries[i].valid)
      && (forall i, j :: 0 <= i < j < |entries| ==>
            && !SameConnection(entries[i].profile, entries[j].profile)
            && (entries[i].flight == null || entries[i].flight != entries[j].flight))
    }

    ghost function Flights(): set<FlightCell>
      reads this, entries
    {
      set e | e in entries && e.flight != null :: e.flight
    }

    /** `retain` over the registry: an entry that goes is invalidated first. */
    method Retain(keep: Profile -> bool)
      requires Valid()
      modifies this`entries, entries, Flights()
      ensures Valid() && entries == Kept(old(entries), keep)
      ensures forall e :: e in old(entries) ==> Retained(e, keep(e.profile))
      ensures forall e :: e in old(entries) && !keep(e.profile) && old(e.flight) != null ==> old(e.flight).cancel
    {
      ghost var all := entries;
      entries := RetainEach(entries, keep);
      KeptMembers(all, keep);
      forall a, b | 0 <= a < b < |entries|
        ensures !SameConnection(entries[a].profile, entries[b].profile)
        ensures entries[a].flight == null || entries[a].flight != entries[b].flight
      {
        var k, l := KeptPair(all, keep, a, b);
        assert Retained(all[k], true) && Retained(all[l], true);
      }
    }

    /** Drops every entry whose profile is not among the new ones any more. */
    method Configure(changed: seq<Profile>)
      requires Valid()
      modifies this, entries, Flights()
      ensures Valid() && profiles == changed
      ensures entries == Kept(old(entries), Configured(changed))
      ensures forall e :: e in entries <==>
                e in old(entries) && exists p :: p in changed && p.authentication == TrinoExternal
                                                 && IsSameAs(e.profile, p)
      ensures forall e :: e in old(entries) ==> Retained(e, Configured(changed)(e.profile))
      ensures forall e :: e in old(entries) && !Configured(changed)(e.profile) && old(e.flight) != null ==>
              old(e.flight).cancel
    {
      hide Configured, Kept;
      profiles := changed;
      Retain(Configured(changed));
      ConfiguredAre(old(entries), changed);
    }

    /** Local sign-out of a connection. */
    method Clear(id: nat)
      requires Valid()
      modifies this`entries, entries, Flights()
      ensures Valid() && (forall e :: e in entries <==> e in old(entries) && e.profile.id != id)
      ensures forall e :: e in old(entries) ==> Retained(e, e.profile.id != id)
      ensures forall e :: e in old(entries) && e.profile.id == id && old(e.flight) != null ==> old(e.flight).cancel
    {
      Retain((profile: Profile) => profile.id != id);
      KeptMembers(old(entries), (profile: Profile) => profile.id != id);
    }

    /** The entry of a connection. It is never one that was signed out, and a
        profile that is not configured any more gets none. */
    method Secret(profile: Profile, usable: bool) returns (access: Access)
      requires Valid()
      modifies this`entries
      ensures Valid()
      ensures access == NotExternal <==> profile.authentication != TrinoExternal
      ensures access == NotUsable <==> profile.authentication == TrinoExternal && !usable
      ensures access == SettingsChanged <==>
                && profile.authentication == TrinoExternal && usable
                && !exists p :: p in profiles && IsSameAs(p, profile)
      ensures access.Granted? ==>
                && access.entry in entries && access.entry.valid && IsSameAs(access.entry.profile, profile)
                && (if exists e :: e in old(entries) && IsSameAs(e.profile, profile) then entries == old(entries)
                    else entries == old(entries) + [access.entry] && fresh(access.entry) && access.entry.token.None?)
      ensures !access.Granted? ==> entries == old(entries)
    {
      assert forall p :: IsSameAs(p, profile) <==> SameConnection(p, profile);
      if profile.authentication != TrinoExternal {
        return NotExternal;
      }
      if !usable {
        return NotUsable;
      }
      if !exists p :: p in profiles && SameConnection(p, profile) {
        return SettingsChanged;
      }
      var i := 0;
      while i < |entries|
        invariant i <= |entries|
        invariant forall j :: 0 <= j < i ==> !SameConnection(entries[j].profile, profile)
      {
        if SameConnection(entries[i].profile, profile) {
          return Granted(entries[i]);
        }
        i := i + 1;
      }
      var entry := new EntryCell(profile);
      entries := entries + [entry];
      access := Granted(entry);
    }
  }

  function Configured(profiles: seq<Profile>): Profile -> bool {
    (connection: Profile) =>
      exists p :: p in profiles && p.authentication == TrinoExternal && SameConnection(connection, p)
  }

  function Kept(entries: seq<EntryCell>, keep: Profile -> bool): seq<EntryCell> {
    if entries == [] then []
    else
      var last := entries[|entries| - 1];
      Kept(entries[..|entries| - 1], keep) + if keep(last.profile) then [last] else []
  }

  /** Exactly the entries of connections that are still configured are kept. */
  lemma ConfiguredAre(entries: seq<EntryCell>, changed: seq<Profile>)
    ensures forall e :: e in Kept(entries, Configured(changed)) <==>
              e in entries && exists p :: p in changed && p.authentication == TrinoExternal && IsSameAs(e.profile, p)
  {
    hide Kept;
    KeptMembers(entries, Configured(changed));
    forall e
      ensures Configured(changed)(e) <==>
                exists p :: p in changed && p.authentication == TrinoExternal && IsSameAs(e, p)
    {
      assert forall p :: IsSameAs(e, p) <==> SameConnection(e, p);
    }
  }

  lemma {:induction false} KeptMembers(entries: seq<EntryCell>, keep: Profile -> bool)
    ensures forall i :: 0 <= i < |Kept(entries, keep)| ==>
            Kept(entries, keep)[i] in entries && keep(Kept(entries, keep)[i].profile)
    ensures forall e :: e in entries && keep(e.profile) ==> e in Kept(entries, keep)
  {
    if entries != [] {
      KeptMembers(entries[..|entries| - 1], keep);
    }
  }

  /** Where two kept entries were. */
  lemma {:induction false} KeptPair(entries: seq<EntryCell>, keep: Profile -> bool, i: nat, j: nat)
    returns (k: nat, l: nat)
    requires i < j < |Kept(entries, keep)|
    ensures k < l < |entries| && entries[k] == Kept(entries, keep)[i] && entries[l] == Kept(entries, keep)[j]
    ensures keep(entries[k].profile) && keep(entries[l].profile)
  {
    var n := |entries| - 1;
    var rest := entries[..n];
    KeptMembers(rest, keep);
    if j < |Kept(rest, keep)| {
      k, l := KeptPair(rest, keep, i, j);
    } else {
      var e := Kept(rest, keep)[i];
      k :| 0 <= k < n && rest[k] == e;
      l := n;
    }
  }
}
