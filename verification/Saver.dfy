/** The workspace saver, the thread of `Saver::open` in src/storage.rs. */
module Saver {
  import opened Options
  import opened AtomicFile

  /** A snapshot is the text that the file gets. */
  datatype Command = Save(state: string) | Flush(state: string) | Stop

  /** A write of the snapshot of command `command`, and whether it succeeded. */
  datatype Attempt = Attempt(command: nat, state: string, ok: bool)

  ghost predicate Writes(commands: seq<Command>, attempt: Attempt) {
    && attempt.command < |commands| && !commands[attempt.command].Stop?
    && attempt.state == commands[attempt.command].state
  }

  /** Attempts follow the order of submission. */
  ghost predicate InOrder(commands: seq<Command>, log: seq<Attempt>) {
    && (forall k :: 0 <= k < |log| ==> Writes(commands, log[k]))
    && (forall j, k :: 0 <= j < k < |log| ==> log[j].command < log[k].command)
  }

  ghost predicate IsAttempted(log: seq<Attempt>, command: nat) {
    exists k :: 0 <= k < |log| && log[k].command == command
  }

  /** All commands of a stretch are saves. */
  ghost predicate OnlySaves(commands: seq<Command>, from: nat, to: nat) {
    forall i :: from <= i <= to && i < |commands| ==> commands[i].Save?
  }

  /** The write of command `i`: its own, or for a save that of a later save with only saves between. */
  ghost predicate IsCovered(commands: seq<Command>, log: seq<Attempt>, i: nat)
    requires i < |commands|
  {
    if commands[i].Save? then
      exists k :: 0 <= k < |log| && i <= log[k].command && OnlySaves(commands, i, log[k].command)
    else IsAttempted(log, i)
  }

  /** Every flush gets the result of its own write, and every failed save is reported. */
  ghost predicate Reported(commands: seq<Command>, log: seq<Attempt>, receipts: map<nat, bool>, errors: seq<nat>) {
    && (forall k :: 0 <= k < |log| && log[k].command < |commands| && commands[log[k].command].Flush? ==>
          log[k].command in receipts && receipts[log[k].command] == log[k].ok)
    && (forall i :: i in receipts ==> i < |commands| && commands[i].Flush? && IsAttempted(log, i))
    && (forall k :: 0 <= k < |log| && log[k].command < |commands| && commands[log[k].command].Save? && !log[k].ok ==>
          log[k].command in errors)
    && (forall i :: i in errors ==> i < |commands| && commands[i].Save? && IsAttempted(log, i))
  }

  /** The first `n` commands are done, and none of them stops the thread. */
  ghost predicate Done(commands: seq<Command>, log: seq<Attempt>, n: nat) {
    && n <= |commands|
    && (forall i :: 0 <= i < n ==> !commands[i].Stop? && IsCovered(commands, log, i))
    && (forall k :: 0 <= k < |log| ==> log[k].command < n)
  }

  /** A save is left out exactly when the next command is a save that has arrived by then. */
  ghost predicate Coalesced(commands: seq<Command>, early: nat -> bool, log: seq<Attempt>, n: nat)
    requires n <= |commands|
  {
    forall i :: 0 <= i < n && commands[i].Save? ==> (IsAttempted(log, i) <==> !GivesWay(commands, early, i))
  }

  predicate GivesWay(commands: seq<Command>, early: nat -> bool, i: nat) {
    i + 1 < |commands| && early(i + 1) && commands[i + 1].Save?
  }

  /** `content` is the snapshot of an attempt from the `k`th on. */
  ghost predicate FromLog(log: seq<Attempt>, k: nat, content: Option<string>) {
    exists j :: k <= j < |log| && content == Some(log[j].state)
  }

  /** A crash at state `h` leaves what the file was at the start or one whole
      snapshot; once a write has succeeded, that snapshot or a later one. `ends[k]`
      is the state in which attempt `k` ended. */
  ghost predicate CrashIsSafe(start: Disk, log: seq<Attempt>, ends: seq<nat>, disk: Disk, h: nat)
    requires |ends| == |log|
  {
    forall content :: CanCrashTo(disk, content) ==>
      && (CanCrashTo(start, content) || FromLog(log, 0, content))
      && (forall k :: 0 <= k < |log| && log[k].ok && ends[k] <= h ==> FromLog(log, k, content))
  }

  ghost predicate Durable(start: Disk, log: seq<Attempt>, ends: seq<nat>, history: seq<Disk>) {
    |ends| == |log| && Traced(log, ends, history)
    && forall h :: 0 <= h < |history| ==> CrashIsSafe(start, log, ends, history[h], h)
  }

  /** The state before attempt `k`: that in which the attempt before it ended. */
  function Begin(ends: seq<nat>, k: nat): nat
    requires k <= |ends|
  {
    if k == 0 then 0 else ends[k - 1]
  }

  /** An attempt went from one state to another: every crash on the way is safe, and
      a success leaves only its snapshot. */
  ghost predicate Ran(attempt: Attempt, history: seq<Disk>, begin: nat, end: nat) {
    && begin < end < |history|
    && (forall h :: begin < h <= end ==> Safe(history[begin], history[h], attempt.state))
    && (attempt.ok ==> LeavesOnly(history[end], attempt.state))
  }

  /** The states are those of the attempts, one after the other. */
  ghost predicate Traced(log: seq<Attempt>, ends: seq<nat>, history: seq<Disk>)
    requires |ends| == |log|
  {
    && |history| == Begin(ends, |log|) + 1
    && forall k :: 0 <= k < |log| ==> Ran(log[k], history, Begin(ends, k), ends[k])
  }

  lemma RanBefore(attempt: Attempt, before: seq<Disk>, history: seq<Disk>, begin: nat, end: nat)
    requires Ran(attempt, before, begin, end) && before < history
    ensures Ran(attempt, history, begin, end)
  {
    hide Safe, LeavesOnly;
    assert forall h :: 0 <= h < |before| ==> history[h] == before[h];
  }

  lemma TracedGrows(log: seq<Attempt>, ends: seq<nat>, before: seq<Disk>, history: seq<Disk>, attempt: Attempt)
    requires |ends| == |log| && Traced(log, ends, before) && before < history
    requires Ran(attempt, history, |before| - 1, |history| - 1)
    ensures Traced(log + [attempt], ends + [|history| - 1], history)
  {
    hide Ran;
    var more, all := log + [attempt], ends + [|history| - 1];
    forall k | 0 <= k < |more|
      ensures Ran(more[k], history, Begin(all, k), all[k])
    {
      if k < |log| {
        RanBefore(log[k], before, history, Begin(ends, k), ends[k]);
        assert more[k] == log[k] && Begin(all, k) == Begin(ends, k) && all[k] == ends[k];
      } else {
        assert more[k] == attempt && Begin(all, k) == Begin(ends, k);
      }
    }
  }

  // ----- One attempt

  lemma OrderGrows(commands: seq<Command>, log: seq<Attempt>, n: nat, attempt: Attempt)
    requires InOrder(commands, log) && Done(commands, log, n) && Writes(commands, attempt) && n <= attempt.command
    ensures InOrder(commands, log + [attempt])
  {
  }

  lemma EarlierCommands(commands: seq<Command>, log: seq<Attempt>, n: nat)
    requires Done(commands, log, n)
    ensures forall k :: 0 <= k < |log| ==> log[k].command < n
  {
  }

  lemma DoneGrows(commands: seq<Command>, log: seq<Attempt>, n: nat, attempt: Attempt)
    requires Done(commands, log, n) && Writes(commands, attempt) && n <= attempt.command
    requires commands[n].Flush? ==> attempt.command == n
    requires commands[n].Save? ==> OnlySaves(commands, n, attempt.command)
    requires !commands[n].Stop?
    ensures Done(commands, log + [attempt], attempt.command + 1)
  {
    var more := log + [attempt];
    assert more[|log|] == attempt;
    forall i | 0 <= i <= attempt.command
      ensures !commands[i].Stop? && IsCovered(commands, more, i)
    {
      if i < n {
        CoveredGrows(commands, log, attempt, i);
      } else if commands[n].Save? {
        assert OnlySaves(commands, i, attempt.command);
        assert more[|log|].command == attempt.command;
      }
    }
  }

  lemma CoalescedGrows(commands: seq<Command>, early: nat -> bool, log: seq<Attempt>, n: nat, attempt: Attempt)
    requires Done(commands, log, n) && n <= attempt.command < |commands| && Coalesced(commands, early, log, n)
    requires forall i :: n <= i < attempt.command ==> GivesWay(commands, early, i)
    requires commands[attempt.command].Save? ==> !GivesWay(commands, early, attempt.command)
    ensures Coalesced(commands, early, log + [attempt], attempt.command + 1)
  {
    hide GivesWay, IsCovered;
    var more := log + [attempt];
    assert more[|log|] == attempt && forall k :: 0 <= k < |log| ==> more[k] == log[k];
    AttemptedGrows(log, attempt);
    forall i | IsAttempted(more, i)
      ensures IsAttempted(log, i) || i == attempt.command
    {
      var k :| 0 <= k < |more| && more[k].command == i;
      assert k < |log| ==> log[k].command == i;
    }
    assert forall i: nat :: IsAttempted(log, i) ==> i < n;
  }

  lemma CoalescedIs(commands: seq<Command>, early: nat -> bool, log: seq<Attempt>, n: nat)
    requires n <= |commands| && Coalesced(commands, early, log, n)
    ensures forall i :: 0 <= i < n && commands[i].Save? ==>
              (IsAttempted(log, i) <==> !(i + 1 < |commands| && early(i + 1) && commands[i + 1].Save?))
  {
    hide IsAttempted;
  }

  lemma CoveredGrows(commands: seq<Command>, log: seq<Attempt>, attempt: Attempt, i: nat)
    requires i < |commands| && IsCovered(commands, log, i)
    ensures IsCovered(commands, log + [attempt], i)
  {
    var more := log + [attempt];
    if commands[i].Save? {
      var k :| 0 <= k < |log| && i <= log[k].command && OnlySaves(commands, i, log[k].command);
      assert more[k] == log[k];
    } else {
      var k :| 0 <= k < |log| && log[k].command == i;
      assert more[k] == log[k];
    }
  }

  lemma AttemptedGrows(log: seq<Attempt>, attempt: Attempt)
    ensures forall i :: IsAttempted(log, i) ==> IsAttempted(log + [attempt], i)
    ensures IsAttempted(log + [attempt], attempt.command)
  {
    var more := log + [attempt];
    assert more[|log|] == attempt;
    forall i | IsAttempted(log, i)
      ensures IsAttempted(more, i)
    {
      var k :| 0 <= k < |log| && log[k].command == i;
      assert more[k] == log[k];
    }
  }

  lemma ReportedGrows(commands: seq<Command>, log: seq<Attempt>, receipts: map<nat, bool>, errors: seq<nat>,
                      attempt: Attempt)
    requires Reported(commands, log, receipts, errors) && Writes(commands, attempt)
    requires forall k :: 0 <= k < |log| ==> log[k].command < attempt.command
    ensures commands[attempt.command].Flush? ==>
              Reported(commands, log + [attempt], receipts[attempt.command := attempt.ok], errors)
    ensures commands[attempt.command].Save? ==>
              Reported(commands, log + [attempt], receipts, if attempt.ok then errors else errors + [attempt.command])
  {
    hide IsAttempted;
    var more := log + [attempt];
    AttemptedGrows(log, attempt);
    assert more[|log|] == attempt;
    assert forall k :: 0 <= k < |log| ==> more[k] == log[k];
  }

  lemma FromLogGrows(log: seq<Attempt>, attempt: Attempt, k: nat, content: Option<string>)
    ensures FromLog(log, k, content) ==> FromLog(log + [attempt], k, content)
    ensures k <= |log| && content == Some(attempt.state) ==> FromLog(log + [attempt], k, content)
  {
    var more := log + [attempt];
    assert more[|log|] == attempt;
    if FromLog(log, k, content) {
      var j :| k <= j < |log| && content == Some(log[j].state);
      assert more[j] == log[j];
    }
  }

  /** The states before the attempt stay safe. */
  lemma OldStateStaysSafe(start: Disk, log: seq<Attempt>, ends: seq<nat>, disk: Disk, h: nat, attempt: Attempt,
                          end: nat)
    requires |ends| == |log| && CrashIsSafe(start, log, ends, disk, h) && h < end
    ensures CrashIsSafe(start, log + [attempt], ends + [end], disk, h)
  {
    hide FromLog, CanCrashTo;
    forall content, k: nat
      ensures FromLog(log, k, content) ==> FromLog(log + [attempt], k, content)
    {
      FromLogGrows(log, attempt, k, content);
    }
    assert forall k :: 0 <= k < |log| ==> (log + [attempt])[k] == log[k] && (ends + [end])[k] == ends[k];
  }

  /** So are those it goes through. `disk` is the state before it. */
  lemma NewStateIsSafe(start: Disk, log: seq<Attempt>, ends: seq<nat>, disk: Disk, at: nat, attempt: Attempt,
                       end: nat, next: Disk, h: nat)
    requires |ends| == |log| && CrashIsSafe(start, log, ends, disk, at) && at < h <= end
    requires forall k :: 0 <= k < |log| ==> ends[k] <= at
    requires Safe(disk, next, attempt.state)
    requires h == end && attempt.ok ==> LeavesOnly(next, attempt.state)
    ensures CrashIsSafe(start, log + [attempt], ends + [end], next, h)
  {
    hide FromLog, CanCrashTo;
    forall content, k: nat
      ensures FromLog(log, k, content) ==> FromLog(log + [attempt], k, content)
      ensures k <= |log| && content == Some(attempt.state) ==> FromLog(log + [attempt], k, content)
    {
      FromLogGrows(log, attempt, k, content);
    }
    assert forall k :: 0 <= k < |log| ==> (log + [attempt])[k] == log[k] && (ends + [end])[k] == ends[k];
  }

  lemma DurableGrows(start: Disk, log: seq<Attempt>, ends: seq<nat>, before: seq<Disk>, history: seq<Disk>,
                     attempt: Attempt)
    requires before != [] && before < history && Durable(start, log, ends, before)
    requires forall h :: |before| <= h < |history| ==> Safe(before[|before| - 1], history[h], attempt.state)
    requires attempt.ok ==> LeavesOnly(history[|history| - 1], attempt.state)
    ensures Durable(start, log + [attempt], ends + [|history| - 1], history)
  {
    hide CrashIsSafe, Safe, LeavesOnly, Traced;
    var end := |history| - 1;
    assert history[|before| - 1] == before[|before| - 1];
    TracedGrows(log, ends, before, history, attempt);
    forall k | 0 <= k < |log|
      ensures ends[k] < |before|
    {
      EndBefore(log, ends, before, k);
    }
    forall h | 0 <= h < |history|
      ensures CrashIsSafe(start, log + [attempt], ends + [end], history[h], h)
    {
      if h < |before| {
        OldStateStaysSafe(start, log, ends, history[h], h, attempt, end);
      } else {
        NewStateIsSafe(start, log, ends, before[|before| - 1], |before| - 1, attempt, end, history[h], h);
      }
    }
  }

  lemma EndBefore(log: seq<Attempt>, ends: seq<nat>, history: seq<Disk>, k: nat)
    requires |ends| == |log| && Traced(log, ends, history) && k < |log|
    ensures ends[k] < |history|
  {
  }

  class SaverThread {
    const file: WorkspaceFile
    var log: seq<Attempt>
    var receipts: map<nat, bool>
    var errors: seq<nat>
    ghost var ends: seq<nat>

    constructor (file: WorkspaceFile)
      ensures this.file == file && log == [] && receipts == map[] && errors == [] && ends == []
    {
      this.file := file;
      log, receipts, errors, ends := [], map[], [], [];
    }

    ghost predicate Ready()
      reads this, file
    {
      file.Valid() && file.disk.temporary.None?
    }

    /** What holds after the first `n` commands, from a file that was `start`. */
    ghost predicate Faithful(commands: seq<Command>, n: nat, start: Disk)
      reads this, file
    {
      && InOrder(commands, log) && Done(commands, log, n) && Reported(commands, log, receipts, errors)
      && Durable(start, log, ends, file.history)
    }

    /** Writes one snapshot and tells its result. */
    method WriteOne(commands: seq<Command>, at: nat, fault: Fault, ghost n: nat, ghost start: Disk)
      requires Ready() && Faithful(commands, n, start)
      requires n <= at < |commands| && !commands[n].Stop? && !commands[at].Stop?
      requires if commands[n].Save? then OnlySaves(commands, n, at) else at == n
      modifies this, file
      ensures Ready() && Faithful(commands, at + 1, start)
      ensures log == old(log) + [Attempt(at, commands[at].state, fault.NoFault?)]
      ensures old(file.history) < file.history
    {
      hide InOrder, Done, Reported, Durable, Safe, LeavesOnly, OnlySaves;
      ghost var before := file.history;
      var ok := file.Save(commands[at].state, fault);
      ghost var attempt := Attempt(at, commands[at].state, ok);
      EarlierCommands(commands, log, n);
      OrderGrows(commands, log, n, attempt);
      DoneGrows(commands, log, n, attempt);
      ReportedGrows(commands, log, receipts, errors, attempt);
      DurableGrows(start, log, ends, before, file.history, attempt);
      log := log + [Attempt(at, commands[at].state, ok)];
      ends := ends + [|file.history| - 1];
      if commands[at].Flush? {
        receipts := receipts[at := ok];
      } else if !ok {
        errors := errors + [at];
      }
    }

    /** Serves everything that is ever sent. `early(i)` says that command `i` is
        there when the thread looks for it before a write, so every arrival timing
        is one `early`; `faults` says how each write fails, if it does. */
    method Serve(commands: seq<Command>, early: nat -> bool, faults: nat -> Fault) returns (n: nat)
      requires Ready() && log == [] && receipts == map[] && errors == [] && ends == [] && |file.history| == 1
      modifies this, file
      ensures Ready() && Faithful(commands, n, old(file.disk))
      ensures n == |commands| || commands[n].Stop?
      ensures forall i :: 0 <= i < n && commands[i].Save? ==>
                (IsAttempted(log, i) <==> !(i + 1 < |commands| && early(i + 1) && commands[i + 1].Save?))
    {
      hide InOrder, Done, Reported, Durable, Writes, Coalesced;
      ghost var start := file.disk;
      NothingServed(commands, start, file.history);
      var pending: Option<nat> := None;
      var next := 0;
      n := 0;
      while true
        invariant n <= next <= |commands|
        invariant if pending.Some? then pending.value == n && next == n + 1 else next == n
        invariant Ready() && Faithful(commands, n, start) && Coalesced(commands, early, log, n)
        decreases |commands| - n
      {
        var at;
        if pending.Some? {
          at, pending := pending.value, None;
        } else if next < |commands| {
          at, next := next, next + 1;
        } else {
          CoalescedIs(commands, early, log, n);
          return;
        }
        if commands[at].Stop? {
          CoalescedIs(commands, early, log, n);
          return;
        }
        if commands[at].Save? {
          while next < |commands| && early(next)
            invariant n <= at && next == at + 1 <= |commands| && OnlySaves(commands, n, at)
            invariant forall i :: n <= i < at ==> GivesWay(commands, early, i)
          {
            next := next + 1;
            if commands[next - 1].Save? {
              at := next - 1;
            } else {
              pending := Some(next - 1);
              break;
            }
          }
        }
        CoalescedGrows(commands, early, log, n, Attempt(at, commands[at].state, faults(at).NoFault?));
        WriteOne(commands, at, faults(at), n, start);
        n := at + 1;
      }
    }
  }

  // ----- What that means for a caller

  lemma CoverReaches(commands: seq<Command>, log: seq<Attempt>, i: nat) returns (k: nat)
    requires i < |commands| && IsCovered(commands, log, i)
    ensures k < |log| && i <= log[k].command
  {
    if commands[i].Save? {
      k :| 0 <= k < |log| && i <= log[k].command && OnlySaves(commands, i, log[k].command);
    } else {
      k :| 0 <= k < |log| && log[k].command == i;
    }
  }

  /** Nothing is lost: the last snapshot before the end is the last one written. */
  lemma LastSnapshotIsWritten(commands: seq<Command>, log: seq<Attempt>, n: nat)
    requires InOrder(commands, log) && Done(commands, log, n) && n > 0
    ensures log != [] && log[|log| - 1].command == n - 1
    ensures Writes(commands, log[|log| - 1])
  {
    hide IsCovered, OnlySaves;
    var k := CoverReaches(commands, log, n - 1);
    var last := |log| - 1;
    assert Writes(commands, log[last]);
    assert log[k].command <= log[last].command;
  }

  /** A later attempt writes a snapshot that was submitted later. */
  lemma LaterAttempt(commands: seq<Command>, log: seq<Attempt>, k: nat, content: Option<string>)
    requires InOrder(commands, log) && k < |log| && FromLog(log, k, content)
    ensures exists c :: log[k].command <= c < |commands| && !commands[c].Stop? && content == Some(commands[c].state)
  {
  }

  /** Once a flush is acknowledged, its attempt has ended in a state that holds only its
      snapshot, and no crash brings back anything older. */
  lemma AcknowledgedIsDurable(commands: seq<Command>, log: seq<Attempt>, receipts: map<nat, bool>, errors: seq<nat>,
                              start: Disk, ends: seq<nat>, history: seq<Disk>, i: nat) returns (k: nat)
    requires InOrder(commands, log) && Reported(commands, log, receipts, errors) && Durable(start, log, ends, history)
    requires i in receipts && receipts[i]
    ensures k < |log| && log[k].command == i && log[k].ok
    ensures ends[k] < |history| && LeavesOnly(history[ends[k]], commands[i].state)
    ensures forall h, content :: ends[k] <= h < |history| && CanCrashTo(history[h], content) ==>
              exists c :: i <= c < |commands| && !commands[c].Stop? && content == Some(commands[c].state)
  {
    hide CanCrashTo, LeavesOnly;
    assert IsAttempted(log, i);
    k :| 0 <= k < |log| && log[k].command == i;
    assert Ran(log[k], history, Begin(ends, k), ends[k]);
    forall h, content | ends[k] <= h < |history| && CanCrashTo(history[h], content)
      ensures exists c :: i <= c < |commands| && !commands[c].Stop? && content == Some(commands[c].state)
    {
      assert CrashIsSafe(start, log, ends, history[h], h);
      LaterAttempt(commands, log, k, content);
    }
  }

  /** `finish`: a flush, and a stop when it is acknowledged. Then the file holds its
      snapshot, whatever was sent before and however it arrived. */
  lemma FinishLeavesSnapshot(earlier: seq<Command>, state: string, commands: seq<Command>, n: nat, log: seq<Attempt>,
                             receipts: map<nat, bool>, errors: seq<nat>, start: Disk, ends: seq<nat>,
                                 history: seq<Disk>, disk: Disk)
    requires commands == earlier + [Flush(state), Stop] && forall i :: 0 <= i < |earlier| ==> !earlier[i].Stop?
    requires InOrder(commands, log) && Done(commands, log, n) && (n == |commands| || commands[n].Stop?)
    requires Reported(commands, log, receipts, errors) && Durable(start, log, ends, history)
    requires history != [] && disk == history[|history| - 1]
    ensures |earlier| in receipts
    ensures receipts[|earlier|] ==> forall content :: CanCrashTo(disk, content) ==> content == Some(state)
  {
    hide CanCrashTo, IsCovered, Traced;
    var at := |earlier|;
    assert commands[at] == Flush(state) && commands[at + 1] == Stop;
    assert forall i :: 0 <= i < at ==> commands[i] == earlier[i];
    LastSnapshotIsWritten(commands, log, n);
    var last := |log| - 1;
    assert log[last].command == at && (receipts[at] ==> log[last].ok);
    LastAttempt(log, ends, history);
  }

  lemma LastAttempt(log: seq<Attempt>, ends: seq<nat>, history: seq<Disk>)
    requires |ends| == |log| && Traced(log, ends, history) && log != []
    ensures log[|log| - 1].ok ==> LeavesOnly(history[|history| - 1], log[|log| - 1].state)
  {
    hide LeavesOnly, Safe;
    assert Ran(log[|log| - 1], history, Begin(ends, |log| - 1), ends[|log| - 1]);
  }

  lemma NothingServed(commands: seq<Command>, start: Disk, history: seq<Disk>)
    requires history == [start]
    ensures InOrder(commands, []) && Done(commands, [], 0) && Reported(commands, [], map[], [])
    ensures forall early :: Coalesced(commands, early, [], 0)
    ensures Durable(start, [], [], history)
  {
  }
}
