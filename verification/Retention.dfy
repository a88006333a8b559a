/** What the log history keeps and what it removes, group by group: `record` and
    `retain` of src/logs.rs, without the counters that they keep. */
module Retention {
  import opened Options
  import opened LogHistory

  /** The group of the last error, that of the highest execution, or without both the newest. */
  ghost predicate Matters(s: State, j: nat)
    requires j < |s.groups|
  {
    || (exists i :: 0 <= i < |s.entries| && s.entries[i].group == s.groups[j].id && IsLastError(s.entries, i))
    || IsHighestAt(s.groups, j)
    || (j == |s.groups| - 1
        && (forall i :: 0 <= i < |s.entries| ==> !s.entries[i].isError)
        && (forall k :: 0 <= k < |s.groups| ==> s.groups[k].execution.None?))
  }

  ghost predicate IsLastError(entries: seq<Entry>, i: nat)
    requires i < |entries|
  {
    entries[i].isError && forall k :: i < k < |entries| ==> !entries[k].isError
  }

  ghost predicate IsHighestAt(groups: seq<Group>, j: nat)
    requires j < |groups|
  {
    groups[j].execution.Some?
    && forall k :: 0 <= k < |groups| && groups[k].execution.Some? ==>
         groups[k].execution.value <= groups[j].execution.value
  }

  /** The places of the groups of one kind that are not gone. */
  ghost function Places(groups: seq<Group>, isExecution: bool, gone: set<int>): set<nat> {
    set k: nat | k < |groups| && groups[k].execution.Some? == isExecution && groups[k].id !in gone
  }

  function SizeWithout(entries: seq<Entry>, gone: set<int>): nat {
    if entries == [] then 0
    else
      var last := entries[|entries| - 1];
      SizeWithout(entries[..|entries| - 1], gone) + if last.group in gone then 0 else last.bytes
  }

  /** Too much is left when the groups in `gone` are gone: more than 100 groups with an
      execution or 50 without one, or more than 8 MiB of text. */
  ghost predicate IsTooMuch(s: State, isExecution: bool, gone: set<int>) {
    || |Places(s.groups, isExecution, gone)| > (if isExecution then 100 else 50)
    || SizeWithout(s.entries, gone) > 8388608
  }

  // ----- Counting

  lemma PlacesNext(groups: seq<Group>, isExecution: bool, gone: set<int>)
    requires groups != []
    ensures var (n, last) := (|groups| - 1, groups[|groups| - 1]);
            |Places(groups, isExecution, gone)|
            == |Places(groups[..n], isExecution, gone)|
               + if last.execution.Some? == isExecution && last.id !in gone then 1 else 0
  {
    var n := |groups| - 1;
    var last := groups[n];
    assert Places(groups, isExecution, gone)
        == Places(groups[..n], isExecution, gone)
           + if last.execution.Some? == isExecution && last.id !in gone then {n} else {};
  }

  lemma {:induction false} CountIs(groups: seq<Group>, isExecution: bool, gone: set<int>)
    ensures var (kept, executions) := (|GroupsWithout(groups, gone)|, Executions(GroupsWithout(groups, gone)));
            |Places(groups, isExecution, gone)| == if isExecution then executions else kept - executions
  {
    if groups == [] {
      assert Places(groups, isExecution, gone) == {};
    } else {
      hide Places, Executions;
      var rest := groups[..|groups| - 1];
      CountIs(rest, isExecution, gone);
      ExecutionsPush(GroupsWithout(rest, gone), groups[|groups| - 1]);
      PlacesNext(groups, isExecution, gone);
    }
  }

  lemma {:induction false} SizeIs(entries: seq<Entry>, gone: set<int>)
    ensures SizeWithout(entries, gone) == TextBytes(Without(entries, gone))
  {
    if entries != [] {
      var rest, last := entries[..|entries| - 1], entries[|entries| - 1];
      SizeIs(rest, gone);
      TextBytesPush(Without(rest, gone), last);
    }
  }

  lemma TooMuchIs(s: State, isExecution: bool, gone: set<int>)
    ensures IsTooMuch(s, isExecution, gone) <==> HasToGo(s, isExecution, gone)
  {
    hide Places, SizeWithout, Without, GroupsWithout, Executions, TextBytes;
    CountIs(s.groups, isExecution, gone);
    SizeIs(s.entries, gone);
  }

  lemma ErrorIs(entries: seq<Entry>, group: int)
    ensures var last := LastError(entries);
            && ((exists i :: 0 <= i < |entries| && entries[i].group == group && IsLastError(entries, i))
                <==> last.Some? && entries[last.value].group == group)
            && ((forall i :: 0 <= i < |entries| ==> !entries[i].isError) <==> last.None?)
  {
    hide LastError;
    var last := LastError(entries);
    assert last.Some? ==> IsLastError(entries, last.value);
    forall i | 0 <= i < |entries| && IsLastError(entries, i)
      ensures last == Some(i)
    {
    }
  }

  lemma HighestIs(groups: seq<Group>, j: nat)
    requires DistinctIds(groups) && j < |groups|
    requires forall i, j :: 0 <= i < j < |groups| && groups[i].execution.Some? ==>
               groups[i].execution != groups[j].execution
    ensures var latest := LatestExecution(groups);
            && (IsHighestAt(groups, j) <==> latest.Some? && groups[j].id == latest.value.id)
            && ((forall k :: 0 <= k < |groups| ==> groups[k].execution.None?) <==> latest.None?)
  {
    hide LatestExecution;
    var latest := LatestExecution(groups);
    assert forall k :: 0 <= k < |groups| ==> groups[k] in groups;
    if latest.Some? {
      var k :| 0 <= k < |groups| && groups[k] == latest.value;
      assert j != k ==> groups[j].id != groups[k].id;
    }
  }

  lemma MattersIs(s: State, j: nat)
    requires Consistent(s) && j < |s.groups|
    ensures LatestErrorIn(s)
    ensures Matters(s, j) <==> s.groups[j].id in Protected(s)
  {
    hide Select, Executions, TextBytes, BytesOf, GroupsRecorded, GroupsComplete, KeepsWhatMatters, IncreasingIds, Ids;
    hide LastError, LatestExecution, IsLastError;
    ConsistentParts(s);
    ErrorIs(s.entries, s.groups[j].id);
    HighestIs(s.groups, j);
    assert Matters(s, j) <==>
        || (s.latestError.Some? && s.entries[s.latestError.value].group == s.groups[j].id)
        || IsHighestAt(s.groups, j)
        || (j == |s.groups| - 1 && s.latestError.None? && LatestExecution(s.groups).None?);
    assert j < |s.groups| - 1 ==> s.groups[j].id < s.groups[|s.groups| - 1].id;
  }

  // ----- What goes

  /** A group goes exactly when it does not matter and too much is left once the removed
      groups before it are gone. */
  lemma RemovedExactly(s: State, removed: set<int>, j: nat)
    requires Consistent(s) && RightlyRemoved(s, removed) && j < |s.groups|
    ensures s.groups[j].id in removed <==>
              !Matters(s, j) && IsTooMuch(s, s.groups[j].execution.Some?, Ids(s.groups[..j]) * removed)
  {
    hide Consistent, Matters, Protected, IsTooMuch, HasToGo, NotOver, OldestFirst;
    hide GroupsWithout, Executions, Kept, TextBytes, Ids;
    MattersIs(s, j);
    TooMuchIs(s, s.groups[j].execution.Some?, Ids(s.groups[..j]) * removed);
  }

  /** What a removal leaves: the other groups, and the retention line once something was removed.
      The entries are those of the groups that are left, because the history is consistent. */
  lemma RemovalIs(s: State, removed: set<int>)
    requires Consistent(s) && RightlyRemoved(s, removed)
    ensures var t := AfterRemoval(s, removed);
            && Consistent(t) && t.recorded == s.recorded && t.nextGroup == s.nextGroup
            && (forall g :: g in t.groups <==> g in s.groups && g.id !in removed)
            && (t.trimmed <==> s.trimmed || removed != {})
            && (s.trimmed || removed == {} ==> t.nextEntry == s.nextEntry)
            && (!s.trimmed && removed != {} ==>
                  && t.nextEntry == s.nextEntry + 1
                  && t.entries != [] && t.entries[0] == Entry(None, false, 30, s.nextEntry, -1))
  {
    hide Consistent, Kept, GroupsWithout, Executions, LastError, TextBytes, RightlyRemoved;
    RightIsSafe(s, removed);
    RemovalConsistent(s, removed);
    GroupsWithoutMembers(s.groups, removed);
  }

  // ----- What comes

  /** A new entry goes to the group of its execution, or to a new group when there is none. */
  lemma RecordedIs(s: State, event: Event)
    requires Consistent(s)
    ensures var t := Added(s, event);
            && Consistent(t) && t.nextEntry == s.nextEntry + 1 && (t.trimmed <==> s.trimmed)
            && |t.recorded| == |s.recorded| + 1 && t.recorded[..|s.recorded|] == s.recorded
            && var entry := t.recorded[|s.recorded|];
               && entry.execution == event.execution && entry.isError == event.isError
               && entry.bytes == event.bytes && entry.id == s.nextEntry
               && (forall g :: g in s.groups && event.execution.Some? && g.execution == event.execution ==>
                     entry.group == g.id && Ids(t.groups) == Ids(s.groups) && t.nextGroup == s.nextGroup)
               && ((forall g :: g in s.groups ==> event.execution.None? || g.execution != event.execution) ==>
                     entry.group == s.nextGroup == t.nextGroup - 1 && Ids(t.groups) == Ids(s.groups) + {entry.group})
  {
    hide Consistent, GrownGroups, Ids;
    AddedConsistent(s, event);
    AddedIds(s, event);
    OneGroupOf(s, event);
  }

  lemma OneGroupOf(s: State, event: Event)
    requires Consistent(s)
    ensures forall g :: g in s.groups && event.execution.Some? && g.execution == event.execution ==>
              var at := GroupOf(s.groups, event.execution); at.Some? && s.groups[at.value] == g
  {
    hide GroupOf, EntriesOk, GroupsRecorded, GroupsComplete, KeepsWhatMatters, BytesOf, Executions;
    forall g | g in s.groups && event.execution.Some? && g.execution == event.execution
      ensures var at := GroupOf(s.groups, event.execution); at.Some? && s.groups[at.value] == g
    {
      var k :| 0 <= k < |s.groups| && s.groups[k] == g;
    }
  }
}
