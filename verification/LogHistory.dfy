/** Retention of log entries, `LogHistory` of src/logs.rs. */
module LogHistory {
  import opened Options

  const MAX_EXECUTION_GROUPS := 100
  const MAX_NON_EXECUTION_GROUPS := 50
  const MAX_TEXT_BYTES := 8 * 1024 * 1024

  /** The size of "Older log entries were removed". */
  const RETENTION_LINE_BYTES := 30

  /** The group of the retention line. The program uses the largest `u64`, which its counters never reach. */
  const NO_GROUP := -1

  /** What an event says that matters here; `bytes` is the size of its texts. */
  datatype Event = Event(execution: Option<nat>, isError: bool, bytes: nat)

  datatype Entry = Entry(execution: Option<nat>, isError: bool, bytes: nat, id: nat, group: int)

  datatype Group = Group(id: nat, execution: Option<nat>, bytes: nat)

  // ----- Counting

  function TextBytes(entries: seq<Entry>): nat {
    if entries == [] then 0 else TextBytes(entries[..|entries| - 1]) + entries[|entries| - 1].bytes
  }

  /** The size of the entries of one group. */
  function BytesOf(entries: seq<Entry>, group: int): nat {
    if entries == [] then 0
    else
      var last := entries[|entries| - 1];
      BytesOf(entries[..|entries| - 1], group) + if last.group == group then last.bytes else 0
  }

  function GroupBytes(groups: seq<Group>): nat {
    if groups == [] then 0 else GroupBytes(groups[..|groups| - 1]) + groups[|groups| - 1].bytes
  }

  function Executions(groups: seq<Group>): (n: nat)
    ensures n <= |groups|
  {
    if groups == [] then 0
    else Executions(groups[..|groups| - 1]) + if groups[|groups| - 1].execution.Some? then 1 else 0
  }

  function Ids(groups: seq<Group>): set<int> { set g | g in groups :: g.id }

  /** The entries of the groups in `ids`, in order. */
  function Select(entries: seq<Entry>, ids: set<int>): seq<Entry> {
    if entries == [] then []
    else
      var rest, last := Select(entries[..|entries| - 1], ids), entries[|entries| - 1];
      if last.group in ids then rest + [last] else rest
  }

  /** `retain` over entries. */
  function Without(entries: seq<Entry>, removed: set<int>): seq<Entry> {
    if entries == [] then []
    else
      var rest, last := Without(entries[..|entries| - 1], removed), entries[|entries| - 1];
      if last.group !in removed then rest + [last] else rest
  }

  /** `retain` over groups. */
  function GroupsWithout(groups: seq<Group>, removed: set<int>): seq<Group> {
    if groups == [] then []
    else
      var rest, last := GroupsWithout(groups[..|groups| - 1], removed), groups[|groups| - 1];
      if last.id !in removed then rest + [last] else rest
  }

  /** `rposition` of an error. */
  function LastError(entries: seq<Entry>): (at: Option<nat>)
    ensures at.Some? ==> at.value < |entries| && entries[at.value].isError
    ensures at.None? ==> forall i :: 0 <= i < |entries| ==> !entries[i].isError
    ensures at.Some? ==> forall i :: at.value < i < |entries| ==> !entries[i].isError
  {
    if entries == [] then None
    else if entries[|entries| - 1].isError then Some(|entries| - 1)
    else LastError(entries[..|entries| - 1])
  }

  /** The highest execution that has an entry. */
  function Highest(entries: seq<Entry>): (highest: Option<nat>)
    ensures highest.Some? ==> exists e :: e in entries && e.execution == highest
    ensures forall e :: e in entries && e.execution.Some? ==> highest.Some? && e.execution.value <= highest.value
  {
    if entries == [] then None
    else
      var rest, last := Highest(entries[..|entries| - 1]), entries[|entries| - 1];
      assert entries == entries[..|entries| - 1] + [last];
      if last.execution.Some? && (rest.None? || last.execution.value >= rest.value) then last.execution else rest
  }

  // ----- Facts about the counts

  lemma TextBytesPush(entries: seq<Entry>, last: Entry)
    ensures TextBytes(entries + [last]) == TextBytes(entries) + last.bytes
  {
  }

  /** Taking one group out of a selection takes out the size of its entries. */
  lemma {:induction false} SelectLess(entries: seq<Entry>, ids: set<int>, group: int)
    requires group in ids
    ensures TextBytes(Select(entries, ids)) == TextBytes(Select(entries, ids - {group})) + BytesOf(entries, group)
  {
    if entries != [] {
      var rest, last := entries[..|entries| - 1], entries[|entries| - 1];
      SelectLess(rest, ids, group);
      TextBytesPush(Select(rest, ids), last);
      TextBytesPush(Select(rest, ids - {group}), last);
    }
  }

  lemma {:induction false} SelectNone(entries: seq<Entry>)
    ensures Select(entries, {}) == []
  {
    if entries != [] {
      SelectNone(entries[..|entries| - 1]);
    }
  }

  lemma {:induction false} SelectWithout(entries: seq<Entry>, ids: set<int>, removed: set<int>)
    ensures Without(Select(entries, ids), removed) == Select(entries, ids - removed)
  {
    if entries != [] {
      var rest, last := entries[..|entries| - 1], entries[|entries| - 1];
      SelectWithout(rest, ids, removed);
      if last.group in ids {
        assert (Select(rest, ids) + [last])[..|Select(rest, ids)|] == Select(rest, ids);
      }
    }
  }

  lemma {:induction false} WithoutLine(line: Entry, entries: seq<Entry>, removed: set<int>)
    requires line.group !in removed
    ensures Without([line] + entries, removed) == [line] + Without(entries, removed)
  {
    if entries == [] {
      assert [line] + entries == [line];
      assert [line][..0] == [];
    } else {
      assert ([line] + entries)[..|entries|] == [line] + entries[..|entries| - 1];
      WithoutLine(line, entries[..|entries| - 1], removed);
    }
  }

  lemma {:induction false} SelectMembers(entries: seq<Entry>, ids: set<int>)
    ensures forall e :: e in Select(entries, ids) <==> e in entries && e.group in ids
  {
    if entries != [] {
      SelectMembers(entries[..|entries| - 1], ids);
      assert entries == entries[..|entries| - 1] + [entries[|entries| - 1]];
    }
  }

  ghost predicate IncreasingIds(entries: seq<Entry>) {
    forall i, j :: 0 <= i < j < |entries| ==> entries[i].id < entries[j].id
  }

  lemma {:induction false} SelectKeepsOrder(entries: seq<Entry>, ids: set<int>)
    requires IncreasingIds(entries)
    ensures IncreasingIds(Select(entries, ids))
  {
    if entries != [] {
      var rest := entries[..|entries| - 1];
      SelectKeepsOrder(rest, ids);
      SelectMembers(rest, ids);
      forall i | 0 <= i < |Select(rest, ids)|
        ensures Select(rest, ids)[i].id < entries[|entries| - 1].id
      {
        assert Select(rest, ids)[i] in rest;
      }
    }
  }

  /** A selection that keeps the last error keeps it last. */
  lemma {:induction false} SelectKeepsLastError(entries: seq<Entry>, ids: set<int>)
    requires LastError(entries).Some? && entries[LastError(entries).value].group in ids
    ensures LastError(Select(entries, ids)).Some?
    ensures Select(entries, ids)[LastError(Select(entries, ids)).value] == entries[LastError(entries).value]
  {
    var rest, last := entries[..|entries| - 1], entries[|entries| - 1];
    var s := Select(rest, ids);
    if last.isError {
    } else {
      SelectKeepsLastError(rest, ids);
      if last.group in ids {
        assert (s + [last])[..|s|] == s;
      }
    }
  }

  ghost predicate DistinctIds(groups: seq<Group>) {
    forall i, j :: 0 <= i < j < |groups| ==> groups[i].id < groups[j].id
  }

  lemma ExecutionsPush(groups: seq<Group>, last: Group)
    ensures Executions(groups + [last]) == Executions(groups) + (if last.execution.Some? then 1 else 0)
  {
  }

  /** Removing one more group. */
  lemma {:induction false} GroupsLess(groups: seq<Group>, removed: set<int>, k: nat)
    requires DistinctIds(groups) && k < |groups| && groups[k].id !in removed
    ensures var (before, after) := (GroupsWithout(groups, removed), GroupsWithout(groups, removed + {groups[k].id}));
            && |after| == |before| - 1
            && Executions(after) == Executions(before) - (if groups[k].execution.Some? then 1 else 0)
  {
    var n := |groups| - 1;
    var rest, last, id := groups[..n], groups[n], groups[k].id;
    assert k < n ==> groups[k].id < last.id;
    var a, b := GroupsWithout(rest, removed), GroupsWithout(rest, removed + {id});
    ExecutionsPush(a, last);
    ExecutionsPush(b, last);
    if k == n {
      SameWithout(rest, removed, id);
    } else {
      GroupsLess(rest, removed, k);
      hide DistinctIds, Executions;
      assert rest[k] == groups[k] && last.id != id;
    }
  }

  lemma {:induction false} SameWithout(groups: seq<Group>, removed: set<int>, id: int)
    requires forall g :: g in groups ==> g.id != id
    ensures GroupsWithout(groups, removed) == GroupsWithout(groups, removed + {id})
  {
    if groups != [] {
      SameWithout(groups[..|groups| - 1], removed, id);
    }
  }

  lemma {:induction false} WithoutNone(groups: seq<Group>)
    ensures GroupsWithout(groups, {}) == groups
  {
    if groups != [] {
      WithoutNone(groups[..|groups| - 1]);
    }
  }

  lemma {:induction false} GroupsWithoutMembers(groups: seq<Group>, removed: set<int>)
    ensures forall g :: g in GroupsWithout(groups, removed) <==> g in groups && g.id !in removed
    ensures DistinctIds(groups) ==> DistinctIds(GroupsWithout(groups, removed))
  {
    if groups != [] {
      var rest, last := groups[..|groups| - 1], groups[|groups| - 1];
      GroupsWithoutMembers(rest, removed);
      assert groups == rest + [last];
      var kept := GroupsWithout(rest, removed);
      if DistinctIds(groups) {
        forall i | 0 <= i < |kept|
          ensures kept[i].id < last.id
        {
          assert kept[i] in rest;
        }
      }
    }
  }

  /** Groups that are all in a small set are few, and so are those with or without an execution. */
  lemma FewGroups(groups: seq<Group>, ids: set<int>)
    requires DistinctIds(groups)
    ensures (forall g :: g in groups && g.execution.Some? ==> g.id in ids) ==> Executions(groups) <= |ids|
    ensures (forall g :: g in groups && g.execution.None? ==> g.id in ids) ==> |groups| - Executions(groups) <= |ids|
    ensures (forall g :: g in groups ==> g.id in ids) ==> |groups| <= |ids|
  {
    hide DistinctIds, Executions;
    if forall g :: g in groups && g.execution.Some? ==> g.id in ids {
      FewOfKind(groups, ids, true);
    }
    if forall g :: g in groups && g.execution.None? ==> g.id in ids {
      FewOfKind(groups, ids, false);
    }
    if forall g :: g in groups ==> g.id in ids {
      FewInAll(groups, ids);
    }
  }

  lemma {:induction false} FewOfKind(groups: seq<Group>, ids: set<int>, isExecution: bool)
    requires DistinctIds(groups)
    requires forall g :: g in groups && g.execution.Some? == isExecution ==> g.id in ids
    ensures (if isExecution then Executions(groups) else |groups| - Executions(groups)) <= |ids|
  {
    if groups != [] {
      var rest, last := groups[..|groups| - 1], groups[|groups| - 1];
      assert forall g :: g in rest ==> g in groups && g.id != last.id;
      FewOfKind(rest, if last.execution.Some? == isExecution then ids - {last.id} else ids, isExecution);
    }
  }

  lemma {:induction false} FewInAll(groups: seq<Group>, ids: set<int>)
    requires DistinctIds(groups) && forall g :: g in groups ==> g.id in ids
    ensures |groups| <= |ids|
  {
    if groups != [] {
      var rest, last := groups[..|groups| - 1], groups[|groups| - 1];
      assert forall g :: g in rest ==> g in groups && g.id != last.id;
      FewInAll(rest, ids - {last.id});
    }
  }

  // ----- The state

  /** The fields of the history; `recorded` are all entries since the last clear. */
  datatype State = State(groups: seq<Group>, entries: seq<Entry>, executionGroups: nat, latestError: Option<nat>,
                         nextGroup: nat, nextEntry: nat, textBytes: nat, trimmed: bool, recorded: seq<Entry>)

  const EMPTY := State([], [], 0, None, 0, 0, 0, false, [])

  predicate IsLine(e: Entry) {
    e.group == NO_GROUP && e.execution.None? && !e.isError && e.bytes == RETENTION_LINE_BYTES
  }

  function Line(s: State): seq<Entry> { if s.trimmed && s.entries != [] then [s.entries[0]] else [] }

  /** The group ids and sums, and the entries they stand for. */
  ghost predicate GroupsOk(s: State) {
    && DistinctIds(s.groups)
    && (forall g :: g in s.groups ==> g.id < s.nextGroup && g.bytes == BytesOf(s.recorded, g.id))
    && (forall i, j :: 0 <= i < j < |s.groups| && s.groups[i].execution.Some? ==>
        s.groups[i].execution != s.groups[j].execution)
    && s.executionGroups == Executions(s.groups)
  }

  /** Apart from the retention line the entries are those recorded in a present group. */
  ghost predicate EntriesOk(s: State) {
    && (s.trimmed ==> s.entries != [] && IsLine(s.entries[0]) && s.entries[0].id < s.nextEntry)
    && s.entries == Line(s) + Select(s.recorded, Ids(s.groups))
    && s.textBytes == TextBytes(s.entries)
    && IncreasingIds(s.recorded)
    && (forall e :: e in s.recorded ==> e.id < s.nextEntry && 0 <= e.group < s.nextGroup && e.id !in LineIds(s))
    && s.latestError == LastError(s.entries)
  }

  ghost function LineIds(s: State): set<nat> { set e | e in Line(s) :: e.id }

  /** A present group holds every entry recorded for its execution since it was created. */
  ghost predicate GroupsComplete(s: State) {
    forall g, i, j ::
      (g in s.groups && g.execution.Some? && 0 <= i <= j < |s.recorded|
       && s.recorded[i].group == g.id && s.recorded[j].execution == g.execution)
      ==> s.recorded[j].group == g.id
  }

  /** Every present group has an entry, and all entries recorded in it are of its execution. */
  ghost predicate GroupsRecorded(s: State) {
    forall g :: g in s.groups ==> IsRecorded(s.recorded, g)
  }

  ghost predicate IsRecorded(recorded: seq<Entry>, g: Group) {
    && (exists e :: e in recorded && e.group == g.id)
    && (forall e :: e in recorded && e.group == g.id ==> e.execution == g.execution)
  }

  /** The group of the last error and all groups that the highest execution had are present. */
  ghost predicate KeepsWhatMatters(s: State) {
    && (LastError(s.recorded).Some? ==> s.recorded[LastError(s.recorded).value].group in Ids(s.groups))
    && (forall e :: e in s.recorded && IsHighest(s.recorded, e) ==> e.group in Ids(s.groups))
  }

  ghost predicate IsHighest(recorded: seq<Entry>, e: Entry) {
    e.execution.Some? && e.execution == Highest(recorded)
  }

  ghost predicate Consistent(s: State) {
    GroupsOk(s) && EntriesOk(s) && GroupsRecorded(s) && GroupsComplete(s) && KeepsWhatMatters(s)
  }

  predicate OverLimit(groups: int, executions: int, bytes: int) {
    || executions > MAX_EXECUTION_GROUPS
    || groups - executions > MAX_NON_EXECUTION_GROUPS
    || bytes > MAX_TEXT_BYTES
  }

  ghost predicate Bounded(s: State) {
    && s.executionGroups <= MAX_EXECUTION_GROUPS
    && |s.groups| - s.executionGroups <= MAX_NON_EXECUTION_GROUPS
    && (s.textBytes <= MAX_TEXT_BYTES + RETENTION_LINE_BYTES || |s.groups| <= 2)
  }

  // ----- Recording

  /** `rposition` of the group of an execution. */
  function GroupOf(groups: seq<Group>, execution: Option<nat>): (at: Option<nat>)
    ensures at.Some? ==> at.value < |groups| && groups[at.value].execution == execution && execution.Some?
    ensures at.None? && execution.Some? ==> forall g :: g in groups ==> g.execution != execution
  {
    if groups == [] || execution.None? then None
    else if groups[|groups| - 1].execution == execution then Some(|groups| - 1)
    else
      var at := GroupOf(groups[..|groups| - 1], execution);
      assert at.None? ==> groups == groups[..|groups| - 1] + [groups[|groups| - 1]];
      at
  }

  /** The group of a new entry, with its size. */
  function GrownGroup(s: State, event: Event): Group {
    var at := GroupOf(s.groups, event.execution);
    if at.Some? then s.groups[at.value].(bytes := s.groups[at.value].bytes + event.bytes)
    else Group(s.nextGroup, event.execution, event.bytes)
  }

  function GrownGroups(s: State, event: Event): seq<Group> {
    var at := GroupOf(s.groups, event.execution);
    if at.Some? then s.groups[at.value := GrownGroup(s, event)] else s.groups + [GrownGroup(s, event)]
  }

  function NewEntry(s: State, event: Event): Entry {
    Entry(event.execution, event.isError, event.bytes, s.nextEntry, GrownGroup(s, event).id)
  }

  /** `record` before it retains. */
  function Added(s: State, event: Event): State {
    var isNew := GroupOf(s.groups, event.execution).None?;
    State(GrownGroups(s, event),
          s.entries + [NewEntry(s, event)],
          s.executionGroups + (if isNew && event.execution.Some? then 1 else 0),
          if event.isError then Some(|s.entries|) else s.latestError,
          s.nextGroup + (if isNew then 1 else 0),
          s.nextEntry + 1,
          s.textBytes + event.bytes,
          s.trimmed,
          s.recorded + [NewEntry(s, event)])
  }

  lemma {:induction false} SelectSame(entries: seq<Entry>, ids: set<int>, id: int)
    requires forall e :: e in entries ==> e.group != id
    ensures Select(entries, ids + {id}) == Select(entries, ids) && BytesOf(entries, id) == 0
  {
    if entries != [] {
      var rest := entries[..|entries| - 1];
      assert forall e :: e in rest ==> e in entries;
      SelectSame(rest, ids, id);
    }
  }

  lemma SelectPush(entries: seq<Entry>, last: Entry, ids: set<int>, id: int)
    ensures Select(entries + [last], ids) == if last.group in ids then Select(entries, ids) + [last]
            else Select(entries, ids)
    ensures BytesOf(entries + [last], id) == BytesOf(entries, id) + (if last.group == id then last.bytes else 0)
    ensures LastError(entries + [last]) == if last.isError then Some(|entries|) else LastError(entries)
    ensures TextBytes(entries + [last]) == TextBytes(entries) + last.bytes
  {
  }

  lemma {:induction false} ExecutionsUpdate(groups: seq<Group>, k: nat, group: Group)
    requires k < |groups| && group.execution == groups[k].execution
    ensures Executions(groups[k := group]) == Executions(groups)
  {
    var n := |groups| - 1;
    if k < n {
      assert groups[k := group][..n] == groups[..n][k := group];
      ExecutionsUpdate(groups[..n], k, group);
    } else {
      assert groups[k := group][..n] == groups[..n];
    }
  }

  lemma IdsUpdate(groups: seq<Group>, k: nat, group: Group)
    requires k < |groups| && group.id == groups[k].id
    ensures Ids(groups[k := group]) == Ids(groups)
  {
    var t := groups[k := group];
    forall g | g in groups
      ensures g.id in Ids(t)
    {
      var i :| 0 <= i < |groups| && groups[i] == g;
      assert t[i] in t && t[i].id == g.id;
    }
    forall g | g in t
      ensures g.id in Ids(groups)
    {
      var i :| 0 <= i < |t| && t[i] == g;
      assert groups[i] in groups && groups[i].id == g.id;
    }
  }

  lemma IdsPush(groups: seq<Group>, group: Group)
    ensures Ids(groups + [group]) == Ids(groups) + {group.id as int}
  {
  }

  /** The ids after an entry was added: the same, or one more. */
  lemma AddedIds(s: State, event: Event)
    ensures var (ids, id) := (Ids(GrownGroups(s, event)), GrownGroup(s, event).id as int);
            if GroupOf(s.groups, event.execution).Some? then ids == Ids(s.groups) && id in ids
            else ids == Ids(s.groups) + {id} && id == s.nextGroup
  {
    var at := GroupOf(s.groups, event.execution);
    if at.Some? {
      IdsUpdate(s.groups, at.value, GrownGroup(s, event));
      assert s.groups[at.value] in s.groups;
    } else {
      IdsPush(s.groups, GrownGroup(s, event));
    }
  }

  /** Only the grown group has the new entry's id. */
  lemma GrownPlace(s: State, event: Event, k: nat)
    requires DistinctIds(s.groups) && (forall g :: g in s.groups ==> g.id < s.nextGroup) && k < |GrownGroups(s, event)|
    ensures var g, grown := GrownGroups(s, event)[k], GrownGroup(s, event);
            if g.id == grown.id then g == grown else k < |s.groups| && g == s.groups[k]
  {
  }

  lemma GrownSize(s: State, event: Event)
    requires forall g :: g in s.groups ==> g.bytes == BytesOf(s.recorded, g.id)
    requires forall e :: e in s.recorded ==> 0 <= e.group < s.nextGroup
    ensures GrownGroup(s, event).bytes == BytesOf(s.recorded + [NewEntry(s, event)], GrownGroup(s, event).id)
  {
    hide BytesOf, Select;
    SelectSame(s.recorded, {}, s.nextGroup);
    SelectPush(s.recorded, NewEntry(s, event), {}, GrownGroup(s, event).id);
  }

  lemma AddedSizes(s: State, event: Event)
    requires GroupsOk(s) && forall e :: e in s.recorded ==> 0 <= e.group < s.nextGroup
    ensures forall k :: 0 <= k < |GrownGroups(s, event)| ==>
              var g := GrownGroups(s, event)[k];
              g.id < Added(s, event).nextGroup && g.bytes == BytesOf(Added(s, event).recorded, g.id)
  {
    hide BytesOf, GroupOf, GrownGroups, GrownGroup, DistinctIds, Executions;
    GrownGroupIsKnown(s, event);
    GrownSize(s, event);
    forall k | 0 <= k < |GrownGroups(s, event)|
      ensures var g := GrownGroups(s, event)[k];
              g.id < Added(s, event).nextGroup && g.bytes == BytesOf(Added(s, event).recorded, g.id)
    {
      var g := GrownGroups(s, event)[k];
      GrownPlace(s, event, k);
      assert g.id == GrownGroup(s, event).id || g in s.groups;
      SelectPush(s.recorded, NewEntry(s, event), {}, g.id);
    }
  }

  lemma AddedGroups(s: State, event: Event)
    requires GroupsOk(s) && forall e :: e in s.recorded ==> 0 <= e.group < s.nextGroup
    ensures GroupsOk(Added(s, event))
  {
    hide BytesOf, Executions;
    AddedSizes(s, event);
    AddedExecutions(s, event);
    if GroupOf(s.groups, event.execution).None? {
      assert forall k :: 0 <= k < |s.groups| ==> s.groups[k] in s.groups;
    }
  }

  lemma AddedExecutions(s: State, event: Event)
    requires s.executionGroups == Executions(s.groups)
    ensures Added(s, event).executionGroups == Executions(GrownGroups(s, event))
  {
    hide Executions;
    var at := GroupOf(s.groups, event.execution);
    if at.Some? {
      ExecutionsUpdate(s.groups, at.value, GrownGroup(s, event));
    } else {
      ExecutionsPush(s.groups, GrownGroup(s, event));
    }
  }

  lemma AddedEntries(s: State, event: Event)
    requires GroupsOk(s) && EntriesOk(s)
    ensures EntriesOk(Added(s, event))
  {
    hide GroupsOk, Select, GroupOf, GrownGroup, GrownGroups, LastError, TextBytes, BytesOf, Ids;
    var t, entry := Added(s, event), NewEntry(s, event);
    AddedIds(s, event);
    SelectPush(s.recorded, entry, Ids(t.groups), 0);
    SelectPush(s.entries, entry, {}, 0);
    if entry.group == s.nextGroup {
      SelectSame(s.recorded, Ids(s.groups), s.nextGroup);
    }
    GrownGroupIsKnown(s, event);
    assert Line(t) == Line(s);
    assert t.entries == Line(t) + (Select(s.recorded, Ids(t.groups)) + [entry]);
    assert forall k :: 0 <= k < |s.recorded| ==> s.recorded[k] in s.recorded;
  }

  lemma GrownGroupIsKnown(s: State, event: Event)
    requires GroupsOk(s)
    ensures GrownGroup(s, event).id < Added(s, event).nextGroup
  {
  }

  /** The new entry goes to the present group of its execution. */
  lemma AddedComplete(s: State, event: Event)
    requires GroupsOk(s) && EntriesOk(s) && GroupsComplete(s)
    ensures GroupsComplete(Added(s, event))
  {
    hide Select, DistinctIds, Executions, BytesOf, TextBytes, LastError, IncreasingIds;
    var t, n, entry := Added(s, event), |s.recorded|, NewEntry(s, event);
    forall g, i, j | g in t.groups && g.execution.Some? && 0 <= i <= j < |t.recorded|
                     && t.recorded[i].group == g.id && t.recorded[j].execution == g.execution
      ensures t.recorded[j].group == g.id
    {
      var k :| 0 <= k < |t.groups| && t.groups[k] == g;
      if j == n {
        SameExecutionSameGroup(s, event, k);
      } else {
        assert s.recorded[i] in s.recorded;
        assert k < |s.groups|;
        assert s.groups[k] in s.groups && s.groups[k].id == g.id && s.groups[k].execution == g.execution;
        assert t.recorded[i] == s.recorded[i] && t.recorded[j] == s.recorded[j];
      }
    }
  }

  lemma SameExecutionSameGroup(s: State, event: Event, k: nat)
    requires GroupsOk(s) && k < |GrownGroups(s, event)| && event.execution.Some?
    ensures GrownGroups(s, event)[k].execution == event.execution ==>
            GrownGroups(s, event)[k].id == GrownGroup(s, event).id
  {
  }

  lemma AddedMatters(s: State, event: Event)
    requires KeepsWhatMatters(s)
    ensures KeepsWhatMatters(Added(s, event))
  {
    hide Ids, LastError, IsHighest, GroupOf;
    var t, entry := Added(s, event), NewEntry(s, event);
    AddedIds(s, event);
    SelectPush(s.recorded, entry, {}, 0);
    forall e | e in t.recorded && IsHighest(t.recorded, e)
      ensures e.group in Ids(t.groups)
    {
      HighestBefore(s.recorded, entry, e);
    }
  }

  lemma HighestBefore(recorded: seq<Entry>, entry: Entry, e: Entry)
    requires e in recorded + [entry] && IsHighest(recorded + [entry], e)
    ensures e == entry || (e in recorded && IsHighest(recorded, e))
  {
  }

  lemma AddedRecorded(s: State, event: Event)
    requires DistinctIds(s.groups) && forall g :: g in s.groups ==> g.id < s.nextGroup
    requires GroupsRecorded(s) && forall e :: e in s.recorded ==> e.group < s.nextGroup
    ensures GroupsRecorded(Added(s, event))
  {
    hide GroupOf, DistinctIds, IsRecorded;
    var t := Added(s, event);
    forall g | g in t.groups
      ensures IsRecorded(t.recorded, g)
    {
      var k :| 0 <= k < |t.groups| && t.groups[k] == g;
      GrownPlace(s, event, k);
      if g.id == GrownGroup(s, event).id {
        GrownIsRecorded(s, event);
      } else {
        assert s.groups[k] in s.groups;
        StillRecorded(s.recorded, s.groups[k], NewEntry(s, event));
      }
    }
  }

  lemma StillRecorded(recorded: seq<Entry>, g: Group, entry: Entry)
    requires IsRecorded(recorded, g) && entry.group != g.id
    ensures IsRecorded(recorded + [entry], g)
  {
  }

  lemma GrownIsRecorded(s: State, event: Event)
    requires GroupsRecorded(s) && forall e :: e in s.recorded ==> e.group < s.nextGroup
    ensures IsRecorded(s.recorded + [NewEntry(s, event)], GrownGroup(s, event))
  {
    hide GroupOf;
    var at, entry := GroupOf(s.groups, event.execution), NewEntry(s, event);
    assert entry in s.recorded + [entry];
    if at.Some? {
      assert IsRecorded(s.recorded, s.groups[at.value]);
    }
  }

  lemma AddedConsistent(s: State, event: Event)
    requires Consistent(s)
    ensures Consistent(Added(s, event))
  {
    hide GroupsComplete, GroupsRecorded, KeepsWhatMatters, Added;
    AddedEntries(s, event);
    AddedGroups(s, event);
    AddedRecorded(s, event);
    AddedComplete(s, event);
    AddedMatters(s, event);
  }

  // ----- Retaining

  /** The group of the highest execution, as `max_by_key`. */
  function LatestExecution(groups: seq<Group>): (latest: Option<Group>)
    ensures latest.Some? ==> latest.value in groups && latest.value.execution.Some?
    ensures forall g :: g in groups && g.execution.Some? ==>
            latest.Some? && g.execution.value <= latest.value.execution.value
  {
    if groups == [] then None
    else
      var rest, last := LatestExecution(groups[..|groups| - 1]), groups[|groups| - 1];
      assert groups == groups[..|groups| - 1] + [last];
      if last.execution.Some? && (rest.None? || last.execution.value >= rest.value.execution.value) then Some(last)
      else rest
  }

  /** The groups that must stay: the latest execution and the latest error, or else the newest. */
  function ProtectedIn(groups: seq<Group>, entries: seq<Entry>, latestError: Option<nat>): (ids: set<int>)
    requires latestError.Some? ==> latestError.value < |entries|
    ensures |ids| <= 2
  {
    var latest := LatestExecution(groups);
    var a: set<int> := if latest.Some? then {latest.value.id} else {};
    var b: set<int> := if latestError.Some? then {entries[latestError.value].group} else {};
    if latest.None? && latestError.None? then
      if groups == [] then {} else {groups[|groups| - 1].id}
    else a + b
  }

  function Protected(s: State): (ids: set<int>)
    requires s.latestError.Some? ==> s.latestError.value < |s.entries|
    ensures |ids| <= 2
  {
    ProtectedIn(s.groups, s.entries, s.latestError)
  }

  function Kept(s: State, removed: set<int>): seq<Entry> { Without(s.entries, removed) }

  /** The state after the groups in `removed` went. */
  function AfterRemoval(s: State, removed: set<int>): State {
    if removed == {} then s
    else
      var groups, kept := GroupsWithout(s.groups, removed), Kept(s, removed);
      var line := Entry(None, false, RETENTION_LINE_BYTES, s.nextEntry, NO_GROUP);
      var entries := if s.trimmed then kept else [line] + kept;
      State(groups, entries, Executions(groups), LastError(entries), s.nextGroup,
            if s.trimmed then s.nextEntry else s.nextEntry + 1,
            TextBytes(kept) + (if s.trimmed then 0 else RETENTION_LINE_BYTES), true, s.recorded)
  }

  predicate OverCap(isExecution: bool, groups: int, executions: int) {
    if isExecution then executions > MAX_EXECUTION_GROUPS else groups - executions > MAX_NON_EXECUTION_GROUPS
  }

  /** Where the loop of `retain` is after the first `i` groups. */
  ghost predicate Trimming(s: State, i: nat, removed: set<int>, groups: int, executions: int, bytes: int)
    requires s.latestError.Some? ==> s.latestError.value < |s.entries|
    requires i <= |s.groups|
  {
    && removed <= Ids(s.groups) && removed * Protected(s) == {}
    && groups == |GroupsWithout(s.groups, removed)|
    && executions == Executions(GroupsWithout(s.groups, removed))
    && bytes == TextBytes(Kept(s, removed))
    && LaterIdsNotIn(s, i, removed)
    && NotOver(s, i, removed, groups, executions, bytes)
    && OldestFirst(s, i, removed)
    && Needed(s, i, removed)
  }

  /** A group that stays without protection is of a kind within its cap, and the text is within its budget. */
  ghost predicate NotOver(s: State, i: nat, removed: set<int>, groups: int, executions: int, bytes: int)
    requires s.latestError.Some? ==> s.latestError.value < |s.entries|
    requires i <= |s.groups|
  {
    forall j :: 0 <= j < i && s.groups[j].id !in removed && s.groups[j].id !in Protected(s) ==>
      !OverCap(s.groups[j].execution.Some?, groups, executions) && bytes <= MAX_TEXT_BYTES
  }

  /** Of each kind the oldest groups go first. */
  ghost predicate OldestFirst(s: State, i: nat, removed: set<int>)
    requires s.latestError.Some? ==> s.latestError.value < |s.entries|
    requires i <= |s.groups|
  {
    forall j, k ::
      (0 <= j < k < i && s.groups[j].execution.Some? == s.groups[k].execution.Some?
       && s.groups[j].id !in removed && s.groups[j].id !in Protected(s))
      ==> s.groups[k].id !in removed
  }

  /** A group goes exactly when it is not protected and has to go once those before it are gone. */
  ghost predicate Needed(s: State, i: nat, removed: set<int>)
    requires s.latestError.Some? ==> s.latestError.value < |s.entries|
    requires i <= |s.groups|
  {
    forall j :: 0 <= j < i ==>
      (s.groups[j].id in removed <==>
         s.groups[j].id !in Protected(s) && HasToGo(s, s.groups[j].execution.Some?, Ids(s.groups[..j]) * removed))
  }

  ghost predicate HasToGo(s: State, isExecution: bool, before: set<int>) {
    var groups := GroupsWithout(s.groups, before);
    OverCap(isExecution, |groups|, Executions(groups)) || TextBytes(Kept(s, before)) > MAX_TEXT_BYTES
  }

  lemma KeptIsSelected(s: State, removed: set<int>)
    requires EntriesOk(s) && removed <= Ids(s.groups)
    ensures Kept(s, removed) == Line(s) + Select(s.recorded, Ids(s.groups) - removed)
  {
    hide Select, Without, IncreasingIds, LastError, TextBytes;
    SelectWithout(s.recorded, Ids(s.groups), removed);
    if s.trimmed {
      assert NO_GROUP !in removed;
      WithoutLine(s.entries[0], Select(s.recorded, Ids(s.groups)), removed);
    } else {
      assert Line(s) + Select(s.recorded, Ids(s.groups)) == Select(s.recorded, Ids(s.groups));
      assert Line(s) + Select(s.recorded, Ids(s.groups) - removed) == Select(s.recorded, Ids(s.groups) - removed);
    }
  }

  lemma {:induction false} TextBytesAppend(a: seq<Entry>, b: seq<Entry>)
    ensures TextBytes(a + b) == TextBytes(a) + TextBytes(b)
  {
    if b == [] {
      assert a + b == a;
    } else {
      assert (a + b)[..|a + b| - 1] == a + b[..|b| - 1];
      TextBytesAppend(a, b[..|b| - 1]);
    }
  }

  /** Removing one more group takes its size from the text. */
  lemma RemoveOne(s: State, removed: set<int>, k: nat)
    requires GroupsOk(s) && EntriesOk(s) && removed <= Ids(s.groups)
    requires k < |s.groups| && s.groups[k].id !in removed
    ensures TextBytes(Kept(s, removed + {s.groups[k].id as int})) == TextBytes(Kept(s, removed)) - s.groups[k].bytes
    ensures removed + {s.groups[k].id as int} <= Ids(s.groups)
  {
    hide Select, Without, IncreasingIds, LastError, TextBytes, BytesOf, Executions, DistinctIds;
    var id := s.groups[k].id as int;
    assert s.groups[k] in s.groups;
    KeptIsSelected(s, removed);
    KeptIsSelected(s, removed + {id});
    assert Ids(s.groups) - (removed + {id}) == (Ids(s.groups) - removed) - {id};
    SelectLess(s.recorded, Ids(s.groups) - removed, id);
    TextBytesAppend(Line(s), Select(s.recorded, Ids(s.groups) - removed));
    TextBytesAppend(Line(s), Select(s.recorded, (Ids(s.groups) - removed) - {id}));
  }

  /** Whether the loop removes group `g`. */
  predicate Goes(s: State, g: Group, groups: int, executions: int, bytes: int)
    requires s.latestError.Some? ==> s.latestError.value < |s.entries|
  {
    (OverCap(g.execution.Some?, groups, executions) || bytes > MAX_TEXT_BYTES) && g.id !in Protected(s)
  }

  lemma TrimStay(s: State, i: nat, removed: set<int>, groups: int, executions: int, bytes: int)
    requires LatestErrorIn(s) && i < |s.groups| && Trimming(s, i, removed, groups, executions, bytes)
    requires !Goes(s, s.groups[i], groups, executions, bytes)
    ensures Trimming(s, i + 1, removed, groups, executions, bytes)
  {
    hide Protected, Kept, GroupsWithout, Executions, TextBytes, Ids;
    RemovedBefore(s, i, removed);
  }

  /** The removed groups stand before group `i`. */
  lemma RemovedBefore(s: State, i: nat, removed: set<int>)
    requires i <= |s.groups| && removed <= Ids(s.groups) && LaterIdsNotIn(s, i, removed)
    ensures Ids(s.groups[..i]) * removed == removed
  {
    forall r | r in removed
      ensures r in Ids(s.groups[..i])
    {
      var k :| 0 <= k < |s.groups| && s.groups[k].id == r;
      assert s.groups[..i][k] in s.groups[..i];
    }
  }

  predicate LatestErrorIn(s: State) { s.latestError.Some? ==> s.latestError.value < |s.entries| }

  lemma TrimGo(s: State, i: nat, removed: set<int>, groups: int, executions: int, bytes: int)
    requires GroupsOk(s) && EntriesOk(s) && LatestErrorIn(s) && i < |s.groups|
    requires Trimming(s, i, removed, groups, executions, bytes) && Goes(s, s.groups[i], groups, executions, bytes)
    ensures var g := s.groups[i];
            Trimming(s, i + 1, removed + {g.id as int}, groups - 1, executions - (if g.execution.Some? then 1 else 0),
                bytes - g.bytes)
    ensures (s.groups[i].execution.Some? ==> executions >= 1) && bytes >= s.groups[i].bytes
  {
    hide Protected, Kept, GroupsWithout, Executions, TextBytes, Ids;
    hide EntriesOk, GroupsOk, NotOver, OldestFirst, Needed, DistinctIds, LaterIdsNotIn;
    var g, id := s.groups[i], s.groups[i].id as int;
    GroupsAreDistinct(s);
    LaterIds(s, i, removed);
    RemoveOne(s, removed, i);
    GroupsLess(s.groups, removed, i);
    assert (removed + {id}) * Protected(s) == {};
    GoNotOver(s, i, removed, groups, executions, bytes);
    GoOldestFirst(s, i, removed, groups, executions, bytes);
    GoNeeded(s, i, removed);
  }

  lemma GroupsAreDistinct(s: State)
    requires GroupsOk(s)
    ensures DistinctIds(s.groups)
  {
  }

  lemma LaterIds(s: State, i: nat, removed: set<int>)
    requires DistinctIds(s.groups) && i < |s.groups| && LaterIdsNotIn(s, i, removed)
    ensures s.groups[i].id !in removed && LaterIdsNotIn(s, i + 1, removed + {s.groups[i].id as int})
  {
  }

  lemma GoNotOver(s: State, i: nat, removed: set<int>, groups: int, executions: int, bytes: int)
    requires LatestErrorIn(s) && i < |s.groups| && NotOver(s, i, removed, groups, executions, bytes)
    ensures var g := s.groups[i];
            NotOver(s, i + 1, removed + {g.id as int}, groups - 1, executions - (if g.execution.Some? then 1 else 0),
                bytes - g.bytes)
  {
  }

  lemma GoOldestFirst(s: State, i: nat, removed: set<int>, groups: int, executions: int, bytes: int)
    requires LatestErrorIn(s) && i < |s.groups| && LaterIdsNotIn(s, i, removed)
    requires NotOver(s, i, removed, groups, executions, bytes) && OldestFirst(s, i, removed)
    requires Goes(s, s.groups[i], groups, executions, bytes) && DistinctIds(s.groups)
    ensures OldestFirst(s, i + 1, removed + {s.groups[i].id as int})
  {
    hide Protected;
  }

  ghost predicate LaterIdsNotIn(s: State, i: nat, removed: set<int>) {
    forall j :: i <= j < |s.groups| ==> s.groups[j].id !in removed
  }

  lemma GoNeeded(s: State, i: nat, removed: set<int>)
    requires DistinctIds(s.groups) && i < |s.groups| && removed <= Ids(s.groups) && LaterIdsNotIn(s, i, removed)
    requires LatestErrorIn(s) && Needed(s, i, removed) && s.groups[i].id !in Protected(s)
    requires HasToGo(s, s.groups[i].execution.Some?, removed)
    ensures Needed(s, i + 1, removed + {s.groups[i].id as int})
  {
    hide HasToGo, Ids, Protected;
    var id := s.groups[i].id as int;
    RemovedBefore(s, i, removed);
    forall j | 0 <= j <= i
      ensures Ids(s.groups[..j]) * (removed + {id}) == Ids(s.groups[..j]) * removed
    {
      EarlierIds(s, i, j, removed);
    }
  }

  lemma EarlierIds(s: State, i: nat, j: nat, removed: set<int>)
    requires DistinctIds(s.groups) && j <= i < |s.groups|
    ensures Ids(s.groups[..j]) * (removed + {s.groups[i].id as int}) == Ids(s.groups[..j]) * removed
  {
  }

  lemma TrimStart(s: State)
    requires GroupsOk(s) && EntriesOk(s) && LatestErrorIn(s)
    ensures Trimming(s, 0, {}, |s.groups|, s.executionGroups, s.textBytes)
  {
    hide Protected, Select, Executions, TextBytes, Without;
    WithoutNone(s.groups);
    KeptIsSelected(s, {});
    assert Ids(s.groups) - {} == Ids(s.groups);
  }

  /** Something is protected, and it is present. */
  lemma ProtectedIsPresent(s: State)
    requires EntriesOk(s) && s.groups != []
    ensures Protected(s) != {} && Protected(s) <= Ids(s.groups)
  {
    hide Select, TextBytes, IncreasingIds;
    SelectMembers(s.recorded, Ids(s.groups));
    if s.latestError.Some? {
      var e := s.entries[s.latestError.value];
      assert e in Select(s.recorded, Ids(s.groups));
    }
  }

  /** When one group is left, that is a protected one. */
  lemma OneLeft(s: State, removed: set<int>, j: nat)
    requires EntriesOk(s) && LatestErrorIn(s) && DistinctIds(s.groups)
    requires removed <= Ids(s.groups) && removed * Protected(s) == {}
    requires |GroupsWithout(s.groups, removed)| <= 1
    requires j < |s.groups| && s.groups[j].id !in removed
    ensures s.groups[j].id in Protected(s)
  {
    hide EntriesOk, DistinctIds, Protected;
    var kept := GroupsWithout(s.groups, removed);
    GroupsWithoutMembers(s.groups, removed);
    ProtectedIsPresent(s);
    var id :| id in Protected(s);
    var g :| g in s.groups && g.id == id;
    assert id !in removed * Protected(s);
    assert g in kept && s.groups[j] in kept;
  }

  /** After the loop the groups are within their caps, and the text within its
      budget unless two or fewer groups are left; no group is left that would have to go. */
  lemma TrimEnd(s: State, i: nat, removed: set<int>, groups: int, executions: int, bytes: int)
    requires GroupsOk(s) && EntriesOk(s) && LatestErrorIn(s)
    requires i <= |s.groups| && Trimming(s, i, removed, groups, executions, bytes)
    requires i == |s.groups| || groups <= 1 || !OverLimit(groups, executions, bytes)
    ensures executions <= MAX_EXECUTION_GROUPS && groups - executions <= MAX_NON_EXECUTION_GROUPS
    ensures bytes <= MAX_TEXT_BYTES || groups <= 2
    ensures NotOver(s, |s.groups|, removed, groups, executions, bytes) && Needed(s, |s.groups|, removed)
  {
    hide Protected, Kept, GroupsWithout, Executions, TextBytes, Ids, DistinctIds, OldestFirst, Needed;
    hide EntriesOk;
    var kept, ids := GroupsWithout(s.groups, removed), Protected(s);
    GroupsAreDistinct(s);
    GroupsWithoutMembers(s.groups, removed);
    FewGroups(kept, ids);
    if i == |s.groups| {
      forall g | g in kept && g.id !in ids
        ensures !OverCap(g.execution.Some?, groups, executions) && bytes <= MAX_TEXT_BYTES
      {
        var j :| 0 <= j < |s.groups| && s.groups[j] == g;
      }
    } else if groups <= 1 {
      forall j | 0 <= j < |s.groups| && s.groups[j].id !in removed
        ensures s.groups[j].id in ids
      {
        OneLeft(s, removed, j);
      }
    }
    NothingElseGoes(s, i, removed, groups, executions, bytes);
  }

  lemma NothingElseGoes(s: State, i: nat, removed: set<int>, groups: int, executions: int, bytes: int)
    requires LatestErrorIn(s) && i <= |s.groups| && Trimming(s, i, removed, groups, executions, bytes)
    requires i < |s.groups| && OverLimit(groups, executions, bytes) ==>
               forall j :: i <= j < |s.groups| ==> s.groups[j].id in Protected(s)
    ensures Needed(s, |s.groups|, removed)
  {
    hide Protected, Kept, GroupsWithout, Executions, TextBytes, Ids, DistinctIds, OldestFirst, NotOver;
    forall j | i <= j < |s.groups|
      ensures s.groups[j].id !in removed
      ensures s.groups[j].id in Protected(s) || !HasToGo(s, s.groups[j].execution.Some?, Ids(s.groups[..j]) * removed)
    {
      RemovedBefore(s, j, removed);
    }
  }

  /** The size of what can never go: the protected groups and the retention line, if there is one. */
  function ProtectedBytes(s: State): nat
    requires LatestErrorIn(s)
  {
    TextBytes(Kept(s, Ids(s.groups) - Protected(s)))
  }

  lemma {:induction false} WithoutMore(entries: seq<Entry>, removed: set<int>, more: set<int>)
    requires removed <= more
    ensures TextBytes(Without(entries, more)) <= TextBytes(Without(entries, removed))
  {
    if entries != [] {
      var rest, last := entries[..|entries| - 1], entries[|entries| - 1];
      WithoutMore(rest, removed, more);
      TextBytesPush(Without(rest, removed), last);
      TextBytesPush(Without(rest, more), last);
    }
  }

  /** What is kept is over the budget exactly when what can never go is over it. */
  lemma OverBudget(s: State, removed: set<int>)
    requires RightlyRemoved(s, removed)
    ensures TextBytes(Kept(s, removed)) > MAX_TEXT_BYTES <==> ProtectedBytes(s) > MAX_TEXT_BYTES
  {
    hide Protected, GroupsWithout, Executions, TextBytes, Without, OldestFirst, Needed;
    var rest := Ids(s.groups) - Protected(s);
    assert forall r :: r in removed && r in Protected(s) ==> r in removed * Protected(s);
    WithoutMore(s.entries, removed, rest);
    if TextBytes(Kept(s, removed)) > MAX_TEXT_BYTES {
      forall id | id in rest
        ensures id in removed
      {
        var j :| 0 <= j < |s.groups| && s.groups[j].id == id;
      }
      assert removed == rest;
    }
  }

  // ----- Removing keeps what matters

  /** Without errors in front, the last error is found behind. */
  lemma {:induction false} LastErrorBehind(line: Entry, entries: seq<Entry>)
    requires !line.isError
    ensures var (a, b) := (LastError([line] + entries), LastError(entries));
            a == if b.Some? then Some(b.value + 1) else None
  {
    if entries == [] {
      assert [line] + entries == [line] && [line][..0] == [];
    } else {
      assert ([line] + entries)[..|entries|] == [line] + entries[..|entries| - 1];
      LastErrorBehind(line, entries[..|entries| - 1]);
    }
  }

  /** The last recorded error is the latest error of the history. */
  lemma LatestErrorIsLast(s: State)
    requires EntriesOk(s) && KeepsWhatMatters(s) && LastError(s.recorded).Some?
    ensures s.latestError.Some? && s.latestError.value < |s.entries|
    ensures s.entries[s.latestError.value] == s.recorded[LastError(s.recorded).value]
  {
    hide Select, TextBytes, IncreasingIds;
    SelectKeepsLastError(s.recorded, Ids(s.groups));
    var selected := Select(s.recorded, Ids(s.groups));
    if s.trimmed {
      LastErrorBehind(s.entries[0], selected);
    } else {
      assert Line(s) + selected == selected;
    }
  }

  lemma IdsWithout(groups: seq<Group>, removed: set<int>)
    ensures Ids(GroupsWithout(groups, removed)) == Ids(groups) - removed
  {
    GroupsWithoutMembers(groups, removed);
  }

  lemma {:induction false} PlaceInGroups(groups: seq<Group>, removed: set<int>, i: nat, j: nat) returns (k: nat, l: nat)
    requires i < j < |GroupsWithout(groups, removed)|
    ensures k < l < |groups| && groups[k] == GroupsWithout(groups, removed)[i]
    ensures groups[l] == GroupsWithout(groups, removed)[j]
  {
    var n := |groups| - 1;
    var rest := GroupsWithout(groups[..n], removed);
    if j < |rest| {
      k, l := PlaceInGroups(groups[..n], removed, i, j);
    } else {
      GroupsWithoutMembers(groups[..n], removed);
      assert rest[i] in groups[..n];
      k :| 0 <= k < n && groups[..n][k] == rest[i];
      l := n;
    }
  }

  lemma RemovalGroups(s: State, removed: set<int>)
    requires GroupsOk(s)
    ensures GroupsOk(AfterRemoval(s, removed))
  {
    hide BytesOf, Executions, Kept, TextBytes, LastError;
    var kept := GroupsWithout(s.groups, removed);
    GroupsWithoutMembers(s.groups, removed);
    forall i, j | 0 <= i < j < |kept| && kept[i].execution.Some?
      ensures kept[i].execution != kept[j].execution
    {
      var k, l := PlaceInGroups(s.groups, removed, i, j);
    }
  }

  lemma RemovalEntries(s: State, removed: set<int>)
    requires EntriesOk(s) && removed <= Ids(s.groups)
    ensures EntriesOk(AfterRemoval(s, removed))
  {
    hide Select, Without, TextBytes, LastError, GroupsWithout, IncreasingIds;
    if removed != {} {
      var t, kept := AfterRemoval(s, removed), Kept(s, removed);
      var selected := Select(s.recorded, Ids(s.groups) - removed);
      IdsWithout(s.groups, removed);
      KeptIsSelected(s, removed);
      if !s.trimmed {
        assert Line(s) + selected == selected;
        TextBytesAppend([t.entries[0]], kept);
        OneLine(t.entries[0]);
      }
      assert Line(t) == [t.entries[0]];
    }
  }

  lemma OneLine(line: Entry)
    ensures TextBytes([line]) == line.bytes
  {
  }

  lemma RemovalMatters(s: State, removed: set<int>)
    requires GroupsOk(s) && EntriesOk(s) && GroupsRecorded(s) && GroupsComplete(s) && KeepsWhatMatters(s)
    requires LatestErrorIn(s) && removed * Protected(s) == {}
    ensures GroupsComplete(AfterRemoval(s, removed)) && KeepsWhatMatters(AfterRemoval(s, removed))
  {
    hide EntriesOk, GroupsOk, GroupsRecorded, Highest;
    var kept := GroupsWithout(s.groups, removed);
    IdsWithout(s.groups, removed);
    GroupsWithoutMembers(s.groups, removed);
    if LastError(s.recorded).Some? {
      LatestErrorIsLast(s);
    }
    forall e | e in s.recorded && IsHighest(s.recorded, e)
      ensures e.group in Ids(kept)
    {
      HighestIsLatest(s, e);
    }
  }

  /** The group that `max_by_key` finds is that of the highest execution recorded. */
  lemma HighestIsLatest(s: State, e: Entry)
    requires GroupsOk(s) && GroupsRecorded(s) && e in s.recorded && IsHighest(s.recorded, e)
    requires e.group in Ids(s.groups)
    ensures LatestExecution(s.groups).Some? && LatestExecution(s.groups).value.id == e.group
    ensures LatestExecution(s.groups).value.execution == e.execution
  {
    hide Executions, BytesOf, DistinctIds, Highest, LatestExecution;
    var g :| g in s.groups && g.id == e.group;
    assert IsRecorded(s.recorded, g);
    var latest := LatestExecution(s.groups).value;
    assert IsRecorded(s.recorded, latest);
    var f :| f in s.recorded && f.group == latest.id;
    assert latest.execution == g.execution;
    var j, k :| 0 <= j < |s.groups| && 0 <= k < |s.groups| && s.groups[j] == latest && s.groups[k] == g;
  }

  lemma RemovalRecorded(s: State, removed: set<int>)
    requires GroupsRecorded(s)
    ensures GroupsRecorded(AfterRemoval(s, removed))
  {
    hide IsRecorded;
    GroupsWithoutMembers(s.groups, removed);
  }

  lemma RemovalConsistent(s: State, removed: set<int>)
    requires Consistent(s) && LatestErrorIn(s) && removed <= Ids(s.groups) && removed * Protected(s) == {}
    ensures Consistent(AfterRemoval(s, removed))
  {
    hide GroupsOk, EntriesOk, GroupsRecorded, GroupsComplete, KeepsWhatMatters, AfterRemoval, Protected;
    RemovalGroups(s, removed);
    RemovalRecorded(s, removed);
    RemovalEntries(s, removed);
    RemovalMatters(s, removed);
  }

  // ----- What a reader of the history can rely on

  lemma {:induction false} SelectedSize(recorded: seq<Entry>, groups: seq<Group>)
    requires DistinctIds(groups) && forall g :: g in groups ==> g.bytes == BytesOf(recorded, g.id)
    ensures TextBytes(Select(recorded, Ids(groups))) == GroupBytes(groups)
  {
    if groups == [] {
      assert Ids(groups) == {};
      SelectNone(recorded);
    } else {
      var rest, last := groups[..|groups| - 1], groups[|groups| - 1];
      assert groups == rest + [last];
      IdsPush(rest, last);
      assert last.id as int !in Ids(rest);
      assert Ids(groups) - {last.id as int} == Ids(rest);
      SelectLess(recorded, Ids(groups), last.id);
      SelectedSize(recorded, rest);
    }
  }

  /** The entries of one group, in order. */
  function EntriesOf(entries: seq<Entry>, group: int): seq<Entry> { Select(entries, {group}) }

  lemma {:induction false} SelectTwice(entries: seq<Entry>, ids: set<int>, group: int)
    requires group in ids
    ensures EntriesOf(Select(entries, ids), group) == EntriesOf(entries, group)
  {
    if entries != [] {
      var rest, last := entries[..|entries| - 1], entries[|entries| - 1];
      SelectTwice(rest, ids, group);
      SelectPush(Select(rest, ids), last, {group}, 0);
    }
  }

  lemma {:induction false} SelectBehind(line: Entry, entries: seq<Entry>, ids: set<int>)
    requires line.group !in ids
    ensures Select([line] + entries, ids) == Select(entries, ids)
  {
    if entries == [] {
      assert [line] + entries == [line] && [line][..0] == [];
    } else {
      assert ([line] + entries)[..|entries|] == [line] + entries[..|entries| - 1];
      SelectBehind(line, entries[..|entries| - 1], ids);
    }
  }

  /** The accounting: the total is the sum over the entries, and over the groups and
      the retention line. There is at most one such line, in front; the ids of the
      other entries increase. */
  lemma Accounting(s: State)
    requires Consistent(s)
    ensures s.textBytes == TextBytes(s.entries)
            == GroupBytes(s.groups) + (if s.trimmed then RETENTION_LINE_BYTES else 0)
    ensures s.executionGroups == Executions(s.groups)
    ensures forall i :: 0 <= i < |s.entries| && s.entries[i].group == NO_GROUP ==> i == 0 && s.trimmed
    ensures IncreasingIds(if s.trimmed then s.entries[1..] else s.entries)
  {
    hide Select, Executions, BytesOf, LastError, GroupBytes, TextBytes, IncreasingIds;
    var selected := Select(s.recorded, Ids(s.groups));
    SelectedSize(s.recorded, s.groups);
    SelectKeepsOrder(s.recorded, Ids(s.groups));
    SelectMembers(s.recorded, Ids(s.groups));
    TextBytesAppend(Line(s), selected);
    if s.trimmed {
      OneLine(s.entries[0]);
      assert s.entries[1..] == selected;
    } else {
      assert s.entries == selected;
    }
    forall i | 0 <= i < |s.entries|
      ensures s.entries[i].group == NO_GROUP ==> i == 0 && s.trimmed
    {
      assert i >= |Line(s)| ==> selected[i - |Line(s)|] in s.recorded;
    }
  }

  /** Retention never loses what matters: the latest error is the last error
      recorded since the last clear; the highest execution recorded since then has its
      group and all its entries; and a present group holds, in order, all that was
      recorded for its execution since the group was created. */
  lemma NothingThatMattersIsLost(s: State)
    requires Consistent(s)
    ensures LastError(s.recorded).Some? ==>
              && s.latestError.Some? && s.latestError.value < |s.entries|
              && s.entries[s.latestError.value] == s.recorded[LastError(s.recorded).value]
    ensures LastError(s.recorded).None? ==> s.latestError.None?
    ensures Highest(s.recorded).Some? ==> exists g :: g in s.groups && g.execution == Highest(s.recorded)
    ensures forall e :: e in s.recorded && IsHighest(s.recorded, e) ==> e in s.entries
    ensures forall g :: g in s.groups ==> EntriesOf(s.entries, g.id) == EntriesOf(s.recorded, g.id)
    ensures GroupsComplete(s)
  {
    hide Select, Executions, BytesOf, GroupBytes, TextBytes, IncreasingIds, GroupsOk, GroupsRecorded, Highest;
    hide IsHighest;
    var selected := Select(s.recorded, Ids(s.groups));
    SelectMembers(s.recorded, Ids(s.groups));
    if LastError(s.recorded).Some? {
      LatestErrorIsLast(s);
    } else {
      NoErrorSelected(s, selected);
    }
    HighestIsKept(s);
    forall g | g in s.groups
      ensures EntriesOf(s.entries, g.id) == EntriesOf(s.recorded, g.id)
    {
      SelectTwice(s.recorded, Ids(s.groups), g.id);
      if s.trimmed {
        SelectBehind(s.entries[0], selected, {g.id});
      } else {
        assert s.entries == selected;
      }
    }
  }

  lemma HighestIsKept(s: State)
    requires Consistent(s)
    ensures Highest(s.recorded).Some? ==> exists g :: g in s.groups && g.execution == Highest(s.recorded)
    ensures forall e :: e in s.recorded && IsHighest(s.recorded, e) ==> e in s.entries
  {
    hide Highest, GroupsOk, GroupsRecorded, GroupsComplete;
    SelectMembers(s.recorded, Ids(s.groups));
    if Highest(s.recorded).Some? {
      var e :| e in s.recorded && IsHighest(s.recorded, e);
      HighestIsLatest(s, e);
    }
  }

  lemma NoErrorSelected(s: State, selected: seq<Entry>)
    requires s.latestError == LastError(s.entries) && s.entries == Line(s) + selected
    requires s.trimmed ==> s.entries != [] && IsLine(s.entries[0])
    requires forall e :: e in selected ==> e in s.recorded
    requires LastError(s.recorded).None?
    ensures s.latestError.None?
  {
    forall k | 0 <= k < |s.entries|
      ensures !s.entries[k].isError
    {
      assert k >= |Line(s)| ==> s.entries[k] == selected[k - |Line(s)|] && selected[k - |Line(s)|] in s.recorded;
    }
  }

  lemma EmptyIsConsistent(s: State)
    requires s == State([], [], 0, None, s.nextGroup, s.nextEntry, 0, false, [])
    ensures Consistent(s) && Bounded(s)
  {
    assert EntriesOk(s) by {
      assert Ids(s.groups) == {} && Select([], {}) == [];
    }
    hide EntriesOk;
    assert GroupsOk(s);
    assert GroupsComplete(s);
    assert KeepsWhatMatters(s);
  }

  // ----- The history

  class History {
    var groups: seq<Group>
    var entries: seq<Entry>
    var executionGroups: nat
    var latestError: Option<nat>
    var nextGroup: nat
    var nextEntry: nat
    var textBytes: nat
    var trimmed: bool
    ghost var recorded: seq<Entry>

    ghost function S(): State
      reads this
    {
      State(groups, entries, executionGroups, latestError, nextGroup, nextEntry, textBytes, trimmed, recorded)
    }

    ghost predicate Valid()
      reads this
    {
      Consistent(S()) && Bounded(S())
    }

    constructor ()
      ensures Valid() && S() == EMPTY
    {
      groups, entries, executionGroups, latestError, nextGroup, nextEntry := [], [], 0, None, 0, 0;
      textBytes, trimmed, recorded := 0, false, [];
      new;
      EmptyIsConsistent(S());
    }

    method Clear()
      modifies this
      ensures Valid() && entries == [] && groups == [] && recorded == []
      ensures nextGroup == old(nextGroup) && nextEntry == old(nextEntry)
    {
      hide Consistent, Bounded;
      groups, entries, executionGroups, latestError, textBytes, trimmed, recorded := [], [], 0, None, 0, false, [];
      EmptyIsConsistent(S());
    }

    /** Records an event, and removes the groups in `removed` when there is too much. */
    method Record(event: Event) returns (ghost removed: set<int>)
      requires Valid()
      modifies this
      ensures Valid()
      ensures recorded == old(recorded) + [NewEntry(old(S()), event)]
      ensures S() == AfterRemoval(Added(old(S()), event), removed)
      ensures RightlyRemoved(Added(old(S()), event), removed)
    {
      hide Consistent, RightlyRemoved, AfterRemoval, ProtectedBytes, Kept, TextBytes;
      AddedConsistent(S(), event);
      Add(event);
      removed := Retain();
    }

    /** `record` up to `retain`. */
    method Add(event: Event)
      modifies this
      ensures S() == Added(old(S()), event)
    {
      hide GroupOf;
      var at := GroupOf(groups, event.execution);
      var id := nextEntry;
      nextEntry := nextEntry + 1;
      var index: nat;
      if at.Some? {
        index := at.value;
      } else {
        executionGroups := executionGroups + if event.execution.Some? then 1 else 0;
        groups := groups + [Group(nextGroup, event.execution, 0)];
        nextGroup := nextGroup + 1;
        index := |groups| - 1;
      }
      groups := groups[index := groups[index].(bytes := groups[index].bytes + event.bytes)];
      textBytes := textBytes + event.bytes;
      var entry := Entry(event.execution, event.isError, event.bytes, id, groups[index].id);
      if event.isError {
        latestError := Some(|entries|);
      }
      entries := entries + [entry];
      recorded := recorded + [entry];
      assert groups == GrownGroups(old(S()), event);
    }

    method Retain() returns (ghost removed: set<int>)
      requires Consistent(S())
      modifies this
      ensures Valid() && recorded == old(recorded)
      ensures S() == AfterRemoval(old(S()), removed) && RightlyRemoved(old(S()), removed)
      ensures TextBytes(Kept(old(S()), removed)) > MAX_TEXT_BYTES <==> ProtectedBytes(old(S())) > MAX_TEXT_BYTES
      ensures textBytes == TextBytes(Kept(old(S()), removed))
                           + if removed != {} && !old(trimmed) then RETENTION_LINE_BYTES else 0
    {
      hide Consistent, RightlyRemoved, GroupsWithout, Without, Executions, TextBytes, LastError, Bounded, AfterRemoval;
      ghost var s := S();
      removed := {};
      if !OverLimit(|groups|, executionGroups, textBytes) {
        NothingRemoved(s);
        NoChange(s);
        SizeAfter(s, {});
        OverBudget(s, {});
        return;
      }
      var gone, executions, bytes := Trim();
      removed := gone;
      RightIsSafe(s, gone);
      RemovalConsistent(s, gone);
      RemovalBounded(s, gone);
      SizeAfter(s, gone);
      OverBudget(s, gone);
      Remove(gone, executions, bytes);
    }

    /** The rest of `retain`, after its loop. */
    method Remove(gone: set<int>, executions: nat, bytes: nat)
      requires Consistent(S())
      requires executions == Executions(GroupsWithout(groups, gone)) && bytes == TextBytes(Kept(S(), gone))
      modifies this
      ensures S() == AfterRemoval(old(S()), gone) && recorded == old(recorded)
    {
      hide Consistent, GroupsWithout, Without, Executions, TextBytes, LastError;
      executionGroups, textBytes := executions, bytes;
      if gone == {} {
        NoneGone(old(S()));
        return;
      }
      groups := GroupsWithout(groups, gone);
      entries := Without(entries, gone);
      if !trimmed {
        trimmed := true;
        var line := Entry(None, false, RETENTION_LINE_BYTES, nextEntry, NO_GROUP);
        nextEntry := nextEntry + 1;
        textBytes := textBytes + RETENTION_LINE_BYTES;
        entries := [line] + entries;
      }
      latestError := LastError(entries);
    }

    /** The loop of `retain`. */
    method Trim() returns (removed: set<int>, executions: nat, bytes: nat)
      requires Consistent(S())
      requires OverLimit(|groups|, executionGroups, textBytes)
      ensures RightlyRemoved(S(), removed)
      ensures executions == Executions(GroupsWithout(groups, removed)) && bytes == TextBytes(Kept(S(), removed))
      ensures Reached(|GroupsWithout(groups, removed)|, executions, bytes)
    {
      hide Consistent, ProtectedIn, Trimming, OverCap, RightlyRemoved, GroupsWithout, Executions, TextBytes, Kept;
      ghost var s := S();
      removed, executions, bytes := {}, executionGroups, textBytes;
      ConsistentParts(s);
      var protected := ProtectedIn(groups, entries, latestError);
      var count := |groups|;
      TrimStart(s);
      var i := 0;
      while i < |groups|
        invariant i <= |groups| && executions >= 0 && bytes >= 0
        invariant Trimming(s, i, removed, count, executions, bytes)
      {
        if count <= 1 || !OverLimit(count, executions, bytes) {
          break;
        }
        var group := groups[i];
        var isExecution := group.execution.Some?;
        if !(OverCap(isExecution, count, executions) || bytes > MAX_TEXT_BYTES) || group.id in protected {
          TrimStay(s, i, removed, count, executions, bytes);
        } else {
          TrimGo(s, i, removed, count, executions, bytes);
          removed := removed + {group.id as int};
          count := count - 1;
          executions := executions - if isExecution then 1 else 0;
          // The saturating subtraction of the program never saturates.
          bytes := bytes - group.bytes;
        }
        i := i + 1;
      }
      TrimEnd(s, i, removed, count, executions, bytes);
      TrimDone(s, i, removed, count, executions, bytes);
    }
  }

  predicate Reached(groups: int, executions: int, bytes: int) {
    && executions <= MAX_EXECUTION_GROUPS && groups - executions <= MAX_NON_EXECUTION_GROUPS
    && (bytes <= MAX_TEXT_BYTES || groups <= 2)
  }

  lemma RemovalBounded(s: State, removed: set<int>)
    requires Consistent(s)
    requires Reached(|GroupsWithout(s.groups, removed)|, Executions(GroupsWithout(s.groups, removed)),
             TextBytes(Kept(s, removed)))
    ensures Bounded(AfterRemoval(s, removed))
  {
    hide Select, Executions, TextBytes, GroupsWithout, LastError, Without;
    ConsistentParts(s);
    WithoutNone(s.groups);
    KeptIsSelected(s, {});
    assert Ids(s.groups) - {} == Ids(s.groups);
    SizesMatch(s);
  }

  lemma NoChange(s: State)
    ensures AfterRemoval(s, {}) == s
  {
  }

  lemma NoneGone(s: State)
    requires Consistent(s)
    ensures s.executionGroups == Executions(GroupsWithout(s.groups, {})) && s.textBytes == TextBytes(Kept(s, {}))
  {
    hide Select, Executions, TextBytes, GroupsWithout, LastError, Without;
    ConsistentParts(s);
    WithoutNone(s.groups);
    KeptIsSelected(s, {});
    assert Ids(s.groups) - {} == Ids(s.groups);
    SizesMatch(s);
  }

  lemma SizeAfter(s: State, removed: set<int>)
    requires Consistent(s)
    ensures AfterRemoval(s, removed).textBytes
            == TextBytes(Kept(s, removed)) + if removed != {} && !s.trimmed then RETENTION_LINE_BYTES else 0
  {
    hide Consistent, TextBytes, GroupsWithout, Executions, LastError, Kept;
    NoneGone(s);
  }

  lemma SizesMatch(s: State)
    requires GroupsOk(s) && EntriesOk(s)
    ensures s.executionGroups == Executions(s.groups) && s.textBytes == TextBytes(s.entries)
    ensures s.entries == Line(s) + Select(s.recorded, Ids(s.groups))
  {
  }

  lemma TrimDone(s: State, i: nat, removed: set<int>, groups: int, executions: int, bytes: int)
    requires LatestErrorIn(s) && i <= |s.groups| && Trimming(s, i, removed, groups, executions, bytes)
    requires NotOver(s, |s.groups|, removed, groups, executions, bytes) && Needed(s, |s.groups|, removed)
    requires OverLimit(|s.groups|, s.executionGroups, s.textBytes)
    ensures RightlyRemoved(s, removed)
    ensures groups == |GroupsWithout(s.groups, removed)| && executions == Executions(GroupsWithout(s.groups, removed))
    ensures bytes == TextBytes(Kept(s, removed))
  {
    hide Protected, Kept, GroupsWithout, Executions, TextBytes, Ids, NotOver, Needed;
  }

  lemma RightIsSafe(s: State, removed: set<int>)
    requires RightlyRemoved(s, removed)
    ensures LatestErrorIn(s) && removed <= Ids(s.groups) && removed * Protected(s) == {}
  {
  }

  lemma ConsistentParts(s: State)
    requires Consistent(s)
    ensures GroupsOk(s) && EntriesOk(s) && LatestErrorIn(s)
  {
  }

  /** Removed are only groups without protection, of each kind the oldest, each of them
      because it had to go; no other group would have to, and none goes within the limits. */
  ghost predicate RightlyRemoved(s: State, removed: set<int>) {
    && LatestErrorIn(s) && removed <= Ids(s.groups) && removed * Protected(s) == {}
    && OldestFirst(s, |s.groups|, removed)
    && Needed(s, |s.groups|, removed)
    && NotOver(s, |s.groups|, removed, |GroupsWithout(s.groups, removed)|,
               Executions(GroupsWithout(s.groups, removed)), TextBytes(Kept(s, removed)))
    && (!OverLimit(|s.groups|, s.executionGroups, s.textBytes) ==> removed == {})
  }

  lemma NothingRemoved(s: State)
    requires Consistent(s) && !OverLimit(|s.groups|, s.executionGroups, s.textBytes)
    ensures RightlyRemoved(s, {}) && Bounded(s)
  {
    hide Select, Executions, TextBytes, GroupsWithout, LastError, Without, Protected, Ids;
    ConsistentParts(s);
    WithoutNone(s.groups);
    NoneGone(s);
    assert forall j :: 0 <= j <= |s.groups| ==> Ids(s.groups[..j]) * {} == {};
  }

  // ----- The budget can be exceeded

  function Info(bytes: nat): Event { Event(None, false, bytes) }

  lemma FirstStays(bytes: nat, removed: set<int>)
    requires RightlyRemoved(Added(EMPTY, Info(bytes)), removed)
    ensures removed == {}
  {
    hide OldestFirst, Needed, NotOver, GroupsWithout, Kept, Executions, TextBytes, Select, BytesOf;
    var s := Added(EMPTY, Info(bytes));
    assert s.groups == [Group(0, None, bytes)] && s.latestError.None?;
    OneProtected(s);
    assert removed <= {0} && 0 !in removed * Protected(s);
  }

  lemma OneProtected(s: State)
    requires |s.groups| == 1 && s.groups[0].execution.None? && s.latestError.None?
    ensures Ids(s.groups) == Protected(s) == {s.groups[0].id as int}
  {
    assert s.groups == [s.groups[0]];
  }

  lemma WithoutFirst(a: Entry, b: Entry)
    requires a.group == 0 && b.group == 1
    ensures TextBytes(Without([a, b], {})) == a.bytes + b.bytes && TextBytes(Without([a, b], {0})) == b.bytes
  {
    hide Without, TextBytes;
    assert [] + [a] == [a] && [a] + [b] == [a, b];
    WithoutPush([], a, {});
    WithoutPush([a], b, {});
    WithoutPush([], a, {0});
    WithoutPush([a], b, {0});
    TextBytesPush([a], b);
    TextBytesPush([], a);
    TextBytesPush([], b);
  }

  lemma WithoutPush(entries: seq<Entry>, last: Entry, removed: set<int>)
    ensures Without(entries + [last], removed)
         == if last.group !in removed then Without(entries, removed) + [last] else Without(entries, removed)
    ensures Without([], removed) == [] && TextBytes([]) == 0
  {
  }

  lemma SecondRemovesFirst(bytes: nat, removed: set<int>)
    requires 0 < bytes <= MAX_TEXT_BYTES
    requires RightlyRemoved(Added(Added(EMPTY, Info(bytes)), Info(MAX_TEXT_BYTES)), removed)
    ensures removed == {0}
    ensures AfterRemoval(Added(Added(EMPTY, Info(bytes)), Info(MAX_TEXT_BYTES)), removed).textBytes
            == MAX_TEXT_BYTES + RETENTION_LINE_BYTES
  {
    hide OldestFirst, Needed;
    var first := Added(EMPTY, Info(bytes));
    var s := Added(first, Info(MAX_TEXT_BYTES));
    assert first.groups == [Group(0, None, bytes)];
    assert s.groups == [Group(0, None, bytes), Group(1, None, MAX_TEXT_BYTES)];
    assert s.entries == [Entry(None, false, bytes, 0, 0), Entry(None, false, MAX_TEXT_BYTES, 1, 1)];
    assert Protected(s) == {1};
    assert Ids(s.groups) == {0, 1} && 1 !in removed * Protected(s);
    WithoutFirst(s.entries[0], s.entries[1]);
    assert removed == {} || removed == {0};
    assert s.groups[0].id !in Protected(s);
  }

  /** One event can be as large as it likes: its group is protected. */
  method LargeEventStays(bytes: nat) returns (history: History)
    ensures fresh(history) && history.Valid() && history.textBytes == bytes
  {
    hide Consistent, Bounded, RightlyRemoved;
    history := new History();
    ghost var removed := history.Record(Info(bytes));
    FirstStays(bytes, removed);
  }

  /** The retention line comes on top of what is kept within the budget. */
  method LineExceedsBudget() returns (history: History)
    ensures fresh(history) && history.Valid() && history.textBytes == MAX_TEXT_BYTES + RETENTION_LINE_BYTES
  {
    hide Consistent, Bounded, RightlyRemoved, Added;
    history := new History();
    ghost var removed := history.Record(Info(1));
    FirstStays(1, removed);
    removed := history.Record(Info(MAX_TEXT_BYTES));
    SecondRemovesFirst(1, removed);
  }
}
