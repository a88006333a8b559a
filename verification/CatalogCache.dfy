/** The cached schemas of a connection, src/catalog.rs, and the refresh that
    fills them, src/catalog/worker.rs. */
module CatalogCache {
  import opened Options

  /** A UUID. */
  type Id = int

  datatype Column = Column(name: string, dataType: string, comment: Option<string>)

  datatype Kind = Table | View

  /** What went wrong at a node, for whom, and a number for it. */
  datatype Fault = Fault(message: string, member: Id, id: Id)

  datatype Relation =
    Relation(kind: Kind, comment: Option<string>, fetchedAt: Option<nat>, error: Option<Fault>,
        columns: Option<seq<Column>>)

  datatype Schema = Schema(fetchedAt: Option<nat>, error: Option<Fault>, relations: Option<map<string, Relation>>)

  datatype Entry = Entry(name: string, kind: Kind, comment: Option<string>)

  /** What an interrupted refresh leaves behind: when it began, and what it need not read again. */
  datatype Unfinished = Unfinished(started: nat, done: set<string>)

  const UNREAD := Schema(None, None, None)

  // ----- What a refresh reads

  datatype Scope = Connection | OfSchema(schema: string) | OfRelation(schema: string, relation: string)

  /** A part that a refresh can read: the schema list, the relation list of a schema, or one relation. */
  datatype Part = SchemaList | RelationList(schema: string) | Columns(schema: string, relation: string)

  predicate Reads(scope: Scope, part: Part) {
    match scope
    case Connection => true
    case OfSchema(schema) => !part.SchemaList? && part.schema == schema
    case OfRelation(schema, relation) => part == Columns(schema, relation)
  }

  predicate Covers(scope: Scope, other: Scope) {
    match (scope, other)
    case (Connection, _) => true
    case (OfSchema(schema), OfRelation(parent, _)) => schema == parent
    case _ => scope == other
  }

  /** A scope covers another exactly when it reads every part that the other reads. */
  lemma CoversMeansReads(scope: Scope, other: Scope)
    ensures Covers(scope, other) <==> forall part :: Reads(other, part) ==> Reads(scope, part)
  {
    match other
    case Connection =>
      assert Reads(other, SchemaList);
    case OfSchema(schema) =>
      assert Reads(other, RelationList(schema));
    case OfRelation(schema, relation) =>
      assert Reads(other, Columns(schema, relation));
  }

  // ----- What each update makes of the nodes

  function Shown(names: seq<string>, shows: string -> bool): set<string> { set n | n in names && shows(n) }

  /** The schemas after a new list. A schema that stays keeps its relations, unless the
      list names it more than once: then the second mention replaces it by an unread one. */
  function Listed(before: map<string, Schema>, names: seq<string>, shows: string -> bool): map<string, Schema> {
    map n | n in Shown(names, shows) :: if n in before && multiset(names)[n] == 1 then before[n] else UNREAD
  }

  function NamesOf(entries: seq<Entry>): set<string> { set i | 0 <= i < |entries| :: entries[i].name }

  function Mentions(entries: seq<Entry>, name: string): nat {
    if entries == [] then 0
    else Mentions(entries[..|entries| - 1], name) + if entries[|entries| - 1].name == name then 1 else 0
  }

  /** The last entry of a name. */
  function Last(entries: seq<Entry>, name: string): (entry: Entry)
    requires name in NamesOf(entries)
    ensures entry.name == name && entry in entries
  {
    var last := entries[|entries| - 1];
    if last.name == name then last
    else
      assert forall i :: 0 <= i < |entries| - 1 ==> entries[..|entries| - 1][i] == entries[i];
      Last(entries[..|entries| - 1], name)
  }

  function Merged(before: map<string, Relation>, entry: Entry, keeps: bool): Relation {
    var kept := if keeps && entry.name in before then Some(before[entry.name]) else None;
    Relation(entry.kind, entry.comment, if kept.Some? then kept.value.fetchedAt else None, None,
             if kept.Some? then kept.value.columns else None)
  }

  /** The relations after a new list: each as its last entry says. A relation that
      stays keeps its columns, unless the list names it more than once. */
  function Relisted(before: map<string, Relation>, entries: seq<Entry>): map<string, Relation> {
    map n | n in NamesOf(entries) :: Merged(before, Last(entries, n), Mentions(entries, n) == 1)
  }

  function Known(node: Schema): map<string, Relation> { if node.relations.Some? then node.relations.value else map[] }

  /** The first entry of a name. */
  function First(entries: seq<Entry>, name: string): (entry: Option<Entry>)
    ensures entry.Some? <==> name in NamesOf(entries)
    ensures entry.Some? ==> entry.value.name == name
  {
    if entries == [] then None
    else if entries[0].name == name then Some(entries[0])
    else
      assert entries == [entries[0]] + entries[1..];
      assert NamesOf(entries) == {entries[0].name} + NamesOf(entries[1..]) by {
        assert forall i :: 0 < i < |entries| ==> entries[i] == entries[1..][i - 1];
      }
      First(entries[1..], name)
  }

  /** One relation after it was read: its columns stay. */
  function Updated(relations: map<string, Relation>, name: string, entries: seq<Entry>): map<string, Relation> {
    var entry := First(entries, name);
    if entry.None? then relations - {name}
    else if name in relations then
      var relation := relations[name];
      relations[name := relation.(kind := entry.value.kind, comment := entry.value.comment, error := None)]
    else relations[name := Relation(entry.value.kind, entry.value.comment, None, None, None)]
  }

  function Described(relation: Relation, columns: seq<Column>, at: nat): Relation {
    relation.(columns := Some(columns), fetchedAt := Some(at), error := None)
  }

  function ColumnsFor(columns: map<string, seq<Column>>, name: string): seq<Column> {
    if name in columns then columns[name] else []
  }

  function Detailed(relations: map<string, Relation>, only: Option<string>, columns: map<string, seq<Column>>,
                    at: nat): map<string, Relation> {
    map n | n in relations ::
      if only.Some? && only.value != n then relations[n] else Described(relations[n], ColumnsFor(columns, n), at)
  }

  // ----- Answers of the server

  /** An answer and its time, an error that belongs to the node, or the end of the refresh. */
  datatype Outcome<T> = Answer(value: T, at: nat) | Failure(fault: Fault) | Interrupt

  /** What each request of a connection refresh gives. `byTable` is the column-read choice of the member. */
  datatype Reading = Reading(
    byTable: bool,
    relations: string -> Outcome<seq<Entry>>,
    columns: string -> Outcome<map<string, seq<Column>>>,
    tableColumns: (string, string) -> Outcome<map<string, seq<Column>>>)

  datatype End = Complete | WithFaults | Interrupted

  /** Whether the columns are read table by table: by choice, or because the request for the schema failed. */
  predicate TableByTable(reading: Reading, schema: string) { reading.byTable || reading.columns(schema).Failure? }

  ghost function TablesEnd(reading: Reading, schema: string, names: set<string>): End {
    if exists n :: n in names && reading.tableColumns(schema, n).Interrupt? then Interrupted
    else if exists n :: n in names && reading.tableColumns(schema, n).Failure? then WithFaults
    else Complete
  }

  /** How the refresh of one schema ends. */
  ghost function EndOf(reading: Reading, schema: string): End {
    match reading.relations(schema)
    case Interrupt => Interrupted
    case Failure(_) => WithFaults
    case Answer(entries, _) =>
      if TableByTable(reading, schema) then TablesEnd(reading, schema, NamesOf(entries))
      else if reading.columns(schema).Interrupt? then Interrupted
      else Complete
  }

  function TableAfter(relation: Relation, reading: Reading, schema: string, name: string): Relation {
    match reading.tableColumns(schema, name)
    case Answer(columns, at) => Described(relation, ColumnsFor(columns, name), at)
    case Failure(fault) => relation.(error := Some(fault))
    case Interrupt => relation
  }

  function TablesAfter(relations: map<string, Relation>, reading: Reading, schema: string): map<string, Relation> {
    map n | n in relations :: TableAfter(relations[n], reading, schema, n)
  }

  /** A schema after its refresh, unless that was interrupted. */
  function SchemaAfter(node: Schema, reading: Reading, schema: string): Schema {
    match reading.relations(schema)
    case Interrupt => node
    case Failure(fault) => node.(error := Some(fault))
    case Answer(entries, at) =>
      var relations := Relisted(Known(node), entries);
      Schema(Some(at), None, Some(
        if TableByTable(reading, schema) then TablesAfter(relations, reading, schema)
        else match reading.columns(schema)
             case Answer(columns, read) => Detailed(relations, None, columns, read)
             case _ => relations))
  }

  // ----- A complete refresh depends on the answers only

  /** The answer that the columns of a relation come from. */
  function ColumnAnswer(reading: Reading, schema: string, name: string): Outcome<map<string, seq<Column>>> {
    if TableByTable(reading, schema) then reading.tableColumns(schema, name) else reading.columns(schema)
  }

  /** A schema that holds just what the server said. */
  function FreshSchema(reading: Reading, schema: string): Schema
    requires reading.relations(schema).Answer?
  {
    var entries := reading.relations(schema).value;
    Schema(Some(reading.relations(schema).at), None, Some(
      map n | n in NamesOf(entries) :: FreshRelation(Last(entries, n), ColumnAnswer(reading, schema, n))))
  }

  function FreshRelation(entry: Entry, columns: Outcome<map<string, seq<Column>>>): Relation {
    if columns.Answer? then Relation(entry.kind, entry.comment, Some(columns.at), None,
        Some(ColumnsFor(columns.value, entry.name)))
    else Relation(entry.kind, entry.comment, None, None, None)
  }

  /** Whatever the cache held of a schema, its complete refresh leaves what the server said. */
  lemma CompleteIsFresh(node: Schema, reading: Reading, schema: string)
    requires EndOf(reading, schema) == Complete
    ensures reading.relations(schema).Answer?
    ensures SchemaAfter(node, reading, schema) == FreshSchema(reading, schema)
  {
    var entries := reading.relations(schema).value;
    var relations := SchemaAfter(node, reading, schema).relations.value;
    var said := FreshSchema(reading, schema).relations.value;
    hide NamesOf, Mentions;
    assert relations.Keys == said.Keys == NamesOf(entries);
    forall n | n in NamesOf(entries)
      ensures relations[n] == said[n] == FreshRelation(Last(entries, n), ColumnAnswer(reading, schema, n))
    {
      if TableByTable(reading, schema) {
        assert reading.tableColumns(schema, n).Answer?;
      }
    }
    assert relations == said;
  }

  /** A relation in the cache. */
  function Find(schemas: map<string, Schema>, schema: string, name: string): Option<Relation> {
    if schema in schemas && name in Known(schemas[schema]) then Some(Known(schemas[schema])[name]) else None
  }

  /** `schemas` differs from `before` in one relation at most. */
  ghost predicate OnlyRelation(before: map<string, Schema>, schemas: map<string, Schema>, schema: string,
                               name: string) {
    && schemas.Keys == before.Keys
    && (forall s :: s in schemas ==>
          schemas[s].fetchedAt == before[s].fetchedAt && schemas[s].error == before[s].error
          && (schemas[s].relations.Some? <==> before[s].relations.Some?))
    && (forall s, n :: (s, n) != (schema, name) ==> Find(schemas, s, n) == Find(before, s, n))
  }

  function Narrowed(unfinished: Option<Unfinished>, names: set<string>): Option<Unfinished> {
    if unfinished.None? then None else Some(unfinished.value.(done := unfinished.value.done * names))
  }

  lemma MentionsPush(entries: seq<Entry>, i: nat, name: string)
    requires i < |entries|
    ensures Mentions(entries[..i + 1], name) == Mentions(entries[..i], name) + if entries[i].name == name then 1 else 0
  {
    assert entries[..i + 1][..i] == entries[..i];
  }

  lemma {:induction false} MentionedOnce(entries: seq<Entry>, name: string)
    ensures Mentions(entries, name) > 0 <==> name in NamesOf(entries)
  {
    if entries != [] {
      var rest := entries[..|entries| - 1];
      MentionedOnce(rest, name);
      NamesPush(entries, |entries| - 1);
      assert entries[..|entries|] == entries;
    }
  }

  lemma NamesPush(entries: seq<Entry>, i: nat)
    requires i < |entries|
    ensures NamesOf(entries[..i + 1]) == NamesOf(entries[..i]) + {entries[i].name}
  {
  }

  /** The relation list with one more entry, as the loop of `apply_relations` makes it. */
  lemma RelistedPush(before: map<string, Relation>, entries: seq<Entry>, i: nat)
    requires i < |entries|
    ensures var entry := entries[i];
            Relisted(before, entries[..i + 1]) ==
              Relisted(before, entries[..i])[entry.name := Merged(before, entry, entry.name !in NamesOf(entries[..i]))]
  {
    var less, more, entry := entries[..i], entries[..i + 1], entries[i];
    NamesPush(entries, i);
    assert more[..i] == less && more[i] == entry;
    hide NamesOf, Merged;
    forall n | n in NamesOf(more)
      ensures Mentions(more, n) == Mentions(less, n) + if entry.name == n then 1 else 0
      ensures Last(more, n) == if entry.name == n then entry else Last(less, n)
    {
      MentionsPush(entries, i, n);
    }
    hide Mentions, Last;
    MentionedOnce(less, entry.name);
  }

  /** What a new list makes of the schemas: those that it names and that are shown are left;
      one that was known and is named once stays as it was, all others are unread. */
  ghost predicate SchemasAsListed(before: map<string, Schema>, after: map<string, Schema>, names: seq<string>,
                                  shows: string -> bool) {
    && (forall n :: n in after <==> n in names && shows(n))
    && (forall i :: 0 <= i < |names| && shows(names[i]) ==>
          after[names[i]] ==
          if names[i] in before && (forall j :: 0 <= j < |names| && j != i ==> names[j] != names[i])
          then before[names[i]] else Schema(None, None, None))
  }

  lemma AllSchemasAsListed(before: map<string, Schema>, names: seq<string>, shows: string -> bool)
    ensures SchemasAsListed(before, Listed(before, names, shows), names, shows)
  {
    OnceOrMore(names);
  }

  lemma OnceOrMore(names: seq<string>)
    ensures forall i :: 0 <= i < |names| ==>
              (multiset(names)[names[i]] == 1 <==> forall j :: 0 <= j < |names| && j != i ==> names[j] != names[i])
  {
    forall i | 0 <= i < |names|
      ensures multiset(names)[names[i]] == 1 <==> forall j :: 0 <= j < |names| && j != i ==> names[j] != names[i]
    {
      var before, after := names[..i], names[i + 1..];
      assert names == before + [names[i]] + after;
      assert forall j :: i < j < |names| ==> names[j] == after[j - i - 1];
      assert forall j :: 0 <= j < i ==> names[j] == before[j];
    }
  }

  /** The schema list with one more name. */
  lemma ListedPush(before: map<string, Schema>, names: seq<string>, shows: string -> bool, i: nat)
    requires i < |names|
    ensures Shown(names[..i + 1], shows) == Shown(names[..i], shows) + if shows(names[i]) then {names[i]} else {}
    ensures Listed(before, names[..i + 1], shows) ==
            if shows(names[i])
            then
              var node := if names[i] in before && names[i] !in names[..i] then before[names[i]] else UNREAD;
              Listed(before, names[..i], shows)[names[i] := node]
            else Listed(before, names[..i], shows)
  {
    assert names[..i + 1] == names[..i] + [names[i]];
    assert multiset(names[..i + 1]) == multiset(names[..i]) + multiset{names[i]};
  }

  /** What the entries of a new list make of the relations: each has the kind and the
      comment of its last entry and no error; one that was known and is named once keeps its
      columns and the time of their read; others are unread; no other relation is left. */
  ghost predicate AreAsListed(before: map<string, Relation>, after: map<string, Relation>, entries: seq<Entry>) {
    && (forall n :: n in after <==> exists i :: 0 <= i < |entries| && entries[i].name == n)
    && (forall i :: 0 <= i < |entries| && (forall j :: i < j < |entries| ==> entries[j].name != entries[i].name) ==>
          var name := entries[i].name;
          && name in after && after[name].kind == entries[i].kind && after[name].comment == entries[i].comment
          && after[name].error.None?
          && (if name in before && (forall j :: 0 <= j < i ==> entries[j].name != name) then
                after[name].columns == before[name].columns && after[name].fetchedAt == before[name].fetchedAt
              else after[name].columns.None? && after[name].fetchedAt.None?))
  }

  /** What a read of one relation makes of it: it goes when no entry names it, else it has the
      kind and the comment of the first that does and no error, and keeps its columns. */
  ghost predicate IsAsRead(before: map<string, Relation>, after: map<string, Relation>, name: string,
                           entries: seq<Entry>) {
    && (name in after <==> exists i :: 0 <= i < |entries| && entries[i].name == name)
    && (forall n :: n != name ==> (n in after <==> n in before) && (n in before ==> after[n] == before[n]))
    && (forall i :: 0 <= i < |entries| && entries[i].name == name
                    && (forall j :: 0 <= j < i ==> entries[j].name != name) ==>
          && name in after && after[name].kind == entries[i].kind && after[name].comment == entries[i].comment
          && after[name].error.None?
          && (if name in before then
                after[name].columns == before[name].columns && after[name].fetchedAt == before[name].fetchedAt
              else after[name].columns.None? && after[name].fetchedAt.None?))
  }

  lemma {:induction false} LastIs(entries: seq<Entry>, i: nat)
    requires i < |entries| && forall j :: i < j < |entries| ==> entries[j].name != entries[i].name
    ensures entries[i].name in NamesOf(entries) && Last(entries, entries[i].name) == entries[i]
    ensures Mentions(entries, entries[i].name) == 1 <==> forall j :: 0 <= j < i ==> entries[j].name != entries[i].name
  {
    var n := |entries| - 1;
    var rest := entries[..n];
    if i < n {
      LastIs(rest, i);
      assert entries[n].name != entries[i].name;
      assert rest[i] == entries[i];
    } else {
      MentionedOnce(rest, entries[i].name);
      assert forall j :: 0 <= j < i ==> rest[j] == entries[j];
    }
  }

  lemma AllAsListed(before: map<string, Relation>, entries: seq<Entry>)
    ensures AreAsListed(before, Relisted(before, entries), entries)
  {
    hide Relisted, Last, Mentions;
    var after := Relisted(before, entries);
    NamesListed(before, entries);
    forall i | 0 <= i < |entries| && forall j :: i < j < |entries| ==> entries[j].name != entries[i].name
      ensures entries[i].name in after
      ensures after[entries[i].name] == Merged(before, entries[i], forall j :: 0 <= j < i ==>
                entries[j].name != entries[i].name)
    {
      RelistedAt(before, entries, i);
    }
  }

  lemma NamesListed(before: map<string, Relation>, entries: seq<Entry>)
    ensures forall n :: n in Relisted(before, entries) <==> exists i :: 0 <= i < |entries| && entries[i].name == n
  {
    hide Merged, Last, Mentions;
  }

  lemma RelistedAt(before: map<string, Relation>, entries: seq<Entry>, i: nat)
    requires i < |entries| && forall j :: i < j < |entries| ==> entries[j].name != entries[i].name
    ensures entries[i].name in Relisted(before, entries)
    ensures Relisted(before, entries)[entries[i].name]
         == Merged(before, entries[i], forall j :: 0 <= j < i ==> entries[j].name != entries[i].name)
  {
    hide Merged, Last, Mentions, NamesOf;
    LastIs(entries, i);
  }

  lemma {:induction false} FirstIs(entries: seq<Entry>, i: nat)
    requires i < |entries| && forall j :: 0 <= j < i ==> entries[j].name != entries[i].name
    ensures First(entries, entries[i].name) == Some(entries[i])
  {
    if i > 0 {
      assert entries[0].name != entries[i].name;
      FirstIs(entries[1..], i - 1);
    }
  }

  lemma OneAsRead(before: map<string, Relation>, name: string, entries: seq<Entry>)
    ensures IsAsRead(before, Updated(before, name, entries), name, entries)
  {
    hide First;
    forall i | 0 <= i < |entries| && entries[i].name == name && forall j :: 0 <= j < i ==> entries[j].name != name
      ensures First(entries, name) == Some(entries[i])
    {
      FirstIs(entries, i);
    }
    assert First(entries, name).Some? <==> exists i :: 0 <= i < |entries| && entries[i].name == name;
  }

  class Catalog {
    var fetchedAt: Option<nat>
    var error: Option<Fault>
    var unfinished: Option<Unfinished>
    var schemas: map<string, Schema>

    /** A stopped refresh remembers only schemas that the cache has. */
    ghost predicate DoneIsKnown()
      reads this
    {
      unfinished.Some? ==> unfinished.value.done <= schemas.Keys
    }

    method Retain(shows: string -> bool)
      modifies this`schemas, this`unfinished
      ensures schemas == map n | n in old(schemas) && shows(n) :: old(schemas)[n]
      ensures unfinished == Narrowed(old(unfinished), schemas.Keys) && DoneIsKnown()
      ensures unfinished.Some? <==> old(unfinished).Some?
      ensures unfinished.Some? ==>
                && unfinished.value.started == old(unfinished).value.started
                && forall n :: n in unfinished.value.done <==> n in old(unfinished).value.done && n in schemas
    {
      schemas := map n | n in schemas && shows(n) :: schemas[n];
      if unfinished.Some? {
        unfinished := Some(unfinished.value.(done := set n | n in unfinished.value.done && n in schemas));
        assert unfinished.value.done == old(unfinished).value.done * schemas.Keys;
      }
    }

    method ApplySchemas(names: seq<string>, shows: string -> bool, at: nat)
      modifies this
      ensures schemas == Listed(old(schemas), names, shows)
      ensures SchemasAsListed(old(schemas), schemas, names, shows)
      ensures fetchedAt == Some(at) && error.None?
      ensures unfinished == Narrowed(old(unfinished), schemas.Keys) && DoneIsKnown()
      ensures unfinished.Some? <==> old(unfinished).Some?
      ensures unfinished.Some? ==>
                && unfinished.value.started == old(unfinished).value.started
                && forall n :: n in unfinished.value.done <==> n in old(unfinished).value.done && n in schemas
    {
      hide SchemasAsListed;
      var previous, next := schemas, map[];
      for i := 0 to |names|
        invariant schemas == old(schemas) && unfinished == old(unfinished)
        invariant next == Listed(schemas, names[..i], shows)
        invariant previous == schemas - Shown(names[..i], shows)
      {
        var name := names[i];
        ListedPush(schemas, names, shows, i);
        if shows(name) {
          next := next[name := if name in previous then previous[name] else UNREAD];
          previous := previous - {name};
        }
      }
      assert names[..|names|] == names;
      AllSchemasAsListed(schemas, names, shows);
      schemas := next;
      if unfinished.Some? {
        unfinished := Some(unfinished.value.(done := set n | n in unfinished.value.done && n in schemas));
        assert unfinished.value.done == old(unfinished).value.done * schemas.Keys;
      }
      fetchedAt, error := Some(at), None;
    }

    /** Replaces the relation list of a schema, or updates one relation. */
    method ApplyRelations(schema: string, only: Option<string>, entries: seq<Entry>, at: nat)
      modifies this`schemas
      ensures schema !in old(schemas) ==> schemas == old(schemas)
      ensures schema in old(schemas) && only.None? ==>
                schemas == old(schemas)[schema := Schema(Some(at), None,
                    Some(Relisted(Known(old(schemas)[schema]), entries)))]
      ensures schema in old(schemas) && only.Some? ==>
                schemas == if old(schemas)[schema].relations.None? then old(schemas)
                           else old(schemas)[schema := old(schemas)[schema].(
                             relations := Some(Updated(old(schemas)[schema].relations.value, only.value, entries)))]
      ensures only.Some? ==> OnlyRelation(old(schemas), schemas, schema, only.value)
      ensures schemas.Keys == old(schemas.Keys)
      ensures schema in old(schemas) && only.None? ==>
                && schemas[schema].relations.Some?
                && AreAsListed(Known(old(schemas)[schema]), schemas[schema].relations.value, entries)
      ensures schema in old(schemas) && only.Some? && old(schemas)[schema].relations.Some? ==>
                && schemas[schema].relations.Some?
                && IsAsRead(Known(old(schemas)[schema]), schemas[schema].relations.value, only.value, entries)
    {
      hide Relisted, AreAsListed, IsAsRead;
      AllAsListed(if schema in schemas then Known(schemas[schema]) else map[], entries);
      if only.Some? {
        OneAsRead(if schema in schemas then Known(schemas[schema]) else map[], only.value, entries);
      }
      if schema !in schemas {
        return;
      }
      var node := schemas[schema];
      if only.None? {
        var relations := Relist(Known(node), entries);
        schemas := schemas[schema := Schema(Some(at), None, Some(relations))];
      } else if node.relations.Some? {
        var relations := node.relations.value;
        var entry := First(entries, only.value);
        if entry.Some? {
          var name := entry.value.name;
          if name !in relations {
            relations := relations[name := Relation(entry.value.kind, None, None, None, None)];
          }
          relations := relations[name := relations[name].(kind := entry.value.kind, comment := entry.value.comment,
              error := None)];
        } else {
          relations := relations - {only.value};
        }
        assert relations == Updated(node.relations.value, only.value, entries);
        schemas := schemas[schema := node.(relations := Some(relations))];
      }
    }

    /** The columns of every relation of a schema, or of one. */
    method ApplyColumns(schema: string, only: Option<string>, columns: map<string, seq<Column>>, at: nat)
      modifies this`schemas
      ensures schema !in old(schemas) || old(schemas)[schema].relations.None? ==> schemas == old(schemas)
      ensures schema in old(schemas) && old(schemas)[schema].relations.Some? ==>
                schemas == old(schemas)[schema := old(schemas)[schema].(
                  relations := Some(Detailed(old(schemas)[schema].relations.value, only, columns, at)))]
      ensures only.Some? ==> OnlyRelation(old(schemas), schemas, schema, only.value)
      ensures schemas.Keys == old(schemas.Keys)
    {
      if schema !in schemas || schemas[schema].relations.None? {
        return;
      }
      var relations := Detail(schemas[schema].relations.value, only, columns, at);
      schemas := schemas[schema := schemas[schema].(relations := Some(relations))];
    }

    /** Puts a fault on the part of the cache that `scope` names, when that part exists. */
    method SetError(scope: Scope, fault: Fault)
      modifies this`schemas, this`error
      ensures error == if scope.Connection? then Some(fault) else old(error)
      ensures schemas.Keys == old(schemas.Keys)
      ensures scope.Connection? ==> schemas == old(schemas)
      ensures scope.OfSchema? ==>
                var schema := scope.schema;
                schemas == if schema !in old(schemas) then old(schemas)
                           else old(schemas)[schema := old(schemas)[schema].(error := Some(fault))]
      ensures scope.OfRelation? ==> OnlyRelation(old(schemas), schemas, scope.schema, scope.relation)
      ensures scope.OfRelation? ==>
                var (schema, relation, found) := (scope.schema, scope.relation,
                    Find(old(schemas), scope.schema, scope.relation));
                schemas ==
                  if found.None? then old(schemas)
                  else old(schemas)[schema := old(schemas)[schema].(
                    relations := Some(Known(old(schemas)[schema])[relation := found.value.(error := Some(fault))]))]
    {
      match scope
      case Connection =>
        error := Some(fault);
      case OfSchema(schema) =>
        if schema in schemas {
          schemas := schemas[schema := schemas[schema].(error := Some(fault))];
        }
      case OfRelation(schema, relation) =>
        if schema in schemas && schemas[schema].relations.Some? && relation in schemas[schema].relations.value {
          var relations := schemas[schema].relations.value;
          schemas := schemas[schema := schemas[schema].(
            relations := Some(relations[relation := relations[relation].(error := Some(fault))]))];
        }
    }
  }

  /** What a connection refresh has made of the schemas so far. `done` starts as `resumed`. */
  ghost predicate ReadSoFar(carried: map<string, Schema>, schemas: map<string, Schema>, reading: Reading,
                            resumed: set<string>, done: set<string>, todo: set<string>) {
    && schemas.Keys == carried.Keys
    && (forall n :: n in carried && (n in todo || n in resumed) ==> schemas[n] == carried[n])
    && (forall n :: n in carried && n in done - resumed ==> EndOf(reading, n) == Complete)
    && (forall n :: n in carried && n !in done + todo ==> EndOf(reading, n) == WithFaults)
    && (forall n :: n in carried && n !in todo + resumed ==> schemas[n] == SchemaAfter(carried[n], reading, n))
  }

  /** The refresh stopped in the middle of one schema. What it remembers aside, every other
      schema was not reached, or was read with faults. */
  ghost predicate StoppedAt(carried: map<string, Schema>, schemas: map<string, Schema>, reading: Reading,
                            remembered: set<string>, stopped: string)
    requires schemas.Keys == carried.Keys
  {
    && stopped in carried && stopped !in remembered && EndOf(reading, stopped) == Interrupted
    && forall n :: n in carried && n !in remembered && n != stopped ==>
         schemas[n] == carried[n]
             || (EndOf(reading, n) == WithFaults && schemas[n] == SchemaAfter(carried[n], reading, n))
  }

  /** The outcome of a connection refresh over the schemas `carried` over from the list.
      Uninterrupted, every schema but the resumed ones is as its answers make it.
      Interrupted, exactly the schemas that were read completely are remembered. */
  ghost predicate RefreshedTo(carried: map<string, Schema>, schemas: map<string, Schema>, reading: Reading,
                              resumed: Unfinished, unfinished: Option<Unfinished>, end: End) {
    && schemas.Keys == carried.Keys
    && (forall n :: n in carried && n in resumed.done ==> schemas[n] == carried[n])
    && (end.Interrupted? <==> unfinished.Some?)
    && (!end.Interrupted? ==>
          && (forall n :: n in carried && n !in resumed.done ==> schemas[n] == SchemaAfter(carried[n], reading, n))
          && (end == Complete <==> forall n :: n in carried && n !in resumed.done ==> EndOf(reading, n) == Complete))
    && (unfinished.Some? ==>
          && unfinished.value.started == resumed.started && resumed.done <= unfinished.value.done <= schemas.Keys
          && forall n :: n in unfinished.value.done && n !in resumed.done ==>
               EndOf(reading, n) == Complete && schemas[n] == SchemaAfter(carried[n], reading, n))
    && (unfinished.Some? ==> exists stopped :: StoppedAt(carried, schemas, reading, unfinished.value.done, stopped))
  }

  /** `saturating_sub` of two times. */
  function Since(start: nat, now: nat): nat { if now > start then now - start else 0 }

  /** The schemas that the refresh does not read again: those of a stopped one that is recent enough. */
  function Resumed(unfinished: Option<Unfinished>, started: nat, period: nat): Unfinished {
    if unfinished.Some? && Since(unfinished.value.started, started) < period then unfinished.value
    else Unfinished(started, {})
  }

  /** A refresh goes on where one stopped that began less than a period before, without the
      schemas that are shown no more; else it starts over. */
  lemma ResumedIs(unfinished: Option<Unfinished>, shown: set<string>, started: nat, period: nat)
    ensures var resumed := Resumed(Narrowed(unfinished, shown), started, period);
            if unfinished.Some? && period > 0 && started < unfinished.value.started + period then
              && resumed.started == unfinished.value.started
              && forall n :: n in resumed.done <==> n in unfinished.value.done && n in shown
            else resumed == Unfinished(started, {})
  {
  }

  method RefreshTables(catalog: Catalog, schema: string, reading: Reading) returns (end: End)
    requires schema in catalog.schemas && catalog.schemas[schema].relations.Some?
    modifies catalog`schemas, catalog`error
    ensures catalog.error == old(catalog.error)
    ensures end == TablesEnd(reading, schema, old(catalog.schemas[schema].relations.value.Keys))
    ensures catalog.schemas.Keys == old(catalog.schemas.Keys)
    ensures forall s :: s in catalog.schemas && s != schema ==> catalog.schemas[s] == old(catalog.schemas)[s]
    ensures !end.Interrupted? ==>
              catalog.schemas[schema] == old(catalog.schemas)[schema].(
                relations := Some(TablesAfter(old(catalog.schemas)[schema].relations.value, reading, schema)))
  {
    ghost var before := catalog.schemas;
    ghost var relations := before[schema].relations.value;
    end := Complete;
    var todo := catalog.schemas[schema].relations.value.Keys;
    while todo != {}
      invariant todo <= relations.Keys && !end.Interrupted?
      invariant catalog.schemas.Keys == before.Keys && catalog.error == old(catalog.error)
      invariant forall s :: s in before && s != schema ==> catalog.schemas[s] == before[s]
      invariant catalog.schemas[schema].relations.Some?
      invariant catalog.schemas[schema] == before[schema].(relations := catalog.schemas[schema].relations)
      invariant catalog.schemas[schema].relations.value.Keys == relations.Keys
      invariant forall n :: n in relations ==>
                  catalog.schemas[schema].relations.value[n] ==
                    if n in todo then relations[n] else TableAfter(relations[n], reading, schema, n)
      invariant end == TablesEnd(reading, schema, relations.Keys - todo)
      decreases todo
    {
      var name :| name in todo;
      assert relations.Keys - (todo - {name}) == relations.Keys - todo + {name};
      TablesEndPush(reading, schema, relations.Keys - todo, name);
      match reading.tableColumns(schema, name)
      case Interrupt =>
        end := Interrupted;
        InterruptedEnds(reading, schema, relations.Keys, name);
        return;
      case Failure(fault) =>
        catalog.SetError(OfRelation(schema, name), fault);
        end := WithFaults;
        todo := todo - {name};
      case Answer(columns, at) =>
        catalog.ApplyColumns(schema, Some(name), columns, at);
        todo := todo - {name};
    }
    assert relations.Keys - todo == relations.Keys;
    assert catalog.schemas[schema].relations.value == TablesAfter(relations, reading, schema);
  }

  lemma TablesEndPush(reading: Reading, schema: string, names: set<string>, name: string)
    ensures var end, more := TablesEnd(reading, schema, names), TablesEnd(reading, schema, names + {name});
            match reading.tableColumns(schema, name)
            case Answer(_, _) => more == end
            case Failure(_) => more == if end.Interrupted? then end else WithFaults
            case Interrupt => more == Interrupted
  {
  }

  lemma InterruptedEnds(reading: Reading, schema: string, names: set<string>, name: string)
    requires name in names && reading.tableColumns(schema, name).Interrupt?
    ensures TablesEnd(reading, schema, names) == Interrupted
  {
  }

  /** Reads one schema: first what is in it, then what those are made of. */
  method RefreshSchema(catalog: Catalog, schema: string, reading: Reading) returns (end: End)
    requires schema in catalog.schemas
    modifies catalog`schemas, catalog`error
    ensures catalog.error == old(catalog.error)
    ensures end == EndOf(reading, schema)
    ensures catalog.schemas.Keys == old(catalog.schemas.Keys)
    ensures forall s :: s in catalog.schemas && s != schema ==> catalog.schemas[s] == old(catalog.schemas)[s]
    ensures !end.Interrupted? ==> catalog.schemas[schema] == SchemaAfter(old(catalog.schemas)[schema], reading, schema)
    ensures reading.relations(schema).Failure? ==>
              && end == WithFaults
              && catalog.schemas[schema]
                 == old(catalog.schemas)[schema].(error := Some(reading.relations(schema).fault))
  {
    hide Relisted, Detailed, TablesEnd, TablesAfter;
    match reading.relations(schema)
    case Interrupt =>
      end := Interrupted;
    case Failure(fault) =>
      catalog.SetError(OfSchema(schema), fault);
      end := WithFaults;
    case Answer(entries, at) =>
      RelistedKeys(Known(catalog.schemas[schema]), entries);
      catalog.ApplyRelations(schema, None, entries, at);
      if reading.byTable {
        end := RefreshTables(catalog, schema, reading);
      } else {
        match reading.columns(schema)
        case Interrupt =>
          end := Interrupted;
        case Failure(_) =>
          // A single table or view can be the cause; the others still get their columns.
          end := RefreshTables(catalog, schema, reading);
        case Answer(columns, read) =>
          catalog.ApplyColumns(schema, None, columns, read);
          end := Complete;
      }
  }

  lemma RelistedKeys(before: map<string, Relation>, entries: seq<Entry>)
    ensures Relisted(before, entries).Keys == NamesOf(entries)
  {
  }

  /** A connection refresh: the schema list, then each schema that a stopped refresh
      has not read, in any order. */
  method RefreshConnection(catalog: Catalog, names: Outcome<seq<string>>, shows: string -> bool, period: nat,
                           reading: Reading)
    returns (end: End)
    modifies catalog
    ensures !names.Answer? ==>
              end == (if names.Interrupt? then Interrupted else WithFaults)
              && catalog.schemas == old(catalog.schemas) && catalog.unfinished == old(catalog.unfinished)
              && catalog.error == (if names.Failure? then Some(names.fault) else old(catalog.error))
    ensures names.Answer? ==>
              RefreshedTo(Listed(old(catalog.schemas), names.value, shows), catalog.schemas, reading,
                          Resumed(Narrowed(old(catalog.unfinished), Shown(names.value, shows)), names.at, period),
                          catalog.unfinished, end)
    ensures names.Answer? ==> catalog.error.None? && catalog.fetchedAt == Some(names.at)
    ensures old(catalog.DoneIsKnown()) ==> catalog.DoneIsKnown()
  {
    hide EndOf, SchemaAfter, Listed, ReadSoFar, RefreshedTo, SchemasAsListed;
    match names
    case Interrupt =>
      return Interrupted;
    case Failure(fault) =>
      catalog.SetError(Connection, fault);
      return WithFaults;
    case Answer(list, at) =>
      ghost var carried := Listed(catalog.schemas, list, shows);
      ListedKeys(catalog.schemas, list, shows);
      catalog.ApplySchemas(list, shows, at);
      var resumed := Resumed(catalog.unfinished, at, period);
      var done, todo := resumed.done, catalog.schemas.Keys - resumed.done;
      catalog.unfinished := Some(resumed);
      end := Complete;
      NothingRead(carried, reading, resumed.done);
      while todo != {}
        invariant !end.Interrupted? && catalog.error.None? && catalog.fetchedAt == Some(at)
        invariant catalog.unfinished == Some(Unfinished(resumed.started, done))
        invariant resumed.done <= done <= carried.Keys && todo <= carried.Keys - done
        invariant ReadSoFar(carried, catalog.schemas, reading, resumed.done, done, todo)
        invariant end == Complete <==> carried.Keys == done + todo
        invariant carried.Keys == catalog.schemas.Keys
        decreases todo
      {
        var name :| name in todo;
        ghost var before := catalog.schemas;
        SameKeys(carried, before, reading, resumed.done, done, todo);
        var read := RefreshSchema(catalog, name, reading);
        OneMoreRead(carried, before, catalog.schemas, reading, resumed.done, done, todo, name);
        if read.Interrupted? {
          StoppedThere(carried, before, catalog.schemas, reading, resumed, done, todo, name);
          return Interrupted;
        }
        todo := todo - {name};
        if read.Complete? {
          done := done + {name};
          catalog.unfinished := Some(Unfinished(resumed.started, done));
        } else {
          end := WithFaults;
        }
      }
      catalog.unfinished := None;
      AllRead(carried, catalog.schemas, reading, resumed, done, end);
  }

  lemma NothingRead(carried: map<string, Schema>, reading: Reading, resumed: set<string>)
    ensures ReadSoFar(carried, carried, reading, resumed, resumed, carried.Keys - resumed)
  {
  }

  lemma SameKeys(carried: map<string, Schema>, schemas: map<string, Schema>, reading: Reading,
                 resumed: set<string>, done: set<string>, todo: set<string>)
    requires ReadSoFar(carried, schemas, reading, resumed, done, todo)
    ensures schemas.Keys == carried.Keys
  {
  }

  lemma OneMoreRead(carried: map<string, Schema>, before: map<string, Schema>, schemas: map<string, Schema>,
                    reading: Reading,
                    resumed: set<string>, done: set<string>, todo: set<string>, name: string)
    requires ReadSoFar(carried, before, reading, resumed, done, todo) && name in todo && todo <= carried.Keys - done
    requires resumed <= done
    requires schemas.Keys == before.Keys && forall n :: n in schemas && n != name ==> schemas[n] == before[n]
    requires !EndOf(reading, name).Interrupted? ==> schemas[name] == SchemaAfter(before[name], reading, name)
    ensures EndOf(reading, name).Complete? ==>
            ReadSoFar(carried, schemas, reading, resumed, done + {name}, todo - {name})
    ensures EndOf(reading, name).WithFaults? ==> ReadSoFar(carried, schemas, reading, resumed, done, todo - {name})
  {
    hide EndOf, SchemaAfter;
  }

  lemma StoppedThere(carried: map<string, Schema>, before: map<string, Schema>, schemas: map<string, Schema>,
                     reading: Reading,
                     resumed: Unfinished, done: set<string>, todo: set<string>, name: string)
    requires ReadSoFar(carried, before, reading, resumed.done, done, todo) && name in todo
    requires todo <= carried.Keys - done
    requires resumed.done <= done <= carried.Keys
    requires schemas.Keys == before.Keys && forall n :: n in schemas && n != name ==> schemas[n] == before[n]
    requires EndOf(reading, name) == Interrupted
    ensures RefreshedTo(carried, schemas, reading, resumed, Some(Unfinished(resumed.started, done)), Interrupted)
  {
    hide EndOf, SchemaAfter;
    assert StoppedAt(carried, schemas, reading, done, name);
  }

  lemma AllRead(carried: map<string, Schema>, schemas: map<string, Schema>, reading: Reading, resumed: Unfinished,
                done: set<string>, end: End)
    requires ReadSoFar(carried, schemas, reading, resumed.done, done, {}) && !end.Interrupted?
    requires resumed.done <= done <= carried.Keys && (end == Complete <==> carried.Keys == done)
    ensures RefreshedTo(carried, schemas, reading, resumed, None, end)
  {
    hide EndOf, SchemaAfter;
    if carried.Keys != done {
      var n :| n in carried && n !in done;
      assert EndOf(reading, n) == WithFaults;
    }
  }

  lemma ListedKeys(before: map<string, Schema>, names: seq<string>, shows: string -> bool)
    ensures Listed(before, names, shows).Keys == Shown(names, shows)
  {
  }

  /** A complete refresh of any cache leaves what the same answers make of an empty
      one: exactly the shown schemas, with just what the server said. */
  lemma RefreshAgreesWithFresh(before: map<string, Schema>, names: seq<string>, shows: string -> bool, reading: Reading,
                               started: nat, schemas: map<string, Schema>, unfinished: Option<Unfinished>)
    requires RefreshedTo(Listed(before, names, shows), schemas, reading, Unfinished(started, {}), unfinished, Complete)
    ensures forall n :: n in Shown(names, shows) ==> reading.relations(n).Answer?
    ensures schemas == map n | n in Shown(names, shows) :: FreshSchema(reading, n)
  {
    hide EndOf, SchemaAfter, FreshSchema, Listed;
    ListedKeys(before, names, shows);
    var carried := Listed(before, names, shows);
    forall n | n in carried
      ensures reading.relations(n).Answer? && schemas[n] == FreshSchema(reading, n)
    {
      CompleteIsFresh(carried[n], reading, n);
    }
  }

  /** The relation list that `entries` make; relations that stay keep their columns. */
  method Relist(before: map<string, Relation>, entries: seq<Entry>) returns (relations: map<string, Relation>)
    ensures relations == Relisted(before, entries)
  {
    hide Relisted;
    var previous := before;
    relations := map[];
    RelistedNone(before);
    assert entries[..0] == [];
    for i := 0 to |entries|
      invariant relations == Relisted(before, entries[..i])
      invariant previous == before - NamesOf(entries[..i])
    {
      var entry := entries[i];
      RelistedPush(before, entries, i);
      NamesPush(entries, i);
      var kept := if entry.name in previous then Some(previous[entry.name]) else None;
      previous := previous - {entry.name};
      relations := relations[entry.name :=
        Relation(entry.kind, entry.comment, if kept.Some? then kept.value.fetchedAt else None, None,
                 if kept.Some? then kept.value.columns else None)];
    }
    assert entries[..|entries|] == entries;
  }

  lemma RelistedNone(before: map<string, Relation>)
    ensures Relisted(before, []) == map[] && NamesOf([]) == {}
  {
  }

  /** Goes through the relations and takes the columns of each. */
  method Detail(before: map<string, Relation>, only: Option<string>, columns: map<string, seq<Column>>, at: nat)
    returns (relations: map<string, Relation>)
    ensures relations == Detailed(before, only, columns, at)
  {
    relations := before;
    var left, todo := columns, before.Keys;
    while todo != {}
      invariant todo <= before.Keys == relations.Keys
      invariant forall n :: n in todo ==>
                relations[n] == before[n] && (n in left <==> n in columns) && (n in left ==> left[n] == columns[n])
      invariant forall n :: n in before && n !in todo ==> relations[n] == Detailed(before, only, columns, at)[n]
      decreases todo
    {
      var name :| name in todo;
      todo := todo - {name};
      if only.None? || only.value == name {
        var taken := ColumnsFor(left, name);
        left := left - {name};
        relations := relations[name := relations[name].(columns := Some(taken), fetchedAt := Some(at), error := None)];
      }
    }
  }
}
