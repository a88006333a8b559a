/** What a consistent workspace is, and the values its repair computes; the
    records of src/model.rs. */
module Consistency {
  import opened Chars
  import opened Numerals
  import opened Options
  import opened Titles

  const WORKSPACE_VERSION := 8

  /** A UUID. */
  type Id = int

  datatype Profile = Profile(id: Id, sharedCatalog: Option<Id>)

  datatype Tab = Tab(id: Id, title: string, profile: Option<Id>)

  datatype Conversation = Conversation(thread: string, lastActivity: nat, tab: Option<Id>, detached: Option<Id>)

  datatype Catalog = Catalog(id: Id, preferred: Option<Id>)

  datatype SearchScope = All | Current | Connections(ids: set<Id>)

  function ProfileIds(profiles: seq<Profile>): set<Id> { set p | p in profiles :: p.id }

  // ----- Consistency. `ids` are those of the connections.

  predicate ProperOwner(owner: Option<Id>, ids: set<Id>) {
    if ids == {} then owner.None? else owner.Some? && owner.value in ids
  }

  predicate HasOwner(tabs: seq<Tab>, owner: Id) {
    exists i :: 0 <= i < |tabs| && tabs[i].profile == Some(owner)
  }

  ghost predicate AllProper(tabs: seq<Tab>, ids: set<Id>) {
    forall i :: 0 <= i < |tabs| ==> ProperOwner(tabs[i].profile, ids)
  }

  ghost predicate AllHaveTab(tabs: seq<Tab>, ids: set<Id>) { forall p :: p in ids ==> HasOwner(tabs, p) }

  /** Every connection owns a tab, and every tab has a connection that exists, if there is any. */
  ghost predicate TabsOwned(tabs: seq<Tab>, ids: set<Id>) { AllProper(tabs, ids) && AllHaveTab(tabs, ids) }

  predicate HasTab(tabs: seq<Tab>, id: Id, owner: Id) {
    exists i :: 0 <= i < |tabs| && tabs[i].id == id && tabs[i].profile == Some(owner)
  }

  /** The connection of the tab in front and the tab. */
  function Front(tabs: seq<Tab>, activeTab: nat): Option<(Id, Id)> {
    if activeTab < |tabs| && tabs[activeTab].profile.Some? then
      Some((tabs[activeTab].profile.value, tabs[activeTab].id))
    else None
  }

  /** The active tab is in range. Exactly the connections have an active tab, and
      they own it. That of the connection in front is the tab in front. */
  ghost predicate ActiveOk(tabs: seq<Tab>, ids: set<Id>, activeTab: nat, activeTabs: map<Id, Id>) {
    && (if tabs == [] then activeTab == 0 else activeTab < |tabs|)
    && activeTabs.Keys == ids
    && (forall p :: p in activeTabs ==> HasTab(tabs, activeTabs[p], p))
    && (Front(tabs, activeTab).Some? ==>
          var (owner, tab) := Front(tabs, activeTab).value;
          owner in activeTabs && activeTabs[owner] == tab)
  }

  ghost predicate TitlesUnique(tabs: seq<Tab>) {
    forall i, j :: 0 <= i < j < |tabs| && tabs[i].profile == tabs[j].profile ==> tabs[i].title != tabs[j].title
  }

  /** Thread ids are trimmed, not empty and unique. */
  ghost predicate ThreadsOk(conversations: seq<Conversation>) {
    && (forall i :: 0 <= i < |conversations| ==> conversations[i].thread != "" && IsTrimmed(conversations[i].thread))
    && (forall i, j :: 0 <= i < j < |conversations| ==> conversations[i].thread != conversations[j].thread)
  }

  predicate TabExists(tabs: seq<Tab>, id: Id) { exists i :: 0 <= i < |tabs| && tabs[i].id == id }

  /** A conversation has a tab that exists, or else remembers no connection that is missing. */
  ghost predicate LinkOk(conversation: Conversation, tabs: seq<Tab>, ids: set<Id>) {
    && (conversation.tab.Some? ==> TabExists(tabs, conversation.tab.value) && conversation.detached.None?)
    && (conversation.detached.Some? ==> conversation.detached.value in ids)
  }

  /** Links lead to what exists, and no two conversations share a tab. */
  ghost predicate LinksOk(conversations: seq<Conversation>, tabs: seq<Tab>, ids: set<Id>) {
    && (forall i :: 0 <= i < |conversations| ==> LinkOk(conversations[i], tabs, ids))
    && (forall i, j :: 0 <= i < j < |conversations| && conversations[i].tab.Some? ==>
        conversations[i].tab != conversations[j].tab)
  }

  predicate IsMember(profiles: seq<Profile>, profile: Id, catalog: Id) {
    exists i :: 0 <= i < |profiles| && profiles[i].id == profile && profiles[i].sharedCatalog == Some(catalog)
  }

  predicate IsUsed(profiles: seq<Profile>, catalog: Id) {
    exists i :: 0 <= i < |profiles| && profiles[i].sharedCatalog == Some(catalog)
  }

  predicate CatalogExists(catalogs: seq<Catalog>, id: Id) { exists i :: 0 <= i < |catalogs| && catalogs[i].id == id }

  ghost predicate CatalogOk(catalog: Catalog, profiles: seq<Profile>) {
    IsUsed(profiles, catalog.id)
        && (catalog.preferred.Some? ==> IsMember(profiles, catalog.preferred.value, catalog.id))
  }

  /** Every shared catalog has a member, its preferred connection is one, and members have a catalog that exists. */
  ghost predicate CatalogsOk(profiles: seq<Profile>, catalogs: seq<Catalog>) {
    && (forall i :: 0 <= i < |profiles| && profiles[i].sharedCatalog.Some? ==>
        CatalogExists(catalogs, profiles[i].sharedCatalog.value))
    && (forall i :: 0 <= i < |catalogs| ==> CatalogOk(catalogs[i], profiles))
  }

  ghost predicate ScopeOk(scope: SearchScope, ids: set<Id>) {
    scope.Connections? ==> scope.ids != {} && scope.ids <= ids
  }

  // ----- Owners of tabs

  function Fallback(tabs: seq<Tab>, profiles: seq<Profile>, activeTab: nat): Option<Id> {
    if activeTab < |tabs| && tabs[activeTab].profile.Some? && tabs[activeTab].profile.value in ProfileIds(profiles)
    then tabs[activeTab].profile
    else if profiles == [] then None else Some(profiles[0].id)
  }

  function OwnerOf(owner: Option<Id>, ids: set<Id>, fallback: Option<Id>): Option<Id> {
    if owner.Some? && owner.value in ids then owner else fallback
  }

  function Assigned(tabs: seq<Tab>, ids: set<Id>, fallback: Option<Id>): (result: seq<Tab>)
    ensures |result| == |tabs|
  {
    seq(|tabs|, i requires 0 <= i < |tabs| => tabs[i].(profile := OwnerOf(tabs[i].profile, ids, fallback)))
  }

  lemma FallbackIsProper(tabs: seq<Tab>, profiles: seq<Profile>, activeTab: nat)
    ensures ProperOwner(Fallback(tabs, profiles, activeTab), ProfileIds(profiles))
  {
    if profiles != [] {
      assert profiles[0] in profiles && profiles[0].id in ProfileIds(profiles);
    }
  }

  lemma NoIds(profiles: seq<Profile>)
    ensures profiles == [] <==> ProfileIds(profiles) == {}
  {
    if profiles != [] {
      assert profiles[0].id in ProfileIds(profiles);
    }
  }

  lemma IdOfProfile(profiles: seq<Profile>, k: nat)
    requires k < |profiles|
    ensures profiles[k].id in ProfileIds(profiles)
  {
  }

  lemma AllIdsIn(profiles: seq<Profile>, ids: set<Id>)
    requires forall j :: 0 <= j < |profiles| ==> profiles[j].id in ids
    ensures ProfileIds(profiles) <= ids
  {
  }

  lemma AssignedFacts(tabs: seq<Tab>, ids: set<Id>, fallback: Option<Id>)
    requires ProperOwner(fallback, ids)
    ensures AllProper(Assigned(tabs, ids, fallback), ids)
    ensures AllProper(tabs, ids) ==> Assigned(tabs, ids, fallback) == tabs
  {
  }

  /** The tabs from `from` on are the first of their connection. */
  ghost predicate Firsts(tabs: seq<Tab>, from: nat) {
    forall i :: from <= i < |tabs| ==> tabs[i].profile.Some? && !HasOwner(tabs[..i], tabs[i].profile.value)
  }

  lemma AddOne(tabs: seq<Tab>, ids: set<Id>, tab: Tab, from: nat)
    requires tab.profile.Some? && tab.profile.value in ids && !HasOwner(tabs, tab.profile.value)
    requires from <= |tabs| && AllProper(tabs, ids) && Firsts(tabs, from)
    ensures AllProper(tabs + [tab], ids) && Firsts(tabs + [tab], from)
  {
    var more := tabs + [tab];
    forall i | from <= i < |more|
      ensures more[i].profile.Some? && !HasOwner(more[..i], more[i].profile.value)
    {
      assert more[..i] == tabs[..i];
      assert tabs[..|tabs|] == tabs;
    }
  }

  lemma NowOwned(tabs: seq<Tab>, tab: Tab, owner: Id)
    requires tab.profile == Some(owner)
    ensures HasOwner(tabs + [tab], owner)
  {
    assert (tabs + [tab])[|tabs|] == tab;
  }

  lemma AllOwned(tabs: seq<Tab>, profiles: seq<Profile>)
    requires AllProper(tabs, ProfileIds(profiles))
    requires forall j :: 0 <= j < |profiles| ==> HasOwner(tabs, profiles[j].id)
    ensures TabsOwned(tabs, ProfileIds(profiles))
  {
    hide HasOwner, AllProper;
    forall p | p in ProfileIds(profiles)
      ensures HasOwner(tabs, p)
    {
      var j :| 0 <= j < |profiles| && profiles[j].id == p;
    }
  }

  /** The repair of owners keeps the tabs that were there. */
  lemma AssignedIds(before: seq<Tab>, ids: set<Id>, fallback: Option<Id>, tabs: seq<Tab>)
    requires Assigned(before, ids, fallback) <= tabs
    ensures |before| <= |tabs| && forall i :: 0 <= i < |before| ==> tabs[i].id == before[i].id
  {
  }

  lemma HasOwnerGrows(tabs: seq<Tab>, more: seq<Tab>, owner: Id)
    requires tabs <= more && HasOwner(tabs, owner)
    ensures HasOwner(more, owner)
  {
    var i :| 0 <= i < |tabs| && tabs[i].profile == Some(owner);
    assert more[i] == tabs[i];
  }

  // ----- Active tabs

  /** The first tab of a connection. */
  function FirstTab(tabs: seq<Tab>, owner: Id): (id: Option<Id>)
    ensures id.Some? <==> HasOwner(tabs, owner)
    ensures id.Some? ==> HasTab(tabs, id.value, owner)
  {
    if tabs == [] then None
    else if tabs[0].profile == Some(owner) then Some(tabs[0].id)
    else
      var rest := FirstTab(tabs[1..], owner);
      assert HasOwner(tabs, owner) ==> HasOwner(tabs[1..], owner) by {
        if HasOwner(tabs, owner) {
          var i :| 0 <= i < |tabs| && tabs[i].profile == Some(owner);
          assert tabs[1..][i - 1] == tabs[i];
        }
      }
      assert rest.Some? ==> HasTab(tabs, rest.value, owner) by {
        if rest.Some? {
          var i :| 0 <= i < |tabs[1..]| && tabs[1..][i].id == rest.value && tabs[1..][i].profile == Some(owner);
          assert tabs[i + 1] == tabs[1..][i];
        }
      }
      rest
  }

  /** The active tab of a connection after the repair: the tab in front, else the
      one it had if it owns that, else its first. */
  function ActiveOf(tabs: seq<Tab>, front: Option<(Id, Id)>, before: map<Id, Id>, owner: Id): Option<Id> {
    if front.Some? && front.value.0 == owner then Some(front.value.1)
    else if owner in before && HasTab(tabs, before[owner], owner) then Some(before[owner])
    else FirstTab(tabs, owner)
  }

  /** `activeTabs` holds `ActiveOf` of every connection. */
  ghost predicate AreActive(tabs: seq<Tab>, ids: set<Id>, activeTab: nat, before: map<Id, Id>,
                            activeTabs: map<Id, Id>) {
    && activeTabs.Keys == ids
    && forall p :: p in ids ==> ActiveOf(tabs, Front(tabs, activeTab), before, p) == Some(activeTabs[p])
  }

  function Clamp(activeTab: nat, n: nat): nat {
    if n == 0 then 0 else if activeTab < n then activeTab else n - 1
  }

  /** There is a tab in front when there are connections. */
  lemma FrontExists(tabs: seq<Tab>, profiles: seq<Profile>, activeTab: nat)
    requires TabsOwned(tabs, ProfileIds(profiles)) && profiles != []
    ensures Front(tabs, Clamp(activeTab, |tabs|)).Some?
  {
    var owner := profiles[0].id;
    IdOfProfile(profiles, 0);
    assert HasOwner(tabs, owner);
    assert ProperOwner(tabs[Clamp(activeTab, |tabs|)].profile, ProfileIds(profiles));
  }

  lemma FrontIsProper(tabs: seq<Tab>, ids: set<Id>, activeTab: nat)
    requires AllProper(tabs, ids) && Front(tabs, activeTab).Some?
    ensures Front(tabs, activeTab).value.0 in ids
  {
  }

  lemma ActiveFacts(tabs: seq<Tab>, ids: set<Id>, activeTab: nat, before: map<Id, Id>, activeTabs: map<Id, Id>)
    requires TabsOwned(tabs, ids) && AreActive(tabs, ids, Clamp(activeTab, |tabs|), before, activeTabs)
    ensures ActiveOk(tabs, ids, Clamp(activeTab, |tabs|), activeTabs)
    ensures ActiveOk(tabs, ids, activeTab, before) ==> Clamp(activeTab, |tabs|) == activeTab && activeTabs == before
  {
    var at := Clamp(activeTab, |tabs|);
    var front := Front(tabs, at);
    if front.Some? {
      assert ProperOwner(tabs[at].profile, ids);
      assert HasTab(tabs, front.value.1, front.value.0);
      assert ActiveOf(tabs, front, before, front.value.0) == Some(activeTabs[front.value.0]);
    }
    forall p | p in activeTabs
      ensures HasTab(tabs, activeTabs[p], p)
    {
      assert ActiveOf(tabs, front, before, p) == Some(activeTabs[p]);
    }
    if ActiveOk(tabs, ids, activeTab, before) {
      forall p | p in ids
        ensures activeTabs[p] == before[p]
      {
        assert ActiveOf(tabs, front, before, p) == Some(activeTabs[p]);
      }
    }
  }

  // ----- Titles

  /** The title that a tab asks for. */
  function Tidy(title: string): (tidy: string) { if Trim(title) == "" then "Query 1" else Trim(title) }

  ghost predicate AllTidy(tabs: seq<Tab>) { forall i :: 0 <= i < |tabs| ==> Tidy(tabs[i].title) == tabs[i].title }

  function TitlesOf(tabs: seq<Tab>, owner: Option<Id>): set<string> {
    set i | 0 <= i < |tabs| && tabs[i].profile == owner :: tabs[i].title
  }

  /** Tab `i` has the title it asks for if it is the first of its connection with
      that, else the first copy title that no earlier tab of its connection has. */
  ghost predicate TitleOk(before: seq<Tab>, tabs: seq<Tab>, i: nat)
    requires i < |tabs| <= |before|
  {
    && tabs[i] == before[i].(title := tabs[i].title)
    && IsUnique(Tidy(before[i].title), TitlesOf(tabs[..i], before[i].profile), tabs[i].title)
  }

  ghost predicate Retitled(before: seq<Tab>, tabs: seq<Tab>) {
    |tabs| == |before| && forall i :: 0 <= i < |tabs| ==> TitleOk(before, tabs, i)
  }

  lemma RetitledIsUnique(before: seq<Tab>, tabs: seq<Tab>)
    requires Retitled(before, tabs)
    ensures TitlesUnique(tabs)
  {
    hide Tidy, Candidate;
    forall i, j | 0 <= i < j < |tabs| && tabs[i].profile == tabs[j].profile
      ensures tabs[i].title != tabs[j].title
    {
      assert TitleOk(before, tabs, j);
      assert tabs[..j][i].title in TitlesOf(tabs[..j], tabs[j].profile);
    }
  }

  lemma {:induction false} RetitledKeeps(before: seq<Tab>, tabs: seq<Tab>, n: nat)
    requires Retitled(before, tabs) && TitlesUnique(before) && n <= |tabs|
    requires AllTidy(before)
    ensures tabs[..n] == before[..n]
  {
    hide Tidy, IsFirstFree;
    if n > 0 {
      RetitledKeeps(before, tabs, n - 1);
      var i := n - 1;
      assert TitleOk(before, tabs, i);
      forall k | 0 <= k < i && tabs[..i][k].profile == before[i].profile
        ensures tabs[..i][k].title != before[i].title
      {
        assert tabs[..i][k] == before[..i][k] == before[k];
      }
      assert before[i].title !in TitlesOf(tabs[..i], before[i].profile);
      assert tabs[..n] == tabs[..i] + [tabs[i]] && before[..n] == before[..i] + [before[i]];
    }
  }

  lemma NoTitles()
    ensures forall p :: TitlesOf([], p) == {}
  {
  }

  lemma TitlesPush(was: seq<Tab>, tabs: seq<Tab>, i: nat)
    requires i < |was| == |tabs| && tabs == was[i := tabs[i]]
    ensures forall p :: TitlesOf(tabs[..i + 1], p) ==
                        if p == tabs[i].profile then TitlesOf(was[..i], p) + {tabs[i].title} else TitlesOf(was[..i], p)
    ensures tabs[..i] == was[..i]
  {
    assert tabs[..i] == was[..i];
    forall p
      ensures TitlesOf(tabs[..i + 1], p) == if p == tabs[i].profile then TitlesOf(was[..i], p) + {tabs[i].title}
              else TitlesOf(was[..i], p)
    {
      assert tabs[..i + 1][i] == tabs[i];
      assert forall k :: 0 <= k < i ==> tabs[..i + 1][k] == was[..i][k];
    }
  }

  // ----- Tidy titles

  /** Fewer tabs than copy suffixes that leave room for a title: 51 digits are allowed. */
  predicate HasRoom(n: nat) { |Decimal(n)| <= 51 }

  lemma TidyIsTidy(title: string)
    ensures IsTrimmed(Tidy(title)) && Tidy(title) != ""
  {
    TrimIsTrimmed(title);
  }

  lemma TrimmedIsTidy(title: string)
    requires IsTrimmed(title) && title != ""
    ensures Tidy(title) == title
  {
    hide Trim;
    TrimIsTrimmed(title);
  }

  /** A copy title starts as its title does and ends in a parenthesis. */
  lemma CopyIsTidy(title: string, copy: nat)
    requires IsTrimmed(title) && title != "" && HasRoom(copy)
    ensures Tidy(Candidate(TabCopy, title, MAX_TAB_TITLE, copy)) == Candidate(TabCopy, title, MAX_TAB_TITLE, copy)
  {
    hide Tidy, Decimal;
    var candidate, suffix := Candidate(TabCopy, title, MAX_TAB_TITLE, copy), Suffix(TabCopy, copy);
    assert |suffix| < MAX_TAB_TITLE && suffix[|suffix| - 1] == ')';
    assert candidate[0] == title[0] && candidate[|candidate| - 1] == ')';
    TrimmedIsTidy(candidate);
  }

  lemma {:induction false} FewTitles(tabs: seq<Tab>, owner: Option<Id>)
    ensures |TitlesOf(tabs, owner)| <= |tabs|
  {
    if tabs == [] {
      NoTitles();
    } else {
      var n := |tabs| - 1;
      FewTitles(tabs[..n], owner);
      assert TitlesOf(tabs, owner) <= TitlesOf(tabs[..n], owner) + {tabs[n].title} by {
        assert forall i :: 0 <= i < n ==> tabs[..n][i] == tabs[i];
      }
      SmallerSet(TitlesOf(tabs, owner), TitlesOf(tabs[..n], owner) + {tabs[n].title});
    }
  }

  lemma SmallerSet(a: set<string>, b: set<string>)
    requires a <= b
    ensures |a| <= |b|
  {
    FewTried(a, b);
  }

  /** Every title is tidy after the repair. */
  lemma RetitledIsTidy(before: seq<Tab>, tabs: seq<Tab>)
    requires Retitled(before, tabs) && HasRoom(|tabs|)
    ensures AllTidy(tabs)
  {
    hide Tidy, Candidate, TitlesOf, IsFirstFree, HasRoom;
    forall i | 0 <= i < |tabs|
      ensures Tidy(tabs[i].title) == tabs[i].title
    {
      assert TitleOk(before, tabs, i);
      var asked, used := Tidy(before[i].title), TitlesOf(tabs[..i], before[i].profile);
      TidyIsTidy(before[i].title);
      if asked !in used {
        TrimmedIsTidy(asked);
      } else {
        var copy :| IsFirstFree(TabCopy, asked, MAX_TAB_TITLE, used, copy)
            && tabs[i].title == Candidate(TabCopy, asked, MAX_TAB_TITLE, copy);
        FirstFreeIsSoon(TabCopy, asked, MAX_TAB_TITLE, used, copy);
        FewTitles(tabs[..i], before[i].profile);
        RoomForLess(copy, |tabs|);
        CopyIsTidy(asked, copy);
      }
    }
  }

  lemma RoomForLess(m: nat, n: nat)
    requires m <= n && HasRoom(n)
    ensures HasRoom(m)
  {
    DecimalGrows(m, n);
  }

  /** Titles play no part in who owns what. */
  lemma TitlesDoNotMatter(before: seq<Tab>, tabs: seq<Tab>)
    requires Retitled(before, tabs)
    ensures |tabs| == |before|
    ensures forall i :: 0 <= i < |tabs| ==> tabs[i].id == before[i].id && tabs[i].profile == before[i].profile
  {
    hide IsUnique;
    forall i | 0 <= i < |tabs|
      ensures tabs[i].id == before[i].id && tabs[i].profile == before[i].profile
    {
      assert TitleOk(before, tabs, i);
    }
  }

  lemma OwnersFollow(before: seq<Tab>, tabs: seq<Tab>, ids: set<Id>, activeTab: nat, activeTabs: map<Id, Id>)
    requires |tabs| == |before|
    requires forall i :: 0 <= i < |tabs| ==> tabs[i].id == before[i].id && tabs[i].profile == before[i].profile
    ensures TabsOwned(before, ids) ==> TabsOwned(tabs, ids)
    ensures ActiveOk(before, ids, activeTab, activeTabs) ==> ActiveOk(tabs, ids, activeTab, activeTabs)
  {
    forall owner | HasOwner(before, owner)
      ensures HasOwner(tabs, owner)
    {
      var i :| 0 <= i < |before| && before[i].profile == Some(owner);
      assert tabs[i].profile == Some(owner);
    }
    forall id, owner | HasTab(before, id, owner)
      ensures HasTab(tabs, id, owner)
    {
      var i :| 0 <= i < |before| && before[i].id == id && before[i].profile == Some(owner);
      assert tabs[i].profile == Some(owner);
    }
    assert forall i :: 0 <= i < |tabs| ==> tabs[i].profile == before[i].profile;
  }

  lemma LinksFollow(before: seq<Tab>, tabs: seq<Tab>, ids: set<Id>, conversations: seq<Conversation>)
    requires |tabs| == |before|
    requires forall i :: 0 <= i < |tabs| ==> tabs[i].id == before[i].id && tabs[i].profile == before[i].profile
    requires LinksOk(conversations, before, ids)
    ensures LinksOk(conversations, tabs, ids)
  {
    forall id | TabExists(before, id)
      ensures TabExists(tabs, id)
    {
      var i :| 0 <= i < |before| && before[i].id == id;
      assert tabs[i].id == id;
    }
    forall i | 0 <= i < |conversations|
      ensures LinkOk(conversations[i], tabs, ids)
    {
      assert LinkOk(conversations[i], before, ids);
    }
  }

  // ----- Conversations

  function Threads(conversations: seq<Conversation>): set<string> {
    set i | 0 <= i < |conversations| :: conversations[i].thread
  }

  /** `AssistantWorkspace::sanitize`: the first conversation of each trimmed thread id. */
  function Sane(conversations: seq<Conversation>): seq<Conversation> {
    if conversations == [] then []
    else
      var n := |conversations| - 1;
      var rest, thread := Sane(conversations[..n]), Trim(conversations[n].thread);
      if thread != "" && thread !in Threads(rest) then rest + [conversations[n].(thread := thread)] else rest
  }

  function TrimmedThreads(conversations: seq<Conversation>): set<string> {
    set i | 0 <= i < |conversations| :: Trim(conversations[i].thread)
  }

  lemma NoThreads()
    ensures ThreadsOk([]) && Threads([]) == {} && TrimmedThreads([]) == {}
  {
  }

  lemma ThreadsPush(conversations: seq<Conversation>, last: Conversation)
    ensures Threads(conversations + [last]) == Threads(conversations) + {last.thread}
    ensures TrimmedThreads(conversations + [last]) == TrimmedThreads(conversations) + {Trim(last.thread)}
  {
    hide Trim;
    var more := conversations + [last];
    assert more[|conversations|] == last;
    assert forall i :: 0 <= i < |conversations| ==> more[i] == conversations[i];
  }

  lemma ThreadsOkPush(conversations: seq<Conversation>, last: Conversation)
    requires ThreadsOk(conversations) && last.thread != "" && IsTrimmed(last.thread)
    requires last.thread !in Threads(conversations)
    ensures ThreadsOk(conversations + [last])
  {
    hide IsTrimmed;
    assert forall i :: 0 <= i < |conversations| ==> conversations[i].thread in Threads(conversations);
  }

  lemma SaneStep(conversations: seq<Conversation>)
    ensures conversations == [] ==> Sane(conversations) == []
    ensures conversations != [] ==>
              var n := |conversations| - 1;
              var rest, last := Sane(conversations[..n]), conversations[n].(thread := Trim(conversations[n].thread));
              Sane(conversations)
              == if last.thread != "" && last.thread !in Threads(rest) then rest + [last] else rest
  {
    hide Trim, Threads;
  }

  /** The thread ids that stay are those that say something. */
  lemma {:induction false} SaneIsOk(conversations: seq<Conversation>)
    ensures ThreadsOk(Sane(conversations))
    ensures Threads(Sane(conversations)) == TrimmedThreads(conversations) - {""}
  {
    hide Trim, IsTrimmed, ThreadsOk, Threads, TrimmedThreads, Sane;
    NoThreads();
    SaneStep(conversations);
    if conversations != [] {
      var n := |conversations| - 1;
      var rest, last := Sane(conversations[..n]), conversations[n].(thread := Trim(conversations[n].thread));
      SaneIsOk(conversations[..n]);
      TrimIsTrimmed(conversations[n].thread);
      assert conversations == conversations[..n] + [conversations[n]];
      ThreadsPush(conversations[..n], conversations[n]);
      ThreadsPush(rest, last);
      if last.thread != "" && last.thread !in Threads(rest) {
        ThreadsOkPush(rest, last);
      }
    }
  }

  lemma {:induction false} SaneKeeps(conversations: seq<Conversation>)
    requires ThreadsOk(conversations)
    ensures Sane(conversations) == conversations
  {
    hide Trim, IsTrimmed;
    if conversations != [] {
      var n := |conversations| - 1;
      var rest := conversations[..n];
      SaneKeeps(rest);
      TrimIsTrimmed(conversations[n].thread);
      assert forall i :: 0 <= i < n ==> rest[i] == conversations[i];
      assert conversations[n].thread !in Threads(rest);
      assert conversations == rest + [conversations[n]];
    }
  }

  lemma SameThreads(before: seq<Conversation>, conversations: seq<Conversation>)
    requires |before| == |conversations| && forall i :: 0 <= i < |before| ==>
             conversations[i].thread == before[i].thread
    ensures Threads(conversations) == Threads(before)
    ensures ThreadsOk(before) ==> ThreadsOk(conversations)
  {
  }

  /** Where the conversations of a workspace before version 4 go. */
  function Attached(conversation: Conversation, selected: Option<string>, front: Option<Tab>): Conversation {
    conversation.(
      detached := if front.Some? then front.value.profile else None,
      tab := if selected == Some(conversation.thread) && front.Some? then Some(front.value.id) else None)
  }

  // ----- Order of conversations

  /** The most recent conversation comes first, and among equals the earlier one. */
  predicate Before(c: seq<Conversation>, i: nat, j: nat)
    requires i < |c| && j < |c|
  {
    c[i].lastActivity > c[j].lastActivity || (c[i].lastActivity == c[j].lastActivity && i < j)
  }

  ghost predicate Sorted(c: seq<Conversation>, order: seq<nat>) {
    && (forall a :: 0 <= a < |order| ==> order[a] < |c|)
    && (forall a, b :: 0 <= a < b < |order| ==> Before(c, order[a], order[b]))
  }

  /** `order` with `k` after everything at least as recent. */
  function Insert(c: seq<Conversation>, order: seq<nat>, k: nat): (more: seq<nat>)
    requires k < |c| && Sorted(c, order) && forall a :: 0 <= a < |order| ==> order[a] < k
    ensures Sorted(c, more)
    ensures forall m: nat :: m in more <==> m in order || m == k
  {
    if order == [] then [k]
    else
      var rest, last := order[..|order| - 1], order[|order| - 1];
      if c[last].lastActivity >= c[k].lastActivity then order + [k]
      else
        var more := Insert(c, rest, k);
        assert order == rest + [last];
        InsertedBefore(c, order, more, k);
        more + [last]
  }

  lemma InsertedBefore(c: seq<Conversation>, order: seq<nat>, more: seq<nat>, k: nat)
    requires k < |c| && Sorted(c, order) && order != [] && Sorted(c, more)
    requires forall m: nat :: m in more <==> m in order[..|order| - 1] || m == k
    requires c[order[|order| - 1]].lastActivity < c[k].lastActivity
    ensures Sorted(c, more + [order[|order| - 1]])
  {
    var last := order[|order| - 1];
    assert forall a :: 0 <= a < |more| ==> more[a] in more;
    assert forall a :: 0 <= a < |order| - 1 ==> order[..|order| - 1][a] == order[a] && Before(c, order[a], last);
  }

  /** `sort_by_key` on the recent activity: it is stable. */
  function Order(c: seq<Conversation>, n: nat): (order: seq<nat>)
    requires n <= |c|
    ensures Sorted(c, order)
    ensures forall m: nat :: m in order <==> m < n
  {
    if n == 0 then []
    else
      var rest := Order(c, n - 1);
      assert forall a :: 0 <= a < |rest| ==> rest[a] in rest;
      Insert(c, rest, n - 1)
  }

  // ----- Links

  function FindTab(tabs: seq<Tab>, id: Id): (tab: Option<Tab>)
    ensures tab.Some? <==> TabExists(tabs, id)
    ensures tab.Some? ==> tab.value.id == id && tab.value in tabs
  {
    if tabs == [] then None
    else if tabs[0].id == id then Some(tabs[0])
    else
      assert forall i :: 0 <= i < |tabs[1..]| ==> tabs[1..][i] == tabs[i + 1];
      assert forall i :: 0 < i < |tabs| ==> tabs[1..][i - 1] == tabs[i];
      FindTab(tabs[1..], id)
  }

  /** Conversation `i` has a tab that exists, and is the most recent one with it. */
  ghost predicate Keeps(c: seq<Conversation>, tabs: seq<Tab>, i: nat)
    requires i < |c|
  {
    && c[i].tab.Some? && TabExists(tabs, c[i].tab.value)
    && forall j :: 0 <= j < |c| && j != i && c[j].tab == c[i].tab ==> Before(c, i, j)
  }

  /** Conversation `i` keeps its tab, or is detached and remembers the connection of its tab. */
  ghost function Linked(c: seq<Conversation>, tabs: seq<Tab>, i: nat): Conversation
    requires i < |c|
  {
    if c[i].tab.None? then c[i]
    else if Keeps(c, tabs, i) then c[i].(detached := None)
    else
      var tab := FindTab(tabs, c[i].tab.value);
      c[i].(tab := None, detached := if tab.Some? then tab.value.profile else c[i].detached)
  }

  function Known(conversation: Conversation, ids: set<Id>): Conversation {
    if conversation.detached.Some? && conversation.detached.value !in ids then conversation.(detached := None)
    else conversation
  }

  /** The tabs that the conversations of `order` claim. */
  ghost function Claimed(c: seq<Conversation>, tabs: seq<Tab>, order: seq<nat>): set<Id>
    requires forall a :: 0 <= a < |order| ==> order[a] < |c|
  {
    set a | 0 <= a < |order| && c[order[a]].tab.Some? && TabExists(tabs, c[order[a]].tab.value) :: c[order[a]].tab.value
  }

  /** A tab is free for a conversation in its turn exactly when the conversation is the most recent one with it. */
  lemma ClaimDecides(c: seq<Conversation>, tabs: seq<Tab>, k: nat)
    requires k < |Order(c, |c|)|
    ensures var i := Order(c, |c|)[k];
            c[i].tab.Some? && TabExists(tabs, c[i].tab.value) ==>
              (c[i].tab.value !in Claimed(c, tabs, Order(c, |c|)[..k]) <==> Keeps(c, tabs, i))
  {
    hide Order, TabExists;
    var order := Order(c, |c|);
    var i := order[k];
    if c[i].tab.Some? && TabExists(tabs, c[i].tab.value) {
      if c[i].tab.value in Claimed(c, tabs, order[..k]) {
        var a :| 0 <= a < k && c[order[..k][a]].tab == c[i].tab;
        assert Before(c, order[a], order[k]);
      } else {
        forall b | 0 <= b < k
          ensures c[order[b]].tab != c[i].tab
        {
          assert order[..k][b] == order[b];
        }
        forall j | 0 <= j < |c| && j != i && c[j].tab == c[i].tab
          ensures Before(c, i, j)
        {
          assert j in order;
          var b :| 0 <= b < |order| && order[b] == j;
        }
      }
    }
  }

  lemma NothingClaimed(c: seq<Conversation>, tabs: seq<Tab>, order: seq<nat>)
    requires order == []
    ensures Claimed(c, tabs, order) == {}
  {
  }

  lemma ClaimGrows(c: seq<Conversation>, tabs: seq<Tab>, order: seq<nat>, k: nat)
    requires Sorted(c, order) && k < |order|
    ensures var before, i := Claimed(c, tabs, order[..k]), order[k];
            Claimed(c, tabs, order[..k + 1]) ==
              if c[i].tab.Some? && TabExists(tabs, c[i].tab.value) then before + {c[i].tab.value} else before
  {
    hide TabExists;
    var less, more := order[..k], order[..k + 1];
    assert more[k] == order[k];
    assert forall a :: 0 <= a < k ==> more[a] == less[a];
  }

  lemma OrderIsDistinct(c: seq<Conversation>, order: seq<nat>)
    requires Sorted(c, order)
    ensures forall a, b :: 0 <= a < b < |order| ==> order[a] != order[b]
  {
  }

  lemma KeptExists(c: seq<Conversation>, tabs: seq<Tab>, i: nat)
    requires i < |c|
    ensures Keeps(c, tabs, i) ==> c[i].tab.Some? && TabExists(tabs, c[i].tab.value)
  {
  }

  lemma LinkedThreads(c: seq<Conversation>, tabs: seq<Tab>, ids: set<Id>, result: seq<Conversation>)
    requires |result| == |c| && forall i :: 0 <= i < |c| ==> result[i] == Known(Linked(c, tabs, i), ids)
    ensures forall i :: 0 <= i < |c| ==> result[i].thread == c[i].thread
  {
  }

  /** The links are consistent afterwards, and a consistent list stays as it is. */
  lemma LinkedIsOk(c: seq<Conversation>, tabs: seq<Tab>, ids: set<Id>, result: seq<Conversation>)
    requires |result| == |c| && forall i :: 0 <= i < |c| ==> result[i] == Known(Linked(c, tabs, i), ids)
    ensures LinksOk(result, tabs, ids)
    ensures LinksOk(c, tabs, ids) ==> result == c
  {
    hide TabExists;
    forall i | 0 <= i < |c|
      ensures LinkOk(result[i], tabs, ids)
      ensures result[i].tab.Some? <==> Keeps(c, tabs, i)
      ensures result[i].tab.Some? ==> result[i].tab == c[i].tab
    {
    }
    forall i, j | 0 <= i < j < |c| && result[i].tab.Some?
      ensures result[i].tab != result[j].tab
    {
      assert Keeps(c, tabs, i);
      assert result[j].tab.Some? ==> Keeps(c, tabs, j);
    }
    if LinksOk(c, tabs, ids) {
      forall i | 0 <= i < |c|
        ensures result[i] == c[i]
      {
        assert LinkOk(c[i], tabs, ids);
      }
    }
  }

  /** A tab that exists and had a conversation keeps one: its most recent. */
  lemma {:induction false} TabKeepsOne(c: seq<Conversation>, tabs: seq<Tab>, i: nat) returns (keeper: nat)
    requires i < |c| && c[i].tab.Some? && TabExists(tabs, c[i].tab.value)
    ensures keeper < |c| && c[keeper].tab == c[i].tab && Keeps(c, tabs, keeper)
    ensures keeper == i || Before(c, keeper, i)
  {
    hide TabExists;
    keeper := i;
    for j := 0 to |c|
      invariant keeper < |c| && c[keeper].tab == c[i].tab && (keeper == i || Before(c, keeper, i))
      invariant forall k :: 0 <= k < j && k != keeper && c[k].tab == c[i].tab ==> Before(c, keeper, k)
    {
      if j != keeper && c[j].tab == c[i].tab && Before(c, j, keeper) {
        keeper := j;
      }
    }
  }

  // ----- Shared catalogs

  function Cleared(profile: Profile, catalogs: seq<Catalog>): Profile {
    if profile.sharedCatalog.Some? && !CatalogExists(catalogs, profile.sharedCatalog.value)
    then profile.(sharedCatalog := None) else profile
  }

  /** The catalogs in use and the ids of the others. */
  function Retained(catalogs: seq<Catalog>, profiles: seq<Profile>): (seq<Catalog>, seq<Id>) {
    if catalogs == [] then ([], [])
    else
      var (kept, removed) := Retained(catalogs[..|catalogs| - 1], profiles);
      var last := catalogs[|catalogs| - 1];
      if IsUsed(profiles, last.id) then (kept + [last], removed) else (kept, removed + [last.id])
  }

  function Preferring(catalog: Catalog, profiles: seq<Profile>): Catalog {
    if catalog.preferred.Some? && !IsMember(profiles, catalog.preferred.value, catalog.id)
    then catalog.(preferred := None) else catalog
  }

  /** Exactly the catalogs that a connection uses stay. */
  lemma {:induction false} RetainedFacts(catalogs: seq<Catalog>, profiles: seq<Profile>)
    ensures var (kept, removed) := Retained(catalogs, profiles);
            && (forall i :: 0 <= i < |kept| ==> kept[i] in catalogs && IsUsed(profiles, kept[i].id))
            && (forall c :: c in catalogs && IsUsed(profiles, c.id) ==> c in kept)
            && (forall id :: id in removed <==> CatalogExists(catalogs, id) && !IsUsed(profiles, id))
            && ((forall i :: 0 <= i < |catalogs| ==> IsUsed(profiles, catalogs[i].id)) ==>
                kept == catalogs && removed == [])
  {
    hide IsUsed;
    if catalogs != [] {
      var n := |catalogs| - 1;
      var rest := catalogs[..n];
      RetainedFacts(rest, profiles);
      assert catalogs == rest + [catalogs[n]];
      assert forall i :: 0 <= i < n ==> rest[i] == catalogs[i];
      forall id
        ensures CatalogExists(catalogs, id) <==> CatalogExists(rest, id) || id == catalogs[n].id
      {
        if CatalogExists(rest, id) {
          var i :| 0 <= i < n && rest[i].id == id;
          assert catalogs[i].id == id;
        }
      }
    }
  }

  lemma ClearedFacts(profiles: seq<Profile>, catalogs: seq<Catalog>, cleared: seq<Profile>)
    requires |cleared| == |profiles| && forall i :: 0 <= i < |profiles| ==> cleared[i] == Cleared(profiles[i], catalogs)
    ensures ProfileIds(cleared) == ProfileIds(profiles)
    ensures CatalogsOk(profiles, catalogs) ==> cleared == profiles
  {
    hide CatalogExists;
    forall id
      ensures id in ProfileIds(cleared) <==> id in ProfileIds(profiles)
    {
      if id in ProfileIds(cleared) {
        var i :| 0 <= i < |cleared| && cleared[i].id == id;
        assert profiles[i] in profiles;
      }
      if id in ProfileIds(profiles) {
        var i :| 0 <= i < |profiles| && profiles[i].id == id;
        assert cleared[i] in cleared;
      }
    }
  }

  lemma PrunedIsOk(before: seq<Catalog>, profiles: seq<Profile>, catalogs: seq<Catalog>)
    requires forall i :: 0 <= i < |profiles| && profiles[i].sharedCatalog.Some? ==>
             CatalogExists(before, profiles[i].sharedCatalog.value)
    requires var kept := Retained(before, profiles).0;
             |catalogs| == |kept| && forall i :: 0 <= i < |kept| ==> catalogs[i] == Preferring(kept[i], profiles)
    ensures CatalogsOk(profiles, catalogs)
    ensures CatalogsOk(profiles, before) ==> catalogs == before && Retained(before, profiles).1 == []
  {
    hide Retained, IsMember;
    RetainedFacts(before, profiles);
    var kept := Retained(before, profiles).0;
    forall i | 0 <= i < |profiles| && profiles[i].sharedCatalog.Some?
      ensures CatalogExists(catalogs, profiles[i].sharedCatalog.value)
    {
      var id := profiles[i].sharedCatalog.value;
      var k :| 0 <= k < |before| && before[k].id == id;
      assert IsUsed(profiles, id) && before[k] in before;
      assert before[k] in kept;
      var m :| 0 <= m < |kept| && kept[m] == before[k];
      assert catalogs[m].id == id;
    }
    if CatalogsOk(profiles, before) {
      assert forall i :: 0 <= i < |before| ==> CatalogOk(before[i], profiles);
    }
  }
}
