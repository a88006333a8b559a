/** Repair of a loaded workspace, `Workspace::normalize` of src/model.rs. */
module WorkspaceRepair {
  import opened Chars
  import opened Options
  import opened Titles
  import opened Consistency
  import opened Repairs

  class Workspace {
    var version: nat
    var profiles: seq<Profile>
    var tabs: seq<Tab>
    var activeTab: nat
    var activeTabs: map<Id, Id>
    var conversations: seq<Conversation>
    /** The conversation that a workspace before version 4 showed. */
    var selectedThread: Option<string>
    var catalogs: seq<Catalog>
    var scope: SearchScope

    ghost predicate Consistent()
      reads this
    {
      var ids := ProfileIds(profiles);
      && TabsOwned(tabs, ids) && ActiveOk(tabs, ids, activeTab, activeTabs) && TitlesUnique(tabs)
      && ThreadsOk(conversations) && LinksOk(conversations, tabs, ids)
      && CatalogsOk(profiles, catalogs) && ScopeOk(scope, ids)
    }

    // ----- Owners of tabs

    /** Gives every tab a connection: its own when it exists, else the fallback. */
    method AssignOwners()
      modifies this`tabs
      ensures tabs == Assigned(old(tabs), ProfileIds(profiles), Fallback(old(tabs), profiles, activeTab))
    {
      hide Fallback, ProfileIds;
      var fallback := Fallback(tabs, profiles, activeTab);
      ghost var before := tabs;
      FallbackIsProper(tabs, profiles, activeTab);
      NoIds(profiles);
      for i := 0 to |tabs|
        invariant |tabs| == |before|
        invariant forall k :: 0 <= k < i ==>
                  tabs[k] == before[k].(profile := OwnerOf(before[k].profile, ProfileIds(profiles), fallback))
        invariant forall k :: i <= k < |tabs| ==> tabs[k] == before[k]
      {
        var tab := tabs[i];
        if tab.profile.None? && fallback.Some? {
          tab := tab.(profile := fallback);
        }
        if tab.profile.Some? && tab.profile.value !in ProfileIds(profiles) {
          tab := tab.(profile := fallback);
        }
        tabs := tabs[i := tab];
      }
    }

    /** Adds a tab for every connection that has none. `newId` makes its id. */
    method AddMissing(newId: nat -> Id)
      requires AllProper(tabs, ProfileIds(profiles))
      modifies this`tabs
      ensures TabsOwned(tabs, ProfileIds(profiles))
      ensures old(tabs) <= tabs && Firsts(tabs, |old(tabs)|)
      ensures forall i :: |old(tabs)| <= i < |tabs| ==> tabs[i].title == "Query 1"
      ensures old(TabsOwned(tabs, ProfileIds(profiles))) ==> tabs == old(tabs)
    {
      hide AllProper, HasOwner;
      ghost var before, ids := tabs, ProfileIds(profiles);
      for k := 0 to |profiles|
        invariant before <= tabs && AllProper(tabs, ids) && Firsts(tabs, |before|)
        invariant forall i :: |before| <= i < |tabs| ==> tabs[i].title == "Query 1"
        invariant forall j :: 0 <= j < k ==> HasOwner(tabs, profiles[j].id)
        invariant TabsOwned(before, ids) ==> tabs == before
      {
        var id := profiles[k].id;
        assert profiles[k] in profiles && id in ids;
        if !HasOwner(tabs, id) {
          var tab := Tab(newId(k), "Query 1", Some(id));
          AddOne(tabs, ids, tab, |before|);
          NowOwned(tabs, tab, id);
          forall j | 0 <= j < k
            ensures HasOwner(tabs + [tab], profiles[j].id)
          {
            HasOwnerGrows(tabs, tabs + [tab], profiles[j].id);
          }
          tabs := tabs + [tab];
        }
      }
      AllOwned(tabs, profiles);
      if TabsOwned(before, ids) {
        assert tabs == before;
      }
    }

    /** Every connection owns a tab afterwards; no tab that has an existing
        connection changes it, and a new tab is the only one of its connection. */
    method OwnTabs(newId: nat -> Id)
      modifies this`tabs
      ensures TabsOwned(tabs, ProfileIds(profiles))
      ensures Assigned(old(tabs), ProfileIds(profiles), Fallback(old(tabs), profiles, activeTab)) <= tabs
      ensures Firsts(tabs, |old(tabs)|) && forall i :: |old(tabs)| <= i < |tabs| ==> tabs[i].title == "Query 1"
      ensures old(TabsOwned(tabs, ProfileIds(profiles))) ==> tabs == old(tabs)
    {
      hide Fallback, ProfileIds, Assigned, AllProper, AllHaveTab, Firsts;
      FallbackIsProper(tabs, profiles, activeTab);
      AssignedFacts(tabs, ProfileIds(profiles), Fallback(tabs, profiles, activeTab));
      AssignOwners();
      AddMissing(newId);
    }

    // ----- Active tabs

    method ActivateTabs()
      requires TabsOwned(tabs, ProfileIds(profiles))
      modifies this`activeTab, this`activeTabs
      ensures ActiveOk(tabs, ProfileIds(profiles), activeTab, activeTabs)
      ensures activeTab == Clamp(old(activeTab), |tabs|)
      ensures AreActive(tabs, ProfileIds(profiles), activeTab, old(activeTabs), activeTabs)
      ensures old(ActiveOk(tabs, ProfileIds(profiles), activeTab, activeTabs)) ==>
                activeTab == old(activeTab) && activeTabs == old(activeTabs)
    {
      hide ProfileIds, HasTab, AllProper, HasOwner, ActiveOk, Clamp, FirstTab;
      ghost var before, ids := activeTabs, ProfileIds(profiles);
      ghost var at := activeTab;
      activeTab := Clamp(activeTab, |tabs|);
      activeTabs := map p | p in activeTabs && p in ProfileIds(profiles)
          && HasTab(tabs, activeTabs[p], p) :: activeTabs[p];
      for k := 0 to |profiles|
        invariant activeTab == Clamp(at, |tabs|)
        invariant activeTabs.Keys <= ids
        invariant forall j :: 0 <= j < k ==> profiles[j].id in activeTabs
        invariant forall p :: p in activeTabs ==> ActiveOf(tabs, None, before, p) == Some(activeTabs[p])
        invariant forall p :: p in before && p in ids && HasTab(tabs, before[p], p) ==> p in activeTabs
      {
        var id := profiles[k].id;
        IdOfProfile(profiles, k);
        var first := FirstTab(tabs, id);
        if first.Some? && id !in activeTabs {
          activeTabs := activeTabs[id := first.value];
        }
      }
      AllIdsIn(profiles, activeTabs.Keys);
      var front := Front(tabs, activeTab);
      NoIds(profiles);
      if profiles != [] {
        FrontExists(tabs, profiles, at);
      }
      if front.Some? {
        FrontIsProper(tabs, ids, activeTab);
        activeTabs := activeTabs[front.value.0 := front.value.1];
      } else if profiles != [] {
        // Every tab has a connection when there is one, and the tab in front exists.
        assert false;
      }
      ActiveFacts(tabs, ids, at, before, activeTabs);
    }

    // ----- Titles

    /** Every title is trimmed and unique within its connection; nothing else about tabs changes. */
    method UniqueTitles()
      modifies this`tabs
      ensures Retitled(old(tabs), tabs)
      ensures TitlesUnique(tabs) && (HasRoom(|tabs|) ==> AllTidy(tabs))
      ensures old(TitlesUnique(tabs) && AllTidy(tabs)) ==> tabs == old(tabs)
    {
      hide Tidy, IsUnique, TitlesOf, HasRoom;
      ghost var before := tabs;
      var used: map<Option<Id>, set<string>> := map[];
      NoTitles();
      assert tabs[..0] == [];
      for i := 0 to |tabs|
        invariant |tabs| == |before|
        invariant forall k :: 0 <= k < i ==> TitleOk(before, tabs, k)
        invariant forall k :: i <= k < |tabs| ==> tabs[k] == before[k]
        invariant forall p :: p in used ==> used[p] == TitlesOf(tabs[..i], p)
        invariant forall p :: p !in used ==> TitlesOf(tabs[..i], p) == {}
      {
        var profile := tabs[i].profile;
        var taken := if profile in used then used[profile] else {};
        var title := UniqueTabTitle(Tidy(tabs[i].title), taken);
        ghost var was := tabs;
        tabs := tabs[i := tabs[i].(title := title)];
        used := used[profile := taken + {title}];
        TitlesPush(was, tabs, i);
        forall k | 0 <= k <= i
          ensures TitleOk(before, tabs, k)
        {
          assert tabs[..k] == was[..k];
          assert k < i ==> TitleOk(before, was, k);
        }
      }
      RetitledIsUnique(before, tabs);
      if HasRoom(|tabs|) {
        RetitledIsTidy(before, tabs);
      }
      if TitlesUnique(before) && AllTidy(before) {
        RetitledKeeps(before, tabs, |tabs|);
        assert tabs[..|tabs|] == tabs && before[..|tabs|] == before;
      }
    }

    method RepairTabs(newId: nat -> Id)
      modifies this`tabs, this`activeTab, this`activeTabs
      ensures TabsOwned(tabs, ProfileIds(profiles)) && ActiveOk(tabs, ProfileIds(profiles), activeTab, activeTabs)
      ensures TitlesUnique(tabs) && TabsAre(old(tabs), profiles, old(activeTab), tabs)
      ensures ActiveAre(tabs, profiles, old(activeTab), old(activeTabs), activeTab, activeTabs)
      ensures |old(tabs)| <= |tabs| && forall i :: 0 <= i < |old(tabs)| ==> tabs[i].id == old(tabs)[i].id
      ensures HasRoom(|tabs|) ==> AllTidy(tabs)
      ensures old(TabsOwned(tabs, ProfileIds(profiles)))
              && old(ActiveOk(tabs, ProfileIds(profiles), activeTab, activeTabs)) ==>
                activeTab == old(activeTab) && activeTabs == old(activeTabs) && Retitled(old(tabs), tabs)
      ensures old(TabsOwned(tabs, ProfileIds(profiles)) && TitlesUnique(tabs) && AllTidy(tabs)) ==> tabs == old(tabs)
    {
      hide ProfileIds, TabsOwned, ActiveOk, TitlesUnique, Fallback, Assigned;
      hide Firsts, Clamp, AreActive, Retitled, AllTidy, HasRoom, TabsAre, ActiveAre;
      ghost var was, ids := tabs, ProfileIds(profiles);
      ghost var front, active := activeTab, activeTabs;
      OwnTabs(newId);
      AssignedIds(was, ids, Fallback(was, profiles, activeTab), tabs);
      ActivateTabs();
      ghost var owned := tabs;
      ActiveAreRepaired(owned, profiles, front, active, activeTabs);
      UniqueTitles();
      TabsAreRepaired(was, profiles, front, owned, tabs);
      TitlesDoNotMatter(owned, tabs);
      ActiveFollow(owned, tabs, profiles, front, active, activeTab, activeTabs);
      OwnersFollow(owned, tabs, ids, activeTab, activeTabs);
    }

    // ----- Conversations

    method SanitizeThreads()
      modifies this`conversations
      ensures conversations == Sane(old(conversations)) && ThreadsOk(conversations)
      ensures Threads(conversations) == TrimmedThreads(old(conversations)) - {""}
      ensures old(ThreadsOk(conversations)) ==> conversations == old(conversations)
    {
      hide Trim, ThreadsOk, Sane, Threads, TrimmedThreads;
      ghost var before := conversations;
      SaneStep(before[..0]);
      var kept: seq<Conversation> := [];
      var threads: set<string> := {};
      NoThreads();
      for i := 0 to |conversations|
        invariant conversations == before
        invariant kept == Sane(before[..i]) && threads == Threads(kept)
      {
        assert before[..i + 1][..i] == before[..i];
        SaneStep(before[..i + 1]);
        var conversation := conversations[i].(thread := Trim(conversations[i].thread));
        if conversation.thread != "" && conversation.thread !in threads {
          ThreadsPush(kept, conversation);
          threads := threads + {conversation.thread};
          kept := kept + [conversation];
        }
      }
      assert before[..|before|] == before;
      conversations := kept;
      SaneIsOk(before);
      if ThreadsOk(before) {
        SaneKeeps(before);
      }
    }

    /** A workspace before version 4 showed one conversation beside the tab in front. */
    method AttachSelected(selected: Option<string>)
      modifies this`conversations
      ensures |conversations| == |old(conversations)|
      ensures forall i :: 0 <= i < |conversations| ==>
                var tab := if activeTab < |tabs| then Some(tabs[activeTab]) else None;
                conversations[i] == Attached(old(conversations)[i], selected, tab)
    {
      var tab := if activeTab < |tabs| then Some(tabs[activeTab]) else None;
      ghost var before := conversations;
      for i := 0 to |conversations|
        invariant |conversations| == |before|
        invariant forall k :: 0 <= k < i ==> conversations[k] == Attached(before[k], selected, tab)
        invariant forall k :: i <= k < |before| ==> conversations[k] == before[k]
      {
        var conversation := conversations[i].(detached := if tab.Some? then tab.value.profile else None, tab := None);
        if selected == Some(conversation.thread) && tab.Some? {
          conversation := conversation.(tab := Some(tab.value.id));
        }
        conversations := conversations[i := conversation];
      }
    }

    /** Gives the tabs to their most recent conversations, in the order of activity. */
    method ClaimTabs()
      modifies this`conversations
      ensures |conversations| == |old(conversations)|
      ensures forall i :: 0 <= i < |conversations| ==> conversations[i] == Linked(old(conversations), tabs, i)
    {
      hide Order, TabExists, Keeps, Claimed;
      ghost var c := conversations;
      var order := Order(conversations, |conversations|);
      var claimed: set<Id> := {};
      assert Claimed(c, tabs, order[..0]) == {} by {
        NothingClaimed(c, tabs, order[..0]);
      }
      for k := 0 to |order|
        invariant |conversations| == |c|
        invariant forall m :: 0 <= m < k ==> conversations[order[m]] == Linked(c, tabs, order[m])
        invariant forall m :: k <= m < |order| ==> conversations[order[m]] == c[order[m]]
        invariant claimed == Claimed(c, tabs, order[..k])
      {
        var i := order[k];
        ClaimDecides(c, tabs, k);
        ClaimGrows(c, tabs, order, k);
        OrderIsDistinct(c, order);
        KeptExists(c, tabs, i);
        if conversations[i].tab.Some? {
          var tab := FindTab(tabs, conversations[i].tab.value);
          if tab.Some? && conversations[i].tab.value !in claimed {
            claimed := claimed + {conversations[i].tab.value};
            conversations := conversations[i := conversations[i].(detached := None)];
          } else {
            conversations := conversations[i := conversations[i].(tab := None)];
            if tab.Some? {
              conversations := conversations[i := conversations[i].(detached := tab.value.profile)];
            }
          }
        }
      }
      forall i | 0 <= i < |conversations|
        ensures conversations[i] == Linked(c, tabs, i)
      {
        assert i in order;
      }
    }

    /** At most one conversation has a tab, the most recent one; all links lead to what exists. */
    method LinkTabs()
      modifies this`conversations
      ensures LinksOk(conversations, tabs, ProfileIds(profiles))
      ensures |conversations| == |old(conversations)|
      ensures forall i :: 0 <= i < |conversations| ==>
                conversations[i] == Known(Linked(old(conversations), tabs, i), ProfileIds(profiles))
      ensures old(LinksOk(conversations, tabs, ProfileIds(profiles))) ==> conversations == old(conversations)
    {
      hide Linked, LinksOk, ProfileIds;
      ghost var c := conversations;
      ClaimTabs();
      ghost var claimed := conversations;
      for i := 0 to |conversations|
        invariant |conversations| == |c|
        invariant forall k :: 0 <= k < i ==> conversations[k] == Known(claimed[k], ProfileIds(profiles))
        invariant forall k :: i <= k < |c| ==> conversations[k] == claimed[k]
      {
        var conversation := conversations[i];
        if conversation.detached.Some? && conversation.detached.value !in ProfileIds(profiles) {
          conversations := conversations[i := conversation.(detached := None)];
        }
      }
      LinkedIsOk(c, tabs, ProfileIds(profiles), conversations);
    }

    /** Conversations are repaired after tabs. */
    method RepairConversations()
      modifies this`conversations, this`selectedThread
      ensures ThreadsOk(conversations) && LinksOk(conversations, tabs, ProfileIds(profiles)) && selectedThread.None?
      ensures Threads(conversations) == TrimmedThreads(old(conversations)) - {""}
      ensures ConversationsAre(old(conversations), version, old(selectedThread), tabs, activeTab, profiles,
                               conversations)
      ensures old(version >= 4 && ThreadsOk(conversations) && LinksOk(conversations, tabs, ProfileIds(profiles))) ==>
                conversations == old(conversations)
    {
      hide ThreadsOk, LinksOk, ProfileIds, Sane, Threads, TrimmedThreads, Trim, Linked, Known, ConversationsAre;
      ghost var before, legacy := conversations, selectedThread;
      SanitizeThreads();
      var selected := if selectedThread.Some? then Some(Trim(selectedThread.value)) else None;
      selectedThread := None;
      if version < 4 {
        ghost var sane := conversations;
        AttachSelected(selected);
        SameThreads(sane, conversations);
      }
      ghost var attached := conversations;
      LinkTabs();
      LinkedThreads(attached, tabs, ProfileIds(profiles), conversations);
      SameThreads(attached, conversations);
      ConversationsAreRepaired(before, version, legacy, tabs, activeTab, profiles, attached, conversations);
    }

    // ----- Shared catalogs

    method ClearMissing()
      modifies this`profiles
      ensures |profiles| == |old(profiles)|
      ensures forall i :: 0 <= i < |profiles| ==> profiles[i] == Cleared(old(profiles)[i], catalogs)
    {
      hide CatalogExists;
      ghost var before := profiles;
      for i := 0 to |profiles|
        invariant |profiles| == |before|
        invariant forall k :: 0 <= k < i ==> profiles[k] == Cleared(before[k], catalogs)
        invariant forall k :: i <= k < |before| ==> profiles[k] == before[k]
      {
        var profile := profiles[i];
        if profile.sharedCatalog.Some? && !CatalogExists(catalogs, profile.sharedCatalog.value) {
          profiles := profiles[i := profile.(sharedCatalog := None)];
        }
      }
    }

    method RetainUsed() returns (removed: seq<Id>)
      modifies this`catalogs
      ensures (catalogs, removed) == Retained(old(catalogs), profiles)
    {
      hide IsUsed;
      ghost var before := catalogs;
      var kept: seq<Catalog> := [];
      removed := [];
      for i := 0 to |catalogs|
        invariant catalogs == before
        invariant (kept, removed) == Retained(before[..i], profiles)
      {
        assert before[..i + 1][..i] == before[..i];
        if IsUsed(profiles, catalogs[i].id) {
          kept := kept + [catalogs[i]];
        } else {
          removed := removed + [catalogs[i].id];
        }
      }
      assert before[..|before|] == before;
      catalogs := kept;
    }

    method ClearPreferred()
      modifies this`catalogs
      ensures |catalogs| == |old(catalogs)|
      ensures forall i :: 0 <= i < |catalogs| ==> catalogs[i] == Preferring(old(catalogs)[i], profiles)
    {
      hide IsMember;
      ghost var before := catalogs;
      for i := 0 to |catalogs|
        invariant |catalogs| == |before|
        invariant forall k :: 0 <= k < i ==> catalogs[k] == Preferring(before[k], profiles)
        invariant forall k :: i <= k < |before| ==> catalogs[k] == before[k]
      {
        var catalog := catalogs[i];
        if catalog.preferred.Some? && !IsMember(profiles, catalog.preferred.value, catalog.id) {
          catalogs := catalogs[i := catalog.(preferred := None)];
        }
      }
    }

    /** Exactly the catalogs without a member go; `removed` names them. */
    method PruneSharedCatalogs() returns (removed: seq<Id>)
      modifies this`profiles, this`catalogs
      ensures CatalogsOk(profiles, catalogs)
      ensures ProfileIds(profiles) == old(ProfileIds(profiles))
      ensures ProfilesAre(old(profiles), old(catalogs), profiles) && CatalogsAre(old(catalogs), profiles, catalogs)
      ensures forall id :: id in removed <==> old(CatalogExists(catalogs, id)) && !IsUsed(profiles, id)
      ensures old(CatalogsOk(profiles, catalogs)) ==>
                profiles == old(profiles) && catalogs == old(catalogs) && removed == []
    {
      hide Retained, CatalogsOk, IsUsed, ProfileIds, Preferring, CatalogsAre;
      ghost var before, owners := catalogs, profiles;
      ClearMissing();
      ClearedFacts(owners, before, profiles);
      removed := RetainUsed();
      ClearPreferred();
      RetainedFacts(before, profiles);
      PrunedIsOk(before, profiles, catalogs);
      ProfilesAreRepaired(owners, before, profiles);
      CatalogsAreRepaired(before, profiles, catalogs);
    }

    method SanitizeScope()
      modifies this`scope
      ensures ScopeOk(scope, ProfileIds(profiles))
      ensures scope == if old(scope).Connections? && old(scope).ids * ProfileIds(profiles) != {}
                       then Connections(old(scope).ids * ProfileIds(profiles))
                       else if old(scope).Connections? then All else old(scope)
      ensures old(ScopeOk(scope, ProfileIds(profiles))) ==> scope == old(scope)
    {
      hide ProfileIds;
      if scope.Connections? {
        var ids := set id | id in scope.ids && id in ProfileIds(profiles);
        assert ids == scope.ids * ProfileIds(profiles);
        scope := if ids == {} then All else Connections(ids);
      }
    }

    // ----- The whole repair

    /** Whatever the workspace holds, it is consistent afterwards, its titles are tidy, and only
        what was wrong has changed; a second run changes nothing of who owns what, and no title
        that is tidy. */
    method Normalize(newId: nat -> Id)
      modifies this
      ensures Consistent() && version == WORKSPACE_VERSION && selectedThread.None?
      ensures ProfileIds(profiles) == old(ProfileIds(profiles))
      ensures TabsAre(old(tabs), old(profiles), old(activeTab), tabs)
      ensures ActiveAre(tabs, old(profiles), old(activeTab), old(activeTabs), activeTab, activeTabs)
      ensures ConversationsAre(old(conversations), old(version), old(selectedThread), tabs, activeTab, old(profiles),
                               conversations)
      ensures ProfilesAre(old(profiles), old(catalogs), profiles) && CatalogsAre(old(catalogs), profiles, catalogs)
      ensures scope == if old(scope).Connections? && old(scope).ids * ProfileIds(profiles) != {}
                       then Connections(old(scope).ids * ProfileIds(profiles))
                       else if old(scope).Connections? then All else old(scope)
      ensures HasRoom(|tabs|) ==> AllTidy(tabs)
      ensures Threads(conversations) == TrimmedThreads(old(conversations)) - {""}
      ensures old(Consistent() && version >= 4) ==>
                && profiles == old(profiles) && catalogs == old(catalogs) && scope == old(scope)
                && activeTab == old(activeTab) && activeTabs == old(activeTabs) && conversations == old(conversations)
                && Retitled(old(tabs), tabs)
      ensures old(Consistent() && version >= 4 && AllTidy(tabs)) ==> tabs == old(tabs)
    {
      hide ProfileIds, TabsOwned, ActiveOk, TitlesUnique, ThreadsOk, LinksOk, CatalogsOk, ScopeOk;
      hide Retitled, AllTidy, HasRoom, Threads, TrimmedThreads, CatalogExists, IsUsed;
      hide TabsAre, ActiveAre, ConversationsAre, ProfilesAre, CatalogsAre;
      ghost var was, said, ids := tabs, conversations, ProfileIds(profiles);
      RepairTabs(newId);
      if Retitled(was, tabs) && LinksOk(said, was, ids) {
        TitlesDoNotMatter(was, tabs);
        LinksFollow(was, tabs, ids, said);
      }
      RepairConversations();
      var removed := PruneSharedCatalogs();
      SanitizeScope();
      version := WORKSPACE_VERSION;
    }
  }
}
