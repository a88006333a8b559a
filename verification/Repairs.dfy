/** What the repair of a workspace leaves, entry by entry: `Workspace::normalize` of
    src/model.rs, from the side of the workspace before and after it. */
module Repairs {
  import opened Chars
  import opened Options
  import opened Titles
  import opened Consistency

  predicate IsConnection(profiles: seq<Profile>, id: Id) { exists i :: 0 <= i < |profiles| && profiles[i].id == id }

  lemma ConnectionsAre(profiles: seq<Profile>)
    ensures forall id :: IsConnection(profiles, id) <==> id in ProfileIds(profiles)
  {
    forall id
      ensures IsConnection(profiles, id) <==> id in ProfileIds(profiles)
    {
      if id in ProfileIds(profiles) {
        var p :| p in profiles && p.id == id;
      }
    }
  }

  // ----- Tabs

  /** A connection that exists stays; else the one in front takes the tab, or else the first. */
  predicate OwnerIs(tabs: seq<Tab>, profiles: seq<Profile>, activeTab: nat, owner: Option<Id>, now: Option<Id>) {
    if owner.Some? && IsConnection(profiles, owner.value) then now == owner
    else if activeTab < |tabs| && tabs[activeTab].profile.Some? && IsConnection(profiles, tabs[activeTab].profile.value)
    then now == tabs[activeTab].profile
    else if profiles != [] then now == Some(profiles[0].id)
    else now == None
  }

  ghost predicate IsTaken(tabs: seq<Tab>, i: nat, title: string)
    requires i < |tabs|
  {
    exists j :: 0 <= j < i && tabs[j].profile == tabs[i].profile && tabs[j].title == title
  }

  function Wanted(title: string): string { if IsBlank(title) then "Query 1" else Trim(title) }

  /** A tab has the title that it wants, unless an earlier tab of its connection has that:
      then it has the first of the copy titles that none has. */
  ghost predicate HasTitle(tabs: seq<Tab>, i: nat, wanted: string)
    requires i < |tabs|
  {
    if !IsTaken(tabs, i, wanted) then tabs[i].title == wanted
    else !IsTaken(tabs, i, tabs[i].title) && exists copy :: IsCopy(tabs, i, wanted, copy)
  }

  ghost predicate IsCopy(tabs: seq<Tab>, i: nat, wanted: string, copy: nat)
    requires i < |tabs|
  {
    && copy >= 1 && tabs[i].title == Candidate(TabCopy, wanted, 60, copy)
    && forall k :: 1 <= k < copy ==> IsTaken(tabs, i, Candidate(TabCopy, wanted, 60, k))
  }

  /** The tabs that were there keep their place, and a connection without a tab gets one. */
  ghost predicate TabsAre(before: seq<Tab>, profiles: seq<Profile>, activeTab: nat, tabs: seq<Tab>) {
    && |before| <= |tabs|
    && (forall i :: 0 <= i < |before| ==>
          && tabs[i].id == before[i].id && HasTitle(tabs, i, Wanted(before[i].title))
          && OwnerIs(before, profiles, activeTab, before[i].profile, tabs[i].profile))
    && (forall i :: |before| <= i < |tabs| ==> IsNewTab(tabs, i))
  }

  ghost predicate IsNewTab(tabs: seq<Tab>, i: nat)
    requires i < |tabs|
  {
    && tabs[i].profile.Some? && tabs[i].title == "Query 1"
    && forall j :: 0 <= j < |tabs| && j != i ==> tabs[j].profile != tabs[i].profile
  }

  lemma {:induction false} TrimStartBlank(text: string)
    ensures TrimStart(text) == "" <==> IsBlank(text)
  {
    if text != "" {
      if IsWhitespace(text[0]) {
        TrimStartBlank(text[1..]);
        assert forall i :: 0 < i < |text| ==> text[i] == text[1..][i - 1];
      }
    }
  }

  lemma {:induction false} TrimEndBlank(text: string)
    requires text != "" && !IsWhitespace(text[0])
    ensures TrimEnd(text) != ""
  {
    if IsWhitespace(text[|text| - 1]) {
      TrimEndBlank(text[..|text| - 1]);
    }
  }

  lemma TidyIs(title: string)
    ensures Tidy(title) == Wanted(title)
  {
    TrimStartBlank(title);
    TrimStartFacts(title);
    if !IsBlank(title) {
      TrimEndBlank(TrimStart(title));
    }
  }

  lemma TakenIs(tabs: seq<Tab>, i: nat, title: string)
    requires i < |tabs|
    ensures IsTaken(tabs, i, title) <==> title in TitlesOf(tabs[..i], tabs[i].profile)
  {
  }

  lemma TitleIsOk(before: seq<Tab>, tabs: seq<Tab>, i: nat)
    requires i < |tabs| <= |before| && TitleOk(before, tabs, i)
    ensures HasTitle(tabs, i, Wanted(before[i].title))
  {
    hide Candidate, TitlesOf, Tidy, IsTaken, Wanted, IsFirstFree, IsCopy;
    TidyIs(before[i].title);
    assert tabs[i].profile == before[i].profile;
    var wanted, used := Wanted(before[i].title), TitlesOf(tabs[..i], tabs[i].profile);
    TakenIs(tabs, i, wanted);
    TakenIs(tabs, i, tabs[i].title);
    if wanted in used {
      var copy :| IsFirstFree(TabCopy, wanted, MAX_TAB_TITLE, used, copy)
                  && tabs[i].title == Candidate(TabCopy, wanted, MAX_TAB_TITLE, copy);
      CopyIsFirst(tabs, i, wanted, copy);
    }
  }

  lemma CopyIsFirst(tabs: seq<Tab>, i: nat, wanted: string, copy: nat)
    requires i < |tabs| && IsFirstFree(TabCopy, wanted, MAX_TAB_TITLE, TitlesOf(tabs[..i], tabs[i].profile), copy)
    requires tabs[i].title == Candidate(TabCopy, wanted, MAX_TAB_TITLE, copy)
    ensures IsCopy(tabs, i, wanted, copy) && tabs[i].title !in TitlesOf(tabs[..i], tabs[i].profile)
  {
    hide Candidate, TitlesOf, IsTaken;
    forall k | 1 <= k < copy
      ensures IsTaken(tabs, i, Candidate(TabCopy, wanted, 60, k))
    {
      TakenIs(tabs, i, Candidate(TabCopy, wanted, 60, k));
    }
  }

  lemma OwnerIsOne(tabs: seq<Tab>, profiles: seq<Profile>, activeTab: nat, owner: Option<Id>)
    ensures OwnerIs(tabs, profiles, activeTab, owner,
                OwnerOf(owner, ProfileIds(profiles), Fallback(tabs, profiles, activeTab)))
  {
    ConnectionsAre(profiles);
  }

  lemma TabsAreRepaired(before: seq<Tab>, profiles: seq<Profile>, activeTab: nat, owned: seq<Tab>, tabs: seq<Tab>)
    requires Assigned(before, ProfileIds(profiles), Fallback(before, profiles, activeTab)) <= owned
    requires Firsts(owned, |before|) && forall i :: |before| <= i < |owned| ==> owned[i].title == "Query 1"
    requires Retitled(owned, tabs)
    ensures TabsAre(before, profiles, activeTab, tabs)
  {
    hide TitleOk, OwnerIs, OwnerOf, Fallback, HasTitle, Wanted, HasOwner, Firsts;
    TitlesDoNotMatter(owned, tabs);
    ghost var at := Assigned(before, ProfileIds(profiles), Fallback(before, profiles, activeTab));
    forall i | 0 <= i < |before|
      ensures tabs[i].id == before[i].id && HasTitle(tabs, i, Wanted(before[i].title))
      ensures OwnerIs(before, profiles, activeTab, before[i].profile, tabs[i].profile)
    {
      assert owned[i] == at[i];
      TitleIsOk(owned, tabs, i);
      OwnerIsOne(before, profiles, activeTab, before[i].profile);
    }
    forall i | |before| <= i < |tabs|
      ensures IsNewTab(tabs, i)
    {
      TitleIsOk(owned, tabs, i);
      NewTabIs(owned, tabs, |before|, i);
    }
  }

  lemma NewTabIs(owned: seq<Tab>, tabs: seq<Tab>, from: nat, i: nat)
    requires |tabs| == |owned| && from <= i < |tabs| && Firsts(owned, from)
    requires owned[i].title == "Query 1" && HasTitle(tabs, i, Wanted(owned[i].title))
    requires forall i :: 0 <= i < |tabs| ==> tabs[i].profile == owned[i].profile
    ensures IsNewTab(tabs, i)
  {
    QueryIsTidy();
    forall j | 0 <= j < |tabs| && j != i
      ensures tabs[j].profile != tabs[i].profile
    {
      var low, high := if j < i then j else i, if j < i then i else j;
      assert owned[..high][low] == owned[low];
    }
    assert !IsTaken(tabs, i, "Query 1");
  }

  lemma QueryIsTidy()
    ensures !IsBlank("Query 1") && Trim("Query 1") == "Query 1"
  {
    assert "Query 1"[0] == 'Q' && "Query 1"[6] == '1';
    TrimIsTrimmed("Query 1");
  }

  // ----- Active tabs

  /** The tab in front is active for its connection. Another connection keeps its active tab
      when it owns that, or else its first tab is active. */
  ghost predicate ActiveIs(tabs: seq<Tab>, activeTab: nat, before: map<Id, Id>, p: Id, tab: Id) {
    if activeTab < |tabs| && tabs[activeTab].profile == Some(p) then tab == tabs[activeTab].id
    else if p in before && OwnsTab(tabs, before[p], p) then tab == before[p]
    else exists i :: 0 <= i < |tabs| && tabs[i] == Tab(tab, tabs[i].title, Some(p)) && IsFirstOf(tabs, i, p)
  }

  ghost predicate OwnsTab(tabs: seq<Tab>, id: Id, owner: Id) {
    exists i :: 0 <= i < |tabs| && tabs[i].id == id && tabs[i].profile == Some(owner)
  }

  ghost predicate IsFirstOf(tabs: seq<Tab>, i: nat, owner: Id)
    requires i < |tabs|
  {
    forall j :: 0 <= j < i ==> tabs[j].profile != Some(owner)
  }

  /** The tab in front stays, or is the last when it was beyond the end. */
  ghost predicate ActiveAre(tabs: seq<Tab>, profiles: seq<Profile>, front: nat, before: map<Id, Id>, activeTab: nat,
                            activeTabs: map<Id, Id>) {
    && activeTab == (if front < |tabs| then front else if tabs == [] then 0 else |tabs| - 1)
    && (forall p :: p in activeTabs <==> IsConnection(profiles, p))
    && (forall p :: p in activeTabs ==> ActiveIs(tabs, activeTab, before, p, activeTabs[p]))
  }

  lemma {:induction false} FirstTabIs(tabs: seq<Tab>, owner: Id)
    requires FirstTab(tabs, owner).Some?
    ensures exists i :: 0 <= i < |tabs| && tabs[i].profile == Some(owner) && IsFirstOf(tabs, i, owner)
                        && tabs[i].id == FirstTab(tabs, owner).value
  {
    if tabs[0].profile != Some(owner) {
      FirstTabIs(tabs[1..], owner);
      var i :| 0 <= i < |tabs| - 1 && tabs[1..][i].profile == Some(owner) && IsFirstOf(tabs[1..], i, owner)
               && tabs[1..][i].id == FirstTab(tabs[1..], owner).value;
      assert forall j :: 0 < j < |tabs| ==> tabs[j] == tabs[1..][j - 1];
      assert tabs[i + 1].profile == Some(owner) && IsFirstOf(tabs, i + 1, owner);
    } else {
      assert IsFirstOf(tabs, 0, owner);
    }
  }

  lemma ActiveAreRepaired(tabs: seq<Tab>, profiles: seq<Profile>, front: nat, before: map<Id, Id>,
                          activeTabs: map<Id, Id>)
    requires AreActive(tabs, ProfileIds(profiles), Clamp(front, |tabs|), before, activeTabs)
    ensures ActiveAre(tabs, profiles, front, before, Clamp(front, |tabs|), activeTabs)
  {
    hide FirstTab, IsConnection;
    ConnectionsAre(profiles);
    var activeTab := Clamp(front, |tabs|);
    forall p | p in activeTabs
      ensures ActiveIs(tabs, activeTab, before, p, activeTabs[p])
    {
      assert ActiveOf(tabs, Front(tabs, activeTab), before, p) == Some(activeTabs[p]);
      if FirstTab(tabs, p).Some? {
        FirstTabIs(tabs, p);
      }
    }
  }

  /** Titles play no part in it. */
  lemma ActiveFollow(before: seq<Tab>, tabs: seq<Tab>, profiles: seq<Profile>, front: nat, was: map<Id, Id>,
                     activeTab: nat, activeTabs: map<Id, Id>)
    requires |tabs| == |before|
    requires forall i :: 0 <= i < |tabs| ==> tabs[i].id == before[i].id && tabs[i].profile == before[i].profile
    requires ActiveAre(before, profiles, front, was, activeTab, activeTabs)
    ensures ActiveAre(tabs, profiles, front, was, activeTab, activeTabs)
  {
    hide IsConnection;
    forall p | p in activeTabs
      ensures ActiveIs(tabs, activeTab, was, p, activeTabs[p])
    {
      assert ActiveIs(before, activeTab, was, p, activeTabs[p]);
      forall id
        ensures OwnsTab(before, id, p) <==> OwnsTab(tabs, id, p)
      {
      }
      forall i | 0 <= i < |tabs|
        ensures IsFirstOf(before, i, p) <==> IsFirstOf(tabs, i, p)
      {
      }
    }
  }

  // ----- Conversations

  ghost predicate IsFirstOfThread(c: seq<Conversation>, i: nat)
    requires i < |c|
  {
    Trim(c[i].thread) != "" && forall j :: 0 <= j < i ==> Trim(c[j].thread) != Trim(c[i].thread)
  }

  ghost predicate Increasing(places: seq<nat>, n: nat) {
    && (forall k :: 0 <= k < |places| ==> places[k] < n)
    && (forall j, k :: 0 <= j < k < |places| ==> places[j] < places[k])
  }

  /** The numbers in `kept`, all below `n`, in order. */
  ghost predicate Picked(n: nat, places: seq<nat>, kept: set<nat>) {
    && Increasing(places, n) && forall i :: i in places <==> i in kept
  }

  ghost function FirstsOfThreads(c: seq<Conversation>): set<nat> {
    set i: nat | i < |c| && IsFirstOfThread(c, i)
  }

  /** The conversations at `places`, which are the first of their trimmed thread ids, with those ids. */
  ghost predicate SaneAre(c: seq<Conversation>, places: seq<nat>, sane: seq<Conversation>) {
    && Picked(|c|, places, FirstsOfThreads(c)) && |places| == |sane|
    && forall k :: 0 <= k < |sane| ==> sane[k] == c[places[k]].(thread := Trim(c[places[k]].thread))
  }

  /** Before version 4 only the selected conversation had a tab, that in front. */
  ghost predicate ClaimsAre(sane: seq<Conversation>, version: nat, selected: Option<string>, tabs: seq<Tab>,
                            activeTab: nat, claims: seq<Conversation>) {
    && |claims| == |sane|
    && forall k :: 0 <= k < |sane| ==>
         && claims[k].thread == sane[k].thread && claims[k].lastActivity == sane[k].lastActivity
         && if version >= 4 then claims[k] == sane[k]
            else if activeTab < |tabs| then
              && claims[k].detached == tabs[activeTab].profile
              && claims[k].tab
                 == if selected.Some? && Trim(selected.value) == sane[k].thread then Some(tabs[activeTab].id) else None
            else claims[k].detached.None? && claims[k].tab.None?
  }

  /** A later activity wins a tab, and among equals the earlier conversation. */
  ghost predicate Wins(claims: seq<Conversation>, tabs: seq<Tab>, k: nat)
    requires k < |claims|
  {
    && claims[k].tab.Some? && TabIsThere(tabs, claims[k].tab.value)
    && forall j :: 0 <= j < |claims| && j != k && claims[j].tab == claims[k].tab ==>
         claims[j].lastActivity < claims[k].lastActivity || (claims[j].lastActivity == claims[k].lastActivity && k < j)
  }

  predicate TabIsThere(tabs: seq<Tab>, id: Id) { exists i :: 0 <= i < |tabs| && tabs[i].id == id }

  /** `owner`, if it is the connection of the first tab with this id. */
  ghost predicate OwnsFirst(tabs: seq<Tab>, id: Id, owner: Option<Id>) {
    exists i :: 0 <= i < |tabs| && tabs[i].id == id && tabs[i].profile == owner
                && forall j :: 0 <= j < i ==> tabs[j].id != id
  }

  /** What a conversation remembers when it is without a tab: only a connection that exists. */
  ghost predicate Remembers(profiles: seq<Profile>, wanted: Option<Id>, detached: Option<Id>) {
    detached == if wanted.Some? && IsConnection(profiles, wanted.value) then wanted else None
  }

  ghost predicate LinkIs(claims: seq<Conversation>, tabs: seq<Tab>, profiles: seq<Profile>, k: nat, now: Conversation)
    requires k < |claims|
  {
    var claim := claims[k];
    && now.thread == claim.thread && now.lastActivity == claim.lastActivity
    && if Wins(claims, tabs, k) then now.tab == claim.tab && now.detached.None?
       else
         && now.tab.None?
         && if claim.tab.Some? && TabIsThere(tabs, claim.tab.value) then
              exists owner :: OwnsFirst(tabs, claim.tab.value, owner) && Remembers(profiles, owner, now.detached)
            else Remembers(profiles, claim.detached, now.detached)
  }

  /** The conversations after the repair of those before it. */
  ghost predicate ConversationsAre(before: seq<Conversation>, version: nat, selected: Option<string>, tabs: seq<Tab>,
                                   activeTab: nat, profiles: seq<Profile>, now: seq<Conversation>) {
    exists places, sane, claims ::
      && SaneAre(before, places, sane) && ClaimsAre(sane, version, selected, tabs, activeTab, claims)
      && |now| == |claims| && forall k :: 0 <= k < |now| ==> LinkIs(claims, tabs, profiles, k, now[k])
  }

  /** One more element, which is picked or not. */
  lemma PickedNext(n: nat, places: seq<nat>, more: seq<nat>, kept: set<nat>, all: set<nat>)
    requires Picked(n, places, kept) && (forall i :: i in all <==> i in kept || (i == n && n in all))
    requires more == if n in all then places + [n] else places
    ensures Picked(n + 1, more, all)
  {
    if n in all {
      assert more[|places|] == n;
      forall i | i in all
        ensures i in more
      {
        assert i != n ==> i in places;
      }
    }
  }

  lemma {:induction false} SanePlaces(c: seq<Conversation>) returns (places: seq<nat>)
    ensures SaneAre(c, places, Sane(c))
  {
    hide Trim, IsFirstOfThread, Sane, Threads, FirstsOfThreads, Picked;
    SaneStep(c);
    if c == [] {
      places := [];
      assert FirstsOfThreads(c) == {} by {
        NoFirsts();
      }
      assert Picked(0, [], {}) by {
        NonePicked();
      }
    } else {
      var n := |c| - 1;
      var before := SanePlaces(c[..n]);
      FirstsNext(c);
      PickedBelow(n, before, FirstsOfThreads(c[..n]));
      places := if n in FirstsOfThreads(c) then before + [n] else before;
      PickedNext(n, before, places, FirstsOfThreads(c[..n]), FirstsOfThreads(c));
    }
  }

  lemma NoFirsts()
    ensures FirstsOfThreads([]) == {}
  {
  }

  lemma NonePicked()
    ensures Picked(0, [], {})
  {
  }

  lemma PickedBelow(n: nat, places: seq<nat>, kept: set<nat>)
    requires Picked(n, places, kept)
    ensures forall k :: 0 <= k < |places| ==> places[k] < n
  {
  }

  lemma FirstsNext(c: seq<Conversation>)
    requires c != []
    ensures var (n, before, all) := (|c| - 1, FirstsOfThreads(c[..|c| - 1]), FirstsOfThreads(c));
            && (forall i :: i in all <==> i in before || (i == n && n in all))
            && (n in all <==> Trim(c[n].thread) != "" && Trim(c[n].thread) !in Threads(Sane(c[..n])))
  {
    hide Trim, Sane;
    var n := |c| - 1;
    SaneIsOk(c[..n]);
    assert forall i :: 0 <= i < n ==> c[..n][i] == c[i];
    assert forall i :: 0 <= i < n ==> Trim(c[i].thread) in TrimmedThreads(c[..n]);
  }

  lemma LinkIsRepaired(claims: seq<Conversation>, tabs: seq<Tab>, profiles: seq<Profile>, k: nat)
    requires k < |claims|
    ensures LinkIs(claims, tabs, profiles, k, Known(Linked(claims, tabs, k), ProfileIds(profiles)))
  {
    hide FindTab, IsConnection, ProfileIds;
    ConnectionsAre(profiles);
    var claim := claims[k];
    assert Wins(claims, tabs, k) <==> Keeps(claims, tabs, k);
    if claim.tab.Some? && TabExists(tabs, claim.tab.value) {
      FindTabIs(tabs, claim.tab.value);
    }
  }

  lemma {:induction false} FindTabIs(tabs: seq<Tab>, id: Id)
    requires FindTab(tabs, id).Some?
    ensures OwnsFirst(tabs, id, FindTab(tabs, id).value.profile)
  {
    if tabs[0].id == id {
      assert OwnsFirst(tabs, id, tabs[0].profile);
    } else {
      FindTabIs(tabs[1..], id);
      var owner := FindTab(tabs, id).value.profile;
      var i :| 0 <= i < |tabs| - 1 && tabs[1..][i].id == id && tabs[1..][i].profile == owner
               && forall j :: 0 <= j < i ==> tabs[1..][j].id != id;
      assert forall j :: 0 < j < |tabs| ==> tabs[j] == tabs[1..][j - 1];
      assert tabs[i + 1].id == id;
    }
  }

  /** `now` is what the repair makes of `claims`. */
  lemma ConversationsAreRepaired(before: seq<Conversation>, version: nat, selected: Option<string>, tabs: seq<Tab>,
                                 activeTab: nat, profiles: seq<Profile>, claims: seq<Conversation>,
                                 now: seq<Conversation>)
    requires |claims| == |Sane(before)| == |now|
    requires version >= 4 ==> claims == Sane(before)
    requires version < 4 ==> forall k :: 0 <= k < |claims| ==>
               claims[k] == Attached(Sane(before)[k], if selected.Some? then Some(Trim(selected.value)) else None,
                                     if activeTab < |tabs| then Some(tabs[activeTab]) else None)
    requires forall k :: 0 <= k < |now| ==> now[k] == Known(Linked(claims, tabs, k), ProfileIds(profiles))
    ensures ConversationsAre(before, version, selected, tabs, activeTab, profiles, now)
  {
    hide Trim, Sane, SaneAre, LinkIs, Known, Linked;
    var places := SanePlaces(before);
    assert ClaimsAre(Sane(before), version, selected, tabs, activeTab, claims);
    forall k | 0 <= k < |now|
      ensures LinkIs(claims, tabs, profiles, k, now[k])
    {
      LinkIsRepaired(claims, tabs, profiles, k);
    }
  }

  // ----- Shared catalogs

  predicate HasCatalog(catalogs: seq<Catalog>, id: Id) { exists i :: 0 <= i < |catalogs| && catalogs[i].id == id }

  /** `p` is in the catalog `id`. */
  predicate IsIn(profiles: seq<Profile>, p: Id, id: Id) {
    exists i :: 0 <= i < |profiles| && profiles[i].id == p && profiles[i].sharedCatalog == Some(id)
  }

  /** A connection leaves a catalog that does not exist, and nothing else. */
  ghost predicate ProfilesAre(before: seq<Profile>, catalogs: seq<Catalog>, profiles: seq<Profile>) {
    && |profiles| == |before|
    && forall i :: 0 <= i < |before| ==>
         && profiles[i].id == before[i].id
         && profiles[i].sharedCatalog
            == if before[i].sharedCatalog.Some? && HasCatalog(catalogs, before[i].sharedCatalog.value)
               then before[i].sharedCatalog else None
  }

  ghost function PlacesWithMembers(catalogs: seq<Catalog>, profiles: seq<Profile>): set<nat> {
    set i: nat | i < |catalogs| && exists p :: IsIn(profiles, p, catalogs[i].id)
  }

  /** The catalogs at `places` are those with a member; a preferred connection is a member. */
  ghost predicate CatalogsAt(before: seq<Catalog>, profiles: seq<Profile>, places: seq<nat>, catalogs: seq<Catalog>) {
    && Picked(|before|, places, PlacesWithMembers(before, profiles)) && |places| == |catalogs|
    && (forall k :: 0 <= k < |catalogs| ==>
          && catalogs[k].id == before[places[k]].id
          && catalogs[k].preferred
             == var preferred := before[places[k]].preferred;
                if preferred.Some? && IsIn(profiles, preferred.value, catalogs[k].id) then preferred else None)
  }

  ghost predicate CatalogsAre(before: seq<Catalog>, profiles: seq<Profile>, catalogs: seq<Catalog>) {
    exists places :: CatalogsAt(before, profiles, places, catalogs)
  }

  /** The catalogs at `places` are those in use. */
  ghost predicate RetainedAt(before: seq<Catalog>, profiles: seq<Profile>, places: seq<nat>, kept: seq<Catalog>) {
    && Picked(|before|, places, UsedPlaces(before, profiles)) && |places| == |kept|
    && forall k :: 0 <= k < |kept| ==> kept[k] == before[places[k]]
  }

  ghost function UsedPlaces(catalogs: seq<Catalog>, profiles: seq<Profile>): set<nat> {
    set i: nat | i < |catalogs| && IsUsed(profiles, catalogs[i].id)
  }

  lemma {:induction false} RetainedPlaces(before: seq<Catalog>, profiles: seq<Profile>) returns (places: seq<nat>)
    ensures RetainedAt(before, profiles, places, Retained(before, profiles).0)
  {
    hide IsUsed, UsedPlaces, Picked, Retained;
    if before == [] {
      RetainedStep(before, profiles);
      places := [];
      assert UsedPlaces(before, profiles) == {} by {
        UsedNext(before, profiles);
      }
      NonePicked();
    } else {
      var n := |before| - 1;
      var rest := RetainedPlaces(before[..n], profiles);
      places := if IsUsed(profiles, before[n].id) then rest + [n] else rest;
      RetainedNext(before, profiles, rest, places);
    }
  }

  lemma RetainedNext(before: seq<Catalog>, profiles: seq<Profile>, rest: seq<nat>, places: seq<nat>)
    requires before != []
             && RetainedAt(before[..|before| - 1], profiles, rest, Retained(before[..|before| - 1], profiles).0)
    requires places == if IsUsed(profiles, before[|before| - 1].id) then rest + [|before| - 1] else rest
    ensures RetainedAt(before, profiles, places, Retained(before, profiles).0)
  {
    hide IsUsed, UsedPlaces, Picked, Retained;
    var n := |before| - 1;
    RetainedStep(before, profiles);
    UsedNext(before, profiles);
    PickedBelow(n, rest, UsedPlaces(before[..n], profiles));
    PickedNext(n, rest, places, UsedPlaces(before[..n], profiles), UsedPlaces(before, profiles));
  }

  lemma UsedNext(catalogs: seq<Catalog>, profiles: seq<Profile>)
    ensures catalogs == [] ==> UsedPlaces(catalogs, profiles) == {}
    ensures catalogs != [] ==>
              var (n, all) := (|catalogs| - 1, UsedPlaces(catalogs, profiles));
              && (forall i :: i in all <==> i in UsedPlaces(catalogs[..n], profiles) || (i == n && n in all))
              && (n in all <==> IsUsed(profiles, catalogs[n].id))
  {
    hide IsUsed;
  }

  lemma RetainedStep(before: seq<Catalog>, profiles: seq<Profile>)
    ensures before == [] ==> Retained(before, profiles).0 == []
    ensures before != [] ==>
              var (kept, last) := (Retained(before[..|before| - 1], profiles).0, before[|before| - 1]);
              Retained(before, profiles).0 == if IsUsed(profiles, last.id) then kept + [last] else kept
  {
  }

  lemma ProfilesAreRepaired(before: seq<Profile>, catalogs: seq<Catalog>, profiles: seq<Profile>)
    requires |profiles| == |before| && forall i :: 0 <= i < |before| ==> profiles[i] == Cleared(before[i], catalogs)
    ensures ProfilesAre(before, catalogs, profiles)
  {
    assert forall id :: HasCatalog(catalogs, id) <==> CatalogExists(catalogs, id);
  }

  lemma CatalogsAreRepaired(before: seq<Catalog>, profiles: seq<Profile>, catalogs: seq<Catalog>)
    requires var kept := Retained(before, profiles).0;
             |catalogs| == |kept|
             && forall k :: 0 <= k < |catalogs| ==> catalogs[k] == Preferring(kept[k], profiles)
    ensures CatalogsAre(before, profiles, catalogs)
  {
    hide Retained, Picked;
    var places := RetainedPlaces(before, profiles);
    forall id
      ensures IsUsed(profiles, id) <==> exists p :: IsIn(profiles, p, id)
    {
      if IsUsed(profiles, id) {
        var i :| 0 <= i < |profiles| && profiles[i].sharedCatalog == Some(id);
        assert IsIn(profiles, profiles[i].id, id);
      }
    }
    forall p, id
      ensures IsIn(profiles, p, id) <==> IsMember(profiles, p, id)
    {
    }
    assert UsedPlaces(before, profiles) == PlacesWithMembers(before, profiles);
    PickedBelow(|before|, places, UsedPlaces(before, profiles));
    assert CatalogsAt(before, profiles, places, catalogs);
  }
}
