/** The tab list and the theme choice of the browser page (client/src/pages/browser.tsx): opening,
    closing, activating and navigating tabs under a one-active-tab discipline, unloading idle
    tabs on a timer, and picking the colours of the browser chrome. */
module Browser {
  import opened Wrappers
  import opened Seqs
  import SessionStore

  /** A tab. `lastActiveAt` is a time in milliseconds since the epoch. */
  datatype Tab = Tab(
    id: string,
    title: string,
    url: string,
    active: bool,
    faviconUrl: string,
    loaded: bool,
    lastActiveAt: int)

  const NewTabTitle := "New Tab"

  /** A fresh, empty, active tab. */
  function BlankTab(id: string, now: int): Tab {
    Tab(id, NewTabTitle, "", true, "", false, now)
  }

  /** The page starts with the single tab `'1'`. */
  function InitialTabs(now: int): seq<Tab> {
    [BlankTab("1", now)]
  }

  // ---------------------------------------------------------------------------------------------
  // The one-active-tab discipline

  ghost predicate DistinctIds(ts: seq<Tab>) {
    forall i, j :: 0 <= i < j < |ts| ==> ts[i].id != ts[j].id
  }

  /** The tab at `k` is active and no other is. */
  ghost predicate OnlyActiveAt(ts: seq<Tab>, k: int) {
    0 <= k < |ts| && ts[k].active && forall j :: 0 <= j < |ts| && j != k ==> !ts[j].active
  }

  /** Tab ids are distinct and exactly one tab is active. */
  ghost predicate WellFormed(ts: seq<Tab>) {
    DistinctIds(ts) && exists k :: OnlyActiveAt(ts, k)
  }

  lemma InitialWellFormed(now: int)
    ensures WellFormed(InitialTabs(now))
  {
    assert OnlyActiveAt(InitialTabs(now), 0);
  }

  function IsActive(): Tab -> bool {
    (t: Tab) => t.active
  }

  function HasId(id: string): Tab -> bool {
    (t: Tab) => t.id == id
  }

  function OtherId(id: string): Tab -> bool {
    (t: Tab) => t.id != id
  }

  /** `activeTab`: the first active tab, else the first tab (None for an empty list). */
  function ActiveTab(ts: seq<Tab>): (r: Option<Tab>)
    ensures r.None? <==> ts == []
    ensures (forall j :: 0 <= j < |ts| ==> !ts[j].active) && ts != [] ==> r == Some(ts[0])
    ensures forall k :: 0 <= k < |ts| && ts[k].active && (forall j :: 0 <= j < k ==> !ts[j].active)
                        ==> r == Some(ts[k])
  {
    match FindIndex(ts, IsActive())
    case Some(i) => Some(ts[i])
    case None => if ts == [] then None else Some(ts[0])
  }

  /** Under the discipline, `activeTab` is the one active tab. */
  lemma ActiveTabIsTheActiveOne(ts: seq<Tab>, k: int)
    requires OnlyActiveAt(ts, k)
    ensures ActiveTab(ts) == Some(ts[k])
  {
  }

  // ---------------------------------------------------------------------------------------------
  // Opening, activating and navigating (new lists built with map and concat)

  /** `handleNewTab`: every tab is made inactive and a blank active tab is appended. */
  function NewTab(ts: seq<Tab>, id: string, now: int): (r: seq<Tab>)
    ensures |r| == |ts| + 1 && r[|ts|] == BlankTab(id, now)
    ensures forall i :: 0 <= i < |ts| ==> r[i] == ts[i].(active := false)
    ensures OnlyActiveAt(r, |ts|)
  {
    seq(|ts|, i requires 0 <= i < |ts| => ts[i].(active := false)) + [BlankTab(id, now)]
  }

  /** A new tab with an unused id keeps the discipline, and it is the tab shown. */
  lemma NewTabWellFormed(ts: seq<Tab>, id: string, now: int)
    requires DistinctIds(ts) && forall t :: t in ts ==> t.id != id
    ensures WellFormed(NewTab(ts, id, now))
    ensures ActiveTab(NewTab(ts, id, now)) == Some(BlankTab(id, now))
  {
    var r := NewTab(ts, id, now);
    forall i, j | 0 <= i < j < |r| ensures r[i].id != r[j].id {
      if j == |ts| {
        assert ts[i] in ts;
      }
    }
    ActiveTabIsTheActiveOne(r, |ts|);
  }

  /** `handleActivateTab(id)`: exactly the tabs with that id become active and are stamped with
      the time; those with a page are marked loaded; nothing else changes. */
  function ActivateTab(ts: seq<Tab>, id: string, now: int): (r: seq<Tab>)
    ensures |r| == |ts|
    ensures forall i :: 0 <= i < |ts| ==> r[i].active == (ts[i].id == id)
    ensures forall i :: 0 <= i < |ts| ==>
      r[i].lastActiveAt == (if ts[i].id == id then now else ts[i].lastActiveAt)
    ensures forall i :: 0 <= i < |ts| ==> r[i].loaded == ((ts[i].id == id && ts[i].url != "") || ts[i].loaded)
    ensures forall i :: 0 <= i < |ts| ==>
      r[i].id == ts[i].id && r[i].title == ts[i].title && r[i].url == ts[i].url && r[i].faviconUrl == ts[i].faviconUrl
  {
    seq(|ts|, i requires 0 <= i < |ts| =>
      ts[i].(active := ts[i].id == id,
             lastActiveAt := if ts[i].id == id then now else ts[i].lastActiveAt,
             loaded := if ts[i].id == id && ts[i].url != "" then true else ts[i].loaded))
  }

  /** Activating a listed tab keeps the discipline and shows that tab. */
  lemma ActivateKnownTab(ts: seq<Tab>, k: int, now: int)
    requires DistinctIds(ts) && 0 <= k < |ts|
    ensures var r := ActivateTab(ts, ts[k].id, now);
      OnlyActiveAt(r, k) && WellFormed(r) && ActiveTab(r) == Some(r[k])
  {
    var r := ActivateTab(ts, ts[k].id, now);
    forall j | 0 <= j < |r| && j != k ensures !r[j].active {
      if j < k {
        assert ts[j].id != ts[k].id;
      } else {
        assert ts[k].id != ts[j].id;
      }
    }
    assert OnlyActiveAt(r, k);
    ActiveTabIsTheActiveOne(r, k);
  }

  /** Activating an id that is not listed leaves no tab active; the page then shows the first. */
  lemma ActivateUnknownTab(ts: seq<Tab>, id: string, now: int)
    requires forall t :: t in ts ==> t.id != id
    ensures var r := ActivateTab(ts, id, now);
      (forall j :: 0 <= j < |r| ==> !r[j].active) && (ts != [] ==> ActiveTab(r) == Some(r[0]))
  {
    var r := ActivateTab(ts, id, now);
    forall j | 0 <= j < |r| ensures !r[j].active {
      assert ts[j] in ts;
    }
  }

  /** `handleNavigate(url)`: the active tabs get the page, its title and icon, are marked loaded
      and stamped with the time; the other tabs are untouched. The title and icon, which the page
      derives from the URL, are given. */
  function Navigate(ts: seq<Tab>, url: string, title: string, favicon: string, now: int): (r: seq<Tab>)
    ensures |r| == |ts|
    ensures forall i :: 0 <= i < |ts| && !ts[i].active ==> r[i] == ts[i]
    ensures forall i :: 0 <= i < |ts| && ts[i].active ==>
      r[i] == ts[i].(url := url, title := title, faviconUrl := favicon, loaded := true, lastActiveAt := now)
  {
    seq(|ts|, i requires 0 <= i < |ts| =>
      if ts[i].active
      then ts[i].(url := url, title := title, faviconUrl := favicon, loaded := true, lastActiveAt := now)
      else ts[i])
  }

  /** Navigation keeps the discipline, and the tab shown is the one that went to the page. */
  lemma NavigateWellFormed(ts: seq<Tab>, k: int, url: string, title: string, favicon: string, now: int)
    requires DistinctIds(ts) && OnlyActiveAt(ts, k)
    ensures var r := Navigate(ts, url, title, favicon, now);
      WellFormed(r) && ActiveTab(r) == Some(r[k]) && r[k].url == url && r[k].loaded && r[k].id == ts[k].id
  {
    var r := Navigate(ts, url, title, favicon, now);
    assert OnlyActiveAt(r, k);
    ActiveTabIsTheActiveOne(r, k);
  }

  /** The history record `handleNavigate` sends to the server: the user's id, or `anonymous`
      when there is no user or the id is empty. */
  function SessionRecord(url: string, title: string, userId: Option<string>): (r: SessionStore.NewSession)
    ensures r.userId != ""
    ensures userId.Some? && userId.value != "" ==> r.userId == userId.value
    ensures r.url == url && r.title == Some(title) && r.isActive == Some(true)
  {
    var owner := if userId.Some? && userId.value != "" then userId.value else "anonymous";
    SessionStore.NewSession(owner, url, Some(title), Some(true))
  }

  // ---------------------------------------------------------------------------------------------
  // Unloading idle tabs

  /** An inactive tab last used more than `minutes` minutes before `now`. */
  predicate Idle(t: Tab, minutes: int, now: int) {
    !t.active && now - t.lastActiveAt > minutes * 60 * 1000
  }

  /** One tick of the auto-clear timer, which exists only while `autoClearMinutes` is positive:
      idle loaded tabs are unloaded; nothing else changes. */
  function AutoClear(ts: seq<Tab>, minutes: int, now: int): (r: seq<Tab>)
    ensures |r| == |ts|
    ensures forall i :: 0 <= i < |ts| ==> r[i] == ts[i].(loaded := r[i].loaded)
    ensures forall i :: 0 <= i < |ts| ==> (r[i].loaded <==> ts[i].loaded && !(minutes > 0 && Idle(ts[i], minutes, now)))
    ensures minutes <= 0 ==> r == ts
  {
    if minutes <= 0 then ts
    else
      seq(|ts|, i requires 0 <= i < |ts| =>
        if !ts[i].active && ts[i].loaded && now - ts[i].lastActiveAt > minutes * 60 * 1000
        then ts[i].(loaded := false)
        else ts[i])
  }

  /** A tick never touches the active tab and keeps the discipline; a second tick at the same
      time changes nothing more. */
  lemma AutoClearWellFormed(ts: seq<Tab>, minutes: int, now: int)
    requires WellFormed(ts)
    ensures WellFormed(AutoClear(ts, minutes, now))
    ensures forall i :: 0 <= i < |ts| && ts[i].active ==> AutoClear(ts, minutes, now)[i] == ts[i]
    ensures AutoClear(AutoClear(ts, minutes, now), minutes, now) == AutoClear(ts, minutes, now)
  {
    var r := AutoClear(ts, minutes, now);
    var k :| OnlyActiveAt(ts, k);
    assert OnlyActiveAt(r, k);
  }

  // ---------------------------------------------------------------------------------------------
  // Theme

  /** The five colours of the browser chrome. */
  datatype Style = Style(chrome: string, tab: string, tabActive: string, accent: string, text: string)

  const PresetNames: seq<string> := ["neon", "slate", "sunset", "mono"]

  /** `themePresets[name]`. */
  function Preset(name: string): (r: Option<Style>)
    ensures r.Some? <==> name in PresetNames
  {
    if name == "neon" then Some(Style("#0d0f14", "#151a24", "#1f2635", "#9b5cff", "#f8fafc"))
    else if name == "slate" then Some(Style("#0f172a", "#1e293b", "#334155", "#38bdf8", "#e2e8f0"))
    else if name == "sunset" then Some(Style("#2b1b1a", "#3b2221", "#4a2b29", "#f97316", "#fff7ed"))
    else if name == "mono" then Some(Style("#111111", "#1f1f1f", "#2b2b2b", "#a3a3a3", "#fafafa"))
    else None
  }

  /** `appliedTheme`: the custom colours for `custom`, else the named preset, else neon. */
  function AppliedTheme(preset: string, custom: Style): (r: Style)
    ensures preset == "custom" ==> r == custom
    ensures preset != "custom" && preset in PresetNames ==> Some(r) == Preset(preset)
    ensures preset != "custom" && preset !in PresetNames ==> Some(r) == Preset("neon")
  {
    if preset == "custom" then custom
    else match Preset(preset)
      case Some(s) => s
      case None => Preset("neon").value
  }

  /** The custom colours of the default settings, which are the neon preset's. */
  const DefaultCustomStyle := Style("#0d0f14", "#151a24", "#1f2635", "#9b5cff", "#f8fafc")

  /** With the default custom colours, `custom`, `neon` and every unknown preset look the same. */
  lemma DefaultThemeIsNeon(name: string)
    requires name == "custom" || name !in PresetNames
    ensures AppliedTheme(name, DefaultCustomStyle) == AppliedTheme("neon", DefaultCustomStyle)
  {
  }

  // ---------------------------------------------------------------------------------------------
  // Closing a tab

  /** The last tab is never closed; its page is cleared instead. */
  function Reset(t: Tab): Tab {
    t.(title := NewTabTitle, url := "", faviconUrl := "", loaded := false)
  }

  /** What closing the active tab does to the tab that takes over: active, stamped, and loaded
      when it has a page. */
  function Refocus(t: Tab, now: int): Tab {
    var a := t.(active := true, lastActiveAt := now);
    if a.url != "" then a.(loaded := true) else a
  }

  /** The list `handleCloseTab(id)` leaves, or None where it throws: the closed tab was active
      and no tab is left to take over (possible only when ids repeat). */
  function ClosedTabs(ts: seq<Tab>, id: string, now: int): (r: Option<seq<Tab>>)
    ensures r.Some? ==> |r.value| <= |ts|
    ensures r.Some? && |ts| != 1 ==> forall t :: t in r.value ==> t.id != id
    ensures r.None? ==> |ts| != 1 && exists t :: t in ts && t.id == id && t.active
  {
    if |ts| == 1 then Some([Reset(ts[0])])
    else
      var kept := Filter(ts, OtherId(id));
      var closed := FindIndex(ts, HasId(id));
      if closed.Some? && ts[closed.value].active then
        if kept == [] then None
        else
          var last := |kept| - 1;
          var r := kept[last := Refocus(kept[last], now)];
          assert kept[last] in kept && r[last].id == kept[last].id;
          assert forall t :: t in r ==> t == r[last] || t in kept by {
            forall t | t in r ensures t == r[last] || t in kept {
              var j :| 0 <= j < |r| && r[j] == t;
              if j != last { assert t == kept[j]; }
            }
          }
          Some(r)
      else Some(kept)
  }

  /** `handleCloseTab(id)`: the kept tabs go into a new array, and when the closed tab was active
      the last one is updated in place to take over. `ok` is false where the handler throws. */
  method CloseTab(tabs: array<Tab>, id: string, now: int) returns (newTabs: array<Tab>, ok: bool)
    ensures fresh(newTabs)
    ensures ok == ClosedTabs(tabs[..], id, now).Some?
    ensures ok ==> newTabs[..] == ClosedTabs(tabs[..], id, now).value
  {
    var ts := tabs[..];
    if |ts| == 1 {
      newTabs := new Tab[1];
      newTabs[0] := Reset(ts[0]);
      ok := true;
      assert newTabs[..] == [Reset(ts[0])];
      return;
    }
    var kept := Filter(ts, OtherId(id));
    var closed := FindIndex(ts, HasId(id));
    newTabs := new Tab[|kept|](i requires 0 <= i < |kept| => kept[i]);
    assert newTabs[..] == kept;
    if closed.Some? && ts[closed.value].active {
      var last := newTabs.Length - 1;
      if last < 0 {
        ok := false;
        return;
      }
      newTabs[last] := newTabs[last].(active := true);
      newTabs[last] := newTabs[last].(lastActiveAt := now);
      if newTabs[last].url != "" {
        newTabs[last] := newTabs[last].(loaded := true);
      }
      assert newTabs[last] == Refocus(kept[last], now);
      assert newTabs[..] == kept[last := Refocus(kept[last], now)];
    }
    ok := true;
  }

  /** Closing the only tab, whatever id is given, clears its page and keeps its id and state. */
  lemma CloseOnlyTab(t: Tab, id: string, now: int)
    ensures ClosedTabs([t], id, now) == Some([Reset(t)])
    ensures var r := Reset(t);
      r.id == t.id && r.active == t.active && r.url == "" && !r.loaded && r.title == NewTabTitle
  {
  }

  /** With distinct ids, dropping one id drops at most one tab and keeps the others distinct. */
  lemma FilterOtherId(ts: seq<Tab>, id: string)
    requires DistinctIds(ts)
    ensures var kept := Filter(ts, OtherId(id));
      && DistinctIds(kept)
      && |kept| == if (exists t :: t in ts && t.id == id) then |ts| - 1 else |ts|
  {
    FilterKeepsDistinct(ts, id);
    FilterOtherIdLength(ts, id);
  }

  /** Past the first tab the ids are distinct and differ from the first one's. */
  lemma DistinctTail(ts: seq<Tab>)
    requires DistinctIds(ts) && ts != []
    ensures DistinctIds(ts[1..])
    ensures forall t :: t in ts[1..] ==> t.id != ts[0].id
  {
    forall t | t in ts[1..] ensures t.id != ts[0].id {
      var j :| 0 <= j < |ts[1..]| && ts[1..][j] == t;
      assert t == ts[j + 1];
    }
  }

  /** A tab with an id of its own in front of distinct tabs keeps them distinct. */
  lemma ConsDistinct(t: Tab, rest: seq<Tab>)
    requires DistinctIds(rest) && forall u :: u in rest ==> u.id != t.id
    ensures DistinctIds([t] + rest)
  {
    var r := [t] + rest;
    forall i, j | 0 <= i < j < |r| ensures r[i].id != r[j].id {
      assert r[j] == rest[j - 1];
      if i == 0 {
        assert rest[j - 1] in rest;
      } else {
        assert r[i] == rest[i - 1];
      }
    }
  }

  lemma {:induction false} FilterKeepsDistinct(ts: seq<Tab>, id: string)
    requires DistinctIds(ts)
    ensures DistinctIds(Filter(ts, OtherId(id)))
  {
    if ts != [] {
      DistinctTail(ts);
      FilterKeepsDistinct(ts[1..], id);
      if ts[0].id != id {
        ConsDistinct(ts[0], Filter(ts[1..], OtherId(id)));
      }
    }
  }

  lemma {:induction false} FilterOtherIdLength(ts: seq<Tab>, id: string)
    requires DistinctIds(ts)
    ensures |Filter(ts, OtherId(id))| == if (exists t :: t in ts && t.id == id) then |ts| - 1 else |ts|
  {
    if ts != [] {
      var rest := ts[1..];
      var krest := Filter(rest, OtherId(id));
      DistinctTail(ts);
      FilterOtherIdLength(rest, id);
      assert ts == [ts[0]] + rest;
      if ts[0].id == id {
        assert Filter(ts, OtherId(id)) == krest;
        assert forall t :: t in rest ==> OtherId(id)(t);
        assert krest == rest;
        assert ts[0] in ts;
      } else {
        assert Filter(ts, OtherId(id)) == [ts[0]] + krest;
        HasIdInTail(ts, id);
      }
    }
  }

  /** When the first tab has another id, the id is listed exactly when it is listed past it. */
  lemma HasIdInTail(ts: seq<Tab>, id: string)
    requires ts != [] && ts[0].id != id
    ensures (exists t :: t in ts && t.id == id) <==> (exists t :: t in ts[1..] && t.id == id)
  {
    assert ts == [ts[0]] + ts[1..];
    if t :| t in ts && t.id == id {
      assert t in ts[1..];
    }
  }

  /** The ids of the listed tabs. */
  ghost function IdSet(ts: seq<Tab>): set<string> {
    set t | t in ts :: t.id
  }

  lemma SameIds(a: seq<Tab>, b: seq<Tab>)
    requires |a| == |b| && forall j :: 0 <= j < |a| ==> a[j].id == b[j].id
    ensures IdSet(a) == IdSet(b)
  {
    forall x | x in IdSet(a) ensures x in IdSet(b) {
      var t :| t in a && t.id == x;
      var j :| 0 <= j < |a| && a[j] == t;
      assert b[j] in b;
    }
    forall x | x in IdSet(b) ensures x in IdSet(a) {
      var t :| t in b && t.id == x;
      var j :| 0 <= j < |b| && b[j] == t;
      assert a[j] in a;
    }
  }

  lemma KeptIds(ts: seq<Tab>, id: string)
    ensures IdSet(Filter(ts, OtherId(id))) == IdSet(ts) - {id}
  {
    var kept := Filter(ts, OtherId(id));
    forall x | x in IdSet(ts) - {id} ensures x in IdSet(kept) {
      var t :| t in ts && t.id == x;
      assert t in kept;
    }
  }

  /** Closing a tab never fails under the discipline and keeps it; afterwards the listed ids are
      the old ones less the closed one (the only tab is cleared rather than closed). */
  lemma CloseTabWellFormed(ts: seq<Tab>, id: string, now: int)
    requires WellFormed(ts)
    ensures ClosedTabs(ts, id, now).Some?
    ensures WellFormed(ClosedTabs(ts, id, now).value)
    ensures |ts| >= 2 ==> IdSet(ClosedTabs(ts, id, now).value) == IdSet(ts) - {id}
  {
    var k :| OnlyActiveAt(ts, k);
    if |ts| == 1 {
      assert OnlyActiveAt([Reset(ts[0])], 0);
    } else {
      FilterOtherId(ts, id);
      KeptIds(ts, id);
      if ts[k].id == id {
        CloseActiveTab(ts, id, now, k);
      } else {
        CloseInactiveTab(ts, id, now, k);
      }
    }
  }

  /** With distinct ids, the first tab with the id of tab `k` is tab `k`. */
  lemma FirstWithId(ts: seq<Tab>, k: int)
    requires DistinctIds(ts) && 0 <= k < |ts|
    ensures FindIndex(ts, HasId(ts[k].id)) == Some(k)
  {
    assert forall j :: 0 <= j < k ==> ts[j].id != ts[k].id;
  }

  /** When the active tab is closed, every kept tab is inactive. */
  lemma KeptInactive(ts: seq<Tab>, k: int)
    requires OnlyActiveAt(ts, k)
    ensures forall t :: t in Filter(ts, OtherId(ts[k].id)) ==> !t.active
  {
    forall t | t in Filter(ts, OtherId(ts[k].id)) ensures !t.active {
      var i :| 0 <= i < |ts| && ts[i] == t;
    }
  }

  /** Making the last of a list of inactive tabs active gives a list whose only active tab is the
      last, with the same ids. */
  lemma RefocusLast(kept: seq<Tab>, now: int)
    requires kept != [] && forall t :: t in kept ==> !t.active
    ensures var r := kept[|kept| - 1 := Refocus(kept[|kept| - 1], now)];
      OnlyActiveAt(r, |kept| - 1) && |r| == |kept| && forall j :: 0 <= j < |r| ==> r[j].id == kept[j].id
  {
    var n := |kept|;
    var r := kept[n - 1 := Refocus(kept[n - 1], now)];
    forall j | 0 <= j < n - 1 ensures !r[j].active {
      assert kept[j] in kept;
    }
  }

  lemma SameIdsDistinct(a: seq<Tab>, b: seq<Tab>)
    requires DistinctIds(a) && |a| == |b| && forall j :: 0 <= j < |a| ==> a[j].id == b[j].id
    ensures DistinctIds(b)
  {
  }

  /** Closing the active tab: the others stay in order and the last of them takes over. */
  lemma CloseActiveTab(ts: seq<Tab>, id: string, now: int, k: int)
    requires DistinctIds(ts) && OnlyActiveAt(ts, k) && |ts| >= 2 && ts[k].id == id
    ensures var kept := Filter(ts, OtherId(id));
      && kept != []
      && ClosedTabs(ts, id, now) == Some(kept[|kept| - 1 := Refocus(kept[|kept| - 1], now)])
      && OnlyActiveAt(ClosedTabs(ts, id, now).value, |kept| - 1)
      && WellFormed(ClosedTabs(ts, id, now).value)
      && IdSet(ClosedTabs(ts, id, now).value) == IdSet(ts) - {id}
  {
    var kept := Filter(ts, OtherId(id));
    FilterOtherId(ts, id);
    assert ts[k] in ts;
    assert |kept| == |ts| - 1;
    FirstWithId(ts, k);
    var r := kept[|kept| - 1 := Refocus(kept[|kept| - 1], now)];
    assert ClosedTabs(ts, id, now) == Some(r);
    KeptInactive(ts, k);
    RefocusLast(kept, now);
    SameIdsDistinct(kept, r);
    SameIds(kept, r);
    KeptIds(ts, id);
  }

  /** With distinct ids, the active tab's kept copy is the only active kept tab. */
  lemma KeptActive(ts: seq<Tab>, id: string, k: int)
    requires DistinctIds(ts) && OnlyActiveAt(ts, k) && ts[k].id != id
    ensures exists m :: OnlyActiveAt(Filter(ts, OtherId(id)), m) && Filter(ts, OtherId(id))[m] == ts[k]
  {
    var kept := Filter(ts, OtherId(id));
    FilterOtherId(ts, id);
    assert ts[k] in ts && ts[k] in kept;
    var m :| 0 <= m < |kept| && kept[m] == ts[k];
    forall j | 0 <= j < |kept| && j != m ensures !kept[j].active {
      assert kept[j] in kept;
      var i :| 0 <= i < |ts| && ts[i] == kept[j];
      assert kept[j].id != kept[m].id;
    }
    assert OnlyActiveAt(kept, m);
  }

  /** Closing an inactive tab, or an id that is not listed, keeps the remaining tabs as they were,
      in order, and the same tab active. */
  lemma CloseInactiveTab(ts: seq<Tab>, id: string, now: int, k: int)
    requires DistinctIds(ts) && OnlyActiveAt(ts, k) && |ts| >= 2 && ts[k].id != id
    ensures ClosedTabs(ts, id, now) == Some(Filter(ts, OtherId(id)))
    ensures WellFormed(Filter(ts, OtherId(id)))
    ensures ActiveTab(Filter(ts, OtherId(id))) == ActiveTab(ts)
  {
    var kept := Filter(ts, OtherId(id));
    FilterOtherId(ts, id);
    var closed := FindIndex(ts, HasId(id));
    if closed.Some? {
      assert closed.value != k;
    }
    KeptActive(ts, id, k);
    var m :| OnlyActiveAt(kept, m) && kept[m] == ts[k];
    ActiveTabIsTheActiveOne(kept, m);
    ActiveTabIsTheActiveOne(ts, k);
  }

  /** Where the handler throws: two tabs sharing an id, the first of them active. */
  lemma CloseTabThrows(t: Tab, now: int)
    requires t.active
    ensures ClosedTabs([t, t], t.id, now).None?
  {
    assert Filter([t, t], OtherId(t.id)) == [];
  }
}
