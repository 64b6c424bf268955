/** The background coordinator (background.js): it keys every open tab by its
    normalized URL, highlights the duplicates of the active tab or of a
    hovered link, keeps the per-tab suppression flags and answers the
    content scripts' messages.

    Each handler runs atomically over one snapshot of the browser's tabs and
    returns the requests it makes of the browser, in order, as `Effect`s. */
module Background {
  import opened Wrappers
  import opened JsStrings
  import opened UrlKey

  /** A tab as `tabs.query` reports it; the browser owns it. */
  datatype Tab = Tab(id: int, windowId: int, url: Option<string>, active: bool, highlighted: bool)

  /** Every open tab, in query order, and the window that has the focus. */
  datatype Snapshot = Snapshot(tabs: seq<Tab>, currentWindow: int)

  /** A request made of the browser. `Highlight` is
      `tabs.update(id, {active: false, highlighted: true})`, `Unhighlight` is
      `tabs.update(id, {highlighted: false})`, and `ScheduleRefresh` stands
      for the `setTimeout` that later runs the active-tab refresh. */
  datatype Effect =
    | Highlight(tabId: int)
    | Unhighlight(tabId: int)
    | SetBadge(tabId: int, text: string)
    | Activate(tabId: int)
    | FocusWindow(windowId: int)
    | ScheduleRefresh(delayMs: nat)

  /** The actions a content script (or the popup) sends. */
  datatype Message =
    | HighlightTabMsg(url: Option<string>)
    | RemoveHighlightMsg
    | UnhighlightAllMsg
    | SuppressHighlightForTabMsg
    | SwitchToTabMsg(tabId: Option<int>)
    | UnknownMsg

  /** What the `onMessage` listener resolves to: only `highlightTab` answers. */
  datatype Reply = NoReply | Matches(count: nat, tabIds: seq<int>)

  const RefreshDelayMs: nat := 200
  const SwitchGuardMs: int := 500

  /** A JavaScript string that is neither missing nor empty. */
  predicate Truthy(s: Option<string>)
  {
    s.Some? && s.value != ""
  }

  /** A tab id that is neither missing nor 0. */
  predicate TruthyId(id: Option<int>)
  {
    id.Some? && id.value != 0
  }

  predicate IsHttp(url: Option<string>)
  {
    Truthy(url) && "http" <= url.value
  }

  /** `suppressionMap.get(id)` is truthy. */
  predicate Suppressed(suppression: map<int, bool>, id: int)
  {
    id in suppression && suppression[id]
  }

  /** The browser never reports two tabs with one id. */
  predicate UniqueIds(tabs: seq<Tab>)
  {
    forall i, j :: 0 <= i < j < |tabs| ==> tabs[i].id != tabs[j].id
  }

  /** The tabs of `tabs` that are active in window `w`, in order. */
  function ActiveIn(tabs: seq<Tab>, w: int): (r: seq<Tab>)
    ensures forall t :: t in r ==> t in tabs && t.active && t.windowId == w
    decreases |tabs|
  {
    if |tabs| == 0 then []
    else
      var rest := ActiveIn(tabs[1..], w);
      if tabs[0].active && tabs[0].windowId == w then [tabs[0]] + rest else rest
  }

  /** The query finds every active tab of the window. */
  lemma {:induction false} ActiveInComplete(tabs: seq<Tab>, w: int)
    ensures forall t :: t in tabs && t.active && t.windowId == w ==> t in ActiveIn(tabs, w)
    decreases |tabs|
  {
    if |tabs| > 0 {
      ActiveInComplete(tabs[1..], w);
      assert forall t :: t in tabs ==> t == tabs[0] || t in tabs[1..];
    }
  }

  /** The query's first answer is the first active tab of the window in
      snapshot order. */
  lemma {:induction false} ActiveInFirst(tabs: seq<Tab>, w: int)
    ensures |ActiveIn(tabs, w)| > 0 ==>
              exists i :: 0 <= i < |tabs| && tabs[i] == ActiveIn(tabs, w)[0] &&
                          forall j :: 0 <= j < i ==> !(tabs[j].active && tabs[j].windowId == w)
    decreases |tabs|
  {
    if |tabs| > 0 {
      ActiveInFirst(tabs[1..], w);
      var rest := ActiveIn(tabs[1..], w);
      if !(tabs[0].active && tabs[0].windowId == w) && |rest| > 0 {
        var i :| 0 <= i < |tabs[1..]| && tabs[1..][i] == rest[0] &&
                 forall j :: 0 <= j < i ==> !(tabs[1..][j].active && tabs[1..][j].windowId == w);
        assert forall j :: 0 < j < i + 1 ==> tabs[j] == tabs[1..][j - 1];
        assert tabs[i + 1] == ActiveIn(tabs, w)[0];
      }
    }
  }

  /** `tabs.query({active: true, currentWindow: true})`. */
  function ActiveTabs(snap: Snapshot): seq<Tab>
  {
    ActiveIn(snap.tabs, snap.currentWindow)
  }

  /** The filters the coordinator applies to a snapshot. */
  datatype Rule =
      /** another tab than `keep` that is highlighted (refresh clean-up) */
    | StaleHighlight(keep: int)
      /** an inactive highlighted tab (`clearAllHighlights` and the message clean-ups) */
    | NonActiveHighlighted
      /** another tab than the active one whose key is `target` */
    | ActiveDuplicate(activeId: int, target: string)
      /** a tab whose key is `target`, unless it is the anchor or suppressed */
    | HoverDuplicate(anchor: Option<int>, suppression: map<int, bool>, target: string)

  /** A tab with a URL whose key is `target`. */
  predicate IsDuplicate(lib: UrlLib, t: Tab, target: string)
  {
    Truthy(t.url) && Normalize(lib, t.url.value) == target
  }

  predicate Selects(lib: UrlLib, rule: Rule, t: Tab)
  {
    match rule
    case StaleHighlight(keep) => t.id != keep && t.highlighted
    case NonActiveHighlighted => !t.active && t.highlighted
    case ActiveDuplicate(activeId, target) => t.id != activeId && IsDuplicate(lib, t, target)
    case HoverDuplicate(anchor, suppression, target) =>
      !(TruthyId(anchor) && t.id == anchor.value) && !Suppressed(suppression, t.id) &&
      IsDuplicate(lib, t, target)
  }

  /** The ids of the tabs the rule selects, in snapshot order. */
  function IdsWhere(lib: UrlLib, tabs: seq<Tab>, rule: Rule): (r: seq<int>)
    ensures |r| <= |tabs|
    decreases |tabs|
  {
    if |tabs| == 0 then []
    else
      var init := IdsWhere(lib, tabs[..|tabs| - 1], rule);
      var last := tabs[|tabs| - 1];
      if Selects(lib, rule, last) then init + [last.id] else init
  }

  /** Extending the snapshot by one tab extends the selection by at most that tab. */
  lemma IdsWherePrefix(lib: UrlLib, tabs: seq<Tab>, i: nat, rule: Rule)
    requires i < |tabs|
    ensures IdsWhere(lib, tabs[..i + 1], rule) ==
            IdsWhere(lib, tabs[..i], rule) + (if Selects(lib, rule, tabs[i]) then [tabs[i].id] else [])
  {
    assert tabs[..i + 1][..i] == tabs[..i];
  }

  /** An id is selected exactly when some tab with that id satisfies the rule. */
  lemma {:induction false} IdsWhereMembers(lib: UrlLib, tabs: seq<Tab>, rule: Rule)
    ensures forall id :: id in IdsWhere(lib, tabs, rule) <==>
                         exists t :: t in tabs && Selects(lib, rule, t) && t.id == id
    decreases |tabs|
  {
    if |tabs| > 0 {
      var init := tabs[..|tabs| - 1];
      IdsWhereMembers(lib, init, rule);
      assert tabs == init + [tabs[|tabs| - 1]];
      assert forall t :: t in tabs <==> t in init || t == tabs[|tabs| - 1];
    }
  }

  /** No element occurs twice. */
  predicate Distinct(s: seq<int>)
  {
    forall i, j :: 0 <= i < j < |s| ==> s[i] != s[j]
  }

  /** With unique tab ids the selection never repeats an id, so its length
      is the number of tabs the rule selects. */
  lemma {:induction false} IdsWhereDistinct(lib: UrlLib, tabs: seq<Tab>, rule: Rule)
    requires UniqueIds(tabs)
    ensures Distinct(IdsWhere(lib, tabs, rule))
    decreases |tabs|
  {
    if |tabs| > 0 {
      var init := tabs[..|tabs| - 1];
      var last := tabs[|tabs| - 1];
      assert UniqueIds(init);
      IdsWhereDistinct(lib, init, rule);
      if Selects(lib, rule, last) {
        IdsWhereMembers(lib, init, rule);
        assert last.id !in IdsWhere(lib, init, rule) by {
          forall t | t in init ensures t.id != last.id {
            var k :| 0 <= k < |init| && init[k] == t;
            assert tabs[k] == t;
          }
        }
        var ids := IdsWhere(lib, init, rule);
        var r := ids + [last.id];
        assert IdsWhere(lib, tabs, rule) == r;
        forall i, j | 0 <= i < j < |r| ensures r[i] != r[j] {
          assert r[i] == ids[i];
          if j == |ids| {
            assert r[j] == last.id && ids[i] in ids;
          } else {
            assert r[j] == ids[j];
          }
        }
      }
    }
  }

  /** One `removeHighlight` request per id, in order. */
  function Unhighlights(ids: seq<int>): (r: seq<Effect>)
    decreases |ids|
  {
    if |ids| == 0 then [] else Unhighlights(ids[..|ids| - 1]) + [Unhighlight(ids[|ids| - 1])]
  }

  /** The request lists have one request per id, at the id's own position. */
  lemma {:induction false} RequestsAt(ids: seq<int>)
    ensures |Highlights(ids)| == |ids| && |Unhighlights(ids)| == |ids|
    ensures forall k :: 0 <= k < |ids| ==> Highlights(ids)[k] == Highlight(ids[k])
    ensures forall k :: 0 <= k < |ids| ==> Unhighlights(ids)[k] == Unhighlight(ids[k])
    decreases |ids|
  {
    if |ids| > 0 {
      RequestsAt(ids[..|ids| - 1]);
    }
  }

  /** Appending an id appends its request. */
  lemma UnhighlightsSnoc(ids: seq<int>, id: int)
    ensures Unhighlights(ids + [id]) == Unhighlights(ids) + [Unhighlight(id)]
  {
    assert (ids + [id])[..|ids|] == ids;
  }

  /** Appending an id appends its request. */
  lemma HighlightsSnoc(ids: seq<int>, id: int)
    ensures Highlights(ids + [id]) == Highlights(ids) + [Highlight(id)]
  {
    assert (ids + [id])[..|ids|] == ids;
  }

  /** One step of the selection loops: the next tab's id is appended, with
      its request, exactly when the rule selects it. */
  lemma WhereStep(lib: UrlLib, tabs: seq<Tab>, i: nat, rule: Rule, ids: seq<int>, selected: bool)
    requires i < |tabs| && ids == IdsWhere(lib, tabs[..i], rule)
    requires selected == Selects(lib, rule, tabs[i])
    ensures selected ==> IdsWhere(lib, tabs[..i + 1], rule) == ids + [tabs[i].id]
    ensures selected ==> Unhighlights(ids + [tabs[i].id]) == Unhighlights(ids) + [Unhighlight(tabs[i].id)]
    ensures selected ==> Highlights(ids + [tabs[i].id]) == Highlights(ids) + [Highlight(tabs[i].id)]
    ensures !selected ==> IdsWhere(lib, tabs[..i + 1], rule) == ids
  {
    IdsWherePrefix(lib, tabs, i, rule);
    UnhighlightsSnoc(ids, tabs[i].id);
    HighlightsSnoc(ids, tabs[i].id);
  }

  /** One `highlightTab` request per id, in order. */
  function Highlights(ids: seq<int>): (r: seq<Effect>)
    decreases |ids|
  {
    if |ids| == 0 then [] else Highlights(ids[..|ids| - 1]) + [Highlight(ids[|ids| - 1])]
  }

  /** The badge: the match count in decimal when there is a match and the
      counter is on, otherwise cleared. */
  function BadgeText(count: nat, showCounter: bool): (r: string)
    ensures count > 0 && showCounter ==> |r| > 0 && AllDigits(r) && r[0] != '0' && DecimalValue(r) == count
    ensures !(count > 0 && showCounter) ==> r == ""
  {
    if count > 0 && showCounter then
      DecimalValueOfNatToString(count);
      NatToString(count)
    else ""
  }

  /** What `highlightDuplicatesOfActiveTab` asks of the browser. */
  function RefreshEffects(lib: UrlLib, snap: Snapshot, showCounter: bool): (r: seq<Effect>)
    ensures r == [] <==> |ActiveTabs(snap)| == 0
    ensures r != [] ==> r[|r| - 1].SetBadge? && r[|r| - 1].tabId == ActiveTabs(snap)[0].id
  {
    var active := ActiveTabs(snap);
    if |active| == 0 then []
    else
      var a := active[0];
      if !IsHttp(a.url) then [SetBadge(a.id, "")]
      else
        var ids := IdsWhere(lib, snap.tabs, ActiveDuplicate(a.id, Normalize(lib, a.url.value)));
        Unhighlights(IdsWhere(lib, snap.tabs, StaleHighlight(a.id))) + Highlights(ids) +
        [SetBadge(a.id, BadgeText(|ids|, showCounter))]
  }

  /** The tab a hover request is matched against: the sender's tab, or the
      active tab when the sender has none or has id 0; 0 and `None` mean
      "no anchor". */
  function Anchor(sender: Option<int>, snap: Snapshot): (r: Option<int>)
    ensures TruthyId(sender) ==> r == sender
    ensures !TruthyId(sender) && |ActiveTabs(snap)| > 0 ==> r == Some(ActiveTabs(snap)[0].id)
    ensures !TruthyId(sender) && |ActiveTabs(snap)| == 0 ==> !TruthyId(r)
  {
    if TruthyId(sender) then sender
    else
      var active := ActiveTabs(snap);
      if |active| > 0 then Some(active[0].id) else sender
  }

  /** The tabs a hover over `url` highlights. */
  function HoverMatches(lib: UrlLib, url: string, sender: Option<int>,
                        suppression: map<int, bool>, snap: Snapshot): (r: seq<int>)
    ensures |r| <= |snap.tabs|
    ensures TruthyId(sender) ==> sender.value !in r
  {
    IdsWhereMembers(lib, snap.tabs, HoverDuplicate(Anchor(sender, snap), suppression, Normalize(lib, url)));
    IdsWhere(lib, snap.tabs, HoverDuplicate(Anchor(sender, snap), suppression, Normalize(lib, url)))
  }

  /** The sender is the active tab of the focused window. */
  predicate SenderIsActive(sender: Option<int>, snap: Snapshot)
  {
    sender.Some? && |ActiveTabs(snap)| > 0 && ActiveTabs(snap)[0].id == sender.value
  }

  /** The race guard of `UNHIGHLIGHT_ALL` and `SUPPRESS_HIGHLIGHT_FOR_TAB`. */
  predicate Honored(sender: Option<int>, snap: Snapshot, now: int, lastTabSwitchTime: int)
  {
    SenderIsActive(sender, snap) || now - lastTabSwitchTime > SwitchGuardMs
  }

  /** The first tab with the given id (`tabs.get`). */
  function FindTab(tabs: seq<Tab>, id: int): (r: Option<Tab>)
    ensures r.Some? ==> r.value in tabs && r.value.id == id
    ensures r.None? ==> forall t :: t in tabs ==> t.id != id
    decreases |tabs|
  {
    if |tabs| == 0 then None
    else if tabs[0].id == id then Some(tabs[0])
    else
      assert forall t :: t in tabs ==> t == tabs[0] || t in tabs[1..];
      FindTab(tabs[1..], id)
  }

  /** The number of `highlightTab` requests among the effects. */
  function CountHighlights(effects: seq<Effect>): (r: nat)
    ensures r <= |effects|
    decreases |effects|
  {
    if |effects| == 0 then 0
    else CountHighlights(effects[..|effects| - 1]) + (if effects[|effects| - 1].Highlight? then 1 else 0)
  }

  lemma {:induction false} CountHighlightsAppend(e1: seq<Effect>, e2: seq<Effect>)
    ensures CountHighlights(e1 + e2) == CountHighlights(e1) + CountHighlights(e2)
    decreases |e2|
  {
    if |e2| == 0 {
      assert e1 + e2 == e1;
    } else {
      CountHighlightsAppend(e1, e2[..|e2| - 1]);
      assert (e1 + e2)[..|e1 + e2| - 1] == e1 + e2[..|e2| - 1];
      assert (e1 + e2)[|e1 + e2| - 1] == e2[|e2| - 1];
    }
  }

  lemma {:induction false} CountHighlightsOf(ids: seq<int>)
    ensures CountHighlights(Highlights(ids)) == |ids|
    ensures CountHighlights(Unhighlights(ids)) == 0
    decreases |ids|
  {
    if |ids| > 0 {
      CountHighlightsOf(ids[..|ids| - 1]);
      RequestsAt(ids);
      assert Highlights(ids)[..|ids| - 1] == Highlights(ids[..|ids| - 1]);
      assert Unhighlights(ids)[..|ids| - 1] == Unhighlights(ids[..|ids| - 1]);
    }
  }

  /** A request for an id is among the effects exactly when the id is. */
  lemma EffectMembers(ids: seq<int>)
    ensures forall x :: Highlight(x) in Highlights(ids) <==> x in ids
    ensures forall x :: Unhighlight(x) in Unhighlights(ids) <==> x in ids
    ensures forall e :: e in Highlights(ids) ==> e.Highlight?
    ensures forall e :: e in Unhighlights(ids) ==> e.Unhighlight?
  {
    RequestsAt(ids);
    forall x | x in ids ensures Highlight(x) in Highlights(ids) && Unhighlight(x) in Unhighlights(ids) {
      var k :| 0 <= k < |ids| && ids[k] == x;
      assert Highlights(ids)[k] == Highlight(x) && Unhighlights(ids)[k] == Unhighlight(x);
    }
  }

  /** With unique ids, a tab's id is selected exactly when the rule selects that tab. */
  lemma SelectedTabs(lib: UrlLib, tabs: seq<Tab>, rule: Rule)
    requires UniqueIds(tabs)
    ensures forall t :: t in tabs ==> (t.id in IdsWhere(lib, tabs, rule) <==> Selects(lib, rule, t))
  {
    IdsWhereMembers(lib, tabs, rule);
    forall t | t in tabs && t.id in IdsWhere(lib, tabs, rule) ensures Selects(lib, rule, t) {
      var u :| u in tabs && Selects(lib, rule, u) && u.id == t.id;
      var i :| 0 <= i < |tabs| && tabs[i] == t;
      var j :| 0 <= j < |tabs| && tabs[j] == u;
      assert i == j;
    }
  }

  /** `clearAllHighlights` and the message clean-ups unhighlight exactly the
      inactive highlighted tabs and request nothing else. */
  lemma ClearOutcome(lib: UrlLib, tabs: seq<Tab>)
    requires UniqueIds(tabs)
    ensures var e := Unhighlights(IdsWhere(lib, tabs, NonActiveHighlighted));
            (forall t :: t in tabs ==> (Unhighlight(t.id) in e <==> !t.active && t.highlighted)) &&
            (forall x :: x in e ==> x.Unhighlight? && exists t :: t in tabs && t.id == x.tabId)
  {
    var ids := IdsWhere(lib, tabs, NonActiveHighlighted);
    SelectedTabs(lib, tabs, NonActiveHighlighted);
    IdsWhereMembers(lib, tabs, NonActiveHighlighted);
    EffectMembers(ids);
    forall x | x in Unhighlights(ids) ensures x.Unhighlight? && exists t :: t in tabs && t.id == x.tabId {
      assert x == Unhighlight(x.tabId) && x.tabId in ids;
    }
  }

  /** The active-tab refresh: nothing without an active tab; only a cleared
      badge for a tab without an http(s) URL; otherwise every other
      highlighted tab is unhighlighted, exactly the other tabs with the same
      key are highlighted, and the badge shows their number. */
  lemma RefreshOutcome(lib: UrlLib, snap: Snapshot, showCounter: bool)
    requires UniqueIds(snap.tabs)
    ensures |ActiveTabs(snap)| == 0 ==> RefreshEffects(lib, snap, showCounter) == []
    ensures |ActiveTabs(snap)| > 0 && !IsHttp(ActiveTabs(snap)[0].url) ==>
              RefreshEffects(lib, snap, showCounter) == [SetBadge(ActiveTabs(snap)[0].id, "")]
    ensures |ActiveTabs(snap)| > 0 && IsHttp(ActiveTabs(snap)[0].url) ==>
              var a := ActiveTabs(snap)[0];
              var e := RefreshEffects(lib, snap, showCounter);
              var target := Normalize(lib, a.url.value);
              (forall t :: t in snap.tabs ==> (Unhighlight(t.id) in e <==> t.id != a.id && t.highlighted)) &&
              (forall t :: t in snap.tabs ==> (Highlight(t.id) in e <==> t.id != a.id && IsDuplicate(lib, t, target))) &&
              (forall x :: Highlight(x) in e ==> exists t :: t in snap.tabs && t.id == x) &&
              |e| > 0 && e[|e| - 1] == SetBadge(a.id, BadgeText(CountHighlights(e), showCounter))
  {
    var active := ActiveTabs(snap);
    if |active| > 0 && IsHttp(active[0].url) {
      var a := active[0];
      var target := Normalize(lib, a.url.value);
      var stale := IdsWhere(lib, snap.tabs, StaleHighlight(a.id));
      var ids := IdsWhere(lib, snap.tabs, ActiveDuplicate(a.id, target));
      var badge := [SetBadge(a.id, BadgeText(|ids|, showCounter))];
      assert Unhighlights(stale) + Highlights(ids) + badge == RefreshEffects(lib, snap, showCounter);
      RefreshMembers(lib, snap.tabs, a.id, target, badge);
      RefreshCount(stale, ids, a.id, BadgeText(|ids|, showCounter));
    }
  }

  /** Which tabs the refresh of an http(s) active tab touches. */
  lemma RefreshMembers(lib: UrlLib, tabs: seq<Tab>, activeId: int, target: string, badge: seq<Effect>)
    requires UniqueIds(tabs)
    requires forall x :: x in badge ==> x.SetBadge?
    ensures var e := Unhighlights(IdsWhere(lib, tabs, StaleHighlight(activeId))) +
                     Highlights(IdsWhere(lib, tabs, ActiveDuplicate(activeId, target))) + badge;
            (forall t :: t in tabs ==> (Unhighlight(t.id) in e <==> t.id != activeId && t.highlighted)) &&
            (forall t :: t in tabs ==> (Highlight(t.id) in e <==> t.id != activeId && IsDuplicate(lib, t, target))) &&
            (forall x :: Highlight(x) in e ==> exists t :: t in tabs && t.id == x)
  {
    var stale := IdsWhere(lib, tabs, StaleHighlight(activeId));
    var ids := IdsWhere(lib, tabs, ActiveDuplicate(activeId, target));
    var e := Unhighlights(stale) + Highlights(ids) + badge;
    SelectedTabs(lib, tabs, StaleHighlight(activeId));
    SelectedTabs(lib, tabs, ActiveDuplicate(activeId, target));
    IdsWhereMembers(lib, tabs, ActiveDuplicate(activeId, target));
    EffectMembers(stale);
    EffectMembers(ids);
    forall x ensures Highlight(x) in e <==> x in ids {
      assert Highlight(x) !in Unhighlights(stale);
      assert Highlight(x) !in badge;
    }
    forall x ensures Unhighlight(x) in e <==> x in stale {
      assert Unhighlight(x) !in Highlights(ids);
      assert Unhighlight(x) !in badge;
    }
  }

  /** The refresh highlights one tab per match and ends with the badge. */
  lemma RefreshCount(stale: seq<int>, ids: seq<int>, activeId: int, text: string)
    ensures var e := Unhighlights(stale) + Highlights(ids) + [SetBadge(activeId, text)];
            CountHighlights(e) == |ids| && e[|e| - 1] == SetBadge(activeId, text)
  {
    var badge := [SetBadge(activeId, text)];
    CountHighlightsAppend(Unhighlights(stale) + Highlights(ids), badge);
    CountHighlightsAppend(Unhighlights(stale), Highlights(ids));
    CountHighlightsOf(stale);
    CountHighlightsOf(ids);
    assert CountHighlights(badge) == 0 by {
      assert badge[..0] == [];
    }
  }

  /** The hover request: a match is never suppressed, never the anchor and
      always a tab of the snapshot with the hovered key; with unique ids the
      matches are exactly those tabs. */
  lemma HoverOutcome(lib: UrlLib, url: string, sender: Option<int>,
                     suppression: map<int, bool>, snap: Snapshot)
    ensures var ids := HoverMatches(lib, url, sender, suppression, snap);
            var anchor := Anchor(sender, snap);
            forall id :: id in ids ==>
              !Suppressed(suppression, id) && !(TruthyId(anchor) && id == anchor.value) &&
              exists t :: t in snap.tabs && t.id == id && IsDuplicate(lib, t, Normalize(lib, url))
    ensures UniqueIds(snap.tabs) ==>
            var ids := HoverMatches(lib, url, sender, suppression, snap);
            var anchor := Anchor(sender, snap);
            forall t :: t in snap.tabs ==>
              (t.id in ids <==> Truthy(t.url) && !(TruthyId(anchor) && t.id == anchor.value) &&
                                !Suppressed(suppression, t.id) && Normalize(lib, t.url.value) == Normalize(lib, url))
  {
    var rule := HoverDuplicate(Anchor(sender, snap), suppression, Normalize(lib, url));
    IdsWhereMembers(lib, snap.tabs, rule);
    if UniqueIds(snap.tabs) {
      SelectedTabs(lib, snap.tabs, rule);
    }
  }

  /** Tab id 0 is no anchor: when the sender's id is 0 and the active tab
      (if any) also has id 0, the sender's own tab is matched like any other. */
  lemma ZeroIdIsNoAnchor(lib: UrlLib, url: string, suppression: map<int, bool>, snap: Snapshot, t: Tab)
    requires |ActiveTabs(snap)| == 0 || ActiveTabs(snap)[0].id == 0
    requires t in snap.tabs && t.id == 0
    requires IsDuplicate(lib, t, Normalize(lib, url)) && !Suppressed(suppression, 0)
    ensures 0 in HoverMatches(lib, url, Some(0), suppression, snap)
  {
    IdsWhereMembers(lib, snap.tabs, HoverDuplicate(Anchor(Some(0), snap), suppression, Normalize(lib, url)));
  }

  /** Two tabs with one key: activating either highlights the other and the
      badge reads "1". */
  lemma TwoDuplicateTabs(lib: UrlLib, a: Tab, b: Tab, w: int)
    requires a.active && a.windowId == w && !b.active && !b.highlighted && a.id != b.id
    requires IsHttp(a.url) && IsDuplicate(lib, b, Normalize(lib, a.url.value))
    ensures RefreshEffects(lib, Snapshot([a, b], w), true) == [Highlight(b.id), SetBadge(a.id, "1")]
  {
    var snap := Snapshot([a, b], w);
    assert ActiveTabs(snap) == [a] + ActiveIn([b], w);
    assert [a, b][..1] == [a] && [a, b][..1][..0] == [];
    var target := Normalize(lib, a.url.value);
    assert IdsWhere(lib, [a], StaleHighlight(a.id)) == [];
    assert IdsWhere(lib, [a, b], StaleHighlight(a.id)) == [];
    assert IdsWhere(lib, [a], ActiveDuplicate(a.id, target)) == [];
    assert IdsWhere(lib, [a, b], ActiveDuplicate(a.id, target)) == [b.id];
    assert Highlights([b.id]) == [Highlight(b.id)] by {
      assert [b.id][..0] == [];
    }
    assert NatToString(1) == "1";
  }

  /** The process-wide state of the background page. */
  class Coordinator {
    /** The URL parser and decoder the key relies on. */
    const lib: UrlLib
    /** `suppressionMap`: tab id to "do not highlight". */
    var suppression: map<int, bool>
    /** Initialised to 0 and never written again. */
    var lastTabSwitchTime: int

    /** What every handler keeps: the switch time is still its initial 0 and
        the only flag ever stored is `true`. */
    ghost predicate Valid()
      reads this
    {
      lastTabSwitchTime == 0 && forall id :: id in suppression ==> suppression[id]
    }

    constructor (lib: UrlLib)
      ensures this.lib == lib && suppression == map[] && lastTabSwitchTime == 0
      ensures Valid()
    {
      this.lib := lib;
      suppression := map[];
      lastTabSwitchTime := 0;
    }

    /** The clean-up loops: one `removeHighlight` per tab the rule selects. */
    method UnhighlightWhere(tabs: seq<Tab>, rule: Rule) returns (effects: seq<Effect>)
      ensures effects == Unhighlights(IdsWhere(lib, tabs, rule))
    {
      effects := [];
      ghost var ids: seq<int> := [];
      var i := 0;
      while i < |tabs|
        invariant 0 <= i <= |tabs|
        invariant ids == IdsWhere(lib, tabs[..i], rule)
        invariant effects == Unhighlights(ids)
      {
        var tab := tabs[i];
        var selected := Selects(lib, rule, tab);
        WhereStep(lib, tabs, i, rule, ids, selected);
        if selected {
          ids := ids + [tab.id];
          effects := effects + [Unhighlight(tab.id)];
        }
        i := i + 1;
      }
      assert tabs[..|tabs|] == tabs;
    }

    /** The matching loops: one `highlightTab` per tab the rule selects, with
        the running `matchCount` and `matchedTabIds`. */
    method HighlightWhere(tabs: seq<Tab>, rule: Rule) returns (effects: seq<Effect>, matchCount: nat, matched: seq<int>)
      ensures matched == IdsWhere(lib, tabs, rule)
      ensures matchCount == |matched|
      ensures effects == Highlights(matched)
    {
      effects := [];
      matchCount := 0;
      matched := [];
      var i := 0;
      while i < |tabs|
        invariant 0 <= i <= |tabs|
        invariant matched == IdsWhere(lib, tabs[..i], rule)
        invariant matchCount == |matched|
        invariant effects == Highlights(matched)
      {
        effects, matchCount, matched := HighlightStep(tabs, i, rule, effects, matchCount, matched);
        i := i + 1;
      }
      assert tabs[..|tabs|] == tabs;
    }

    /** One pass of the matching loop body for `tabs[i]`. */
    method HighlightStep(tabs: seq<Tab>, i: nat, rule: Rule, effects: seq<Effect>, matchCount: nat, matched: seq<int>)
      returns (effects': seq<Effect>, matchCount': nat, matched': seq<int>)
      requires i < |tabs| && matched == IdsWhere(lib, tabs[..i], rule)
      requires matchCount == |matched| && effects == Highlights(matched)
      ensures matched' == IdsWhere(lib, tabs[..i + 1], rule)
      ensures matchCount' == |matched'| && effects' == Highlights(matched')
    {
      var tab := tabs[i];
      var selected := Selects(lib, rule, tab);
      WhereStep(lib, tabs, i, rule, matched, selected);
      effects', matchCount', matched' := effects, matchCount, matched;
      if selected {
        effects' := effects + [Highlight(tab.id)];
        matchCount' := matchCount + 1;
        matched' := matched + [tab.id];
      }
    }

    /** `highlightDuplicatesOfActiveTab` (background.js:59-103). */
    method RefreshForActiveTab(snap: Snapshot, showCounter: bool) returns (effects: seq<Effect>)
      ensures effects == RefreshEffects(lib, snap, showCounter)
    {
      var activeTabs := ActiveTabs(snap);
      if |activeTabs| == 0 {
        return [];
      }
      var activeTab := activeTabs[0];
      if !IsHttp(activeTab.url) {
        return [SetBadge(activeTab.id, "")];
      }
      var targetHref := Normalize(lib, activeTab.url.value);
      effects := UnhighlightWhere(snap.tabs, StaleHighlight(activeTab.id));
      var highlights, matchCount, matched := HighlightWhere(snap.tabs, ActiveDuplicate(activeTab.id, targetHref));
      effects := effects + highlights;
      if matchCount > 0 && showCounter {
        effects := effects + [SetBadge(activeTab.id, NatToString(matchCount))];
      } else {
        effects := effects + [SetBadge(activeTab.id, "")];
      }
    }

    /** `clearAllHighlights` (background.js:105-109): every inactive
        highlighted tab loses its highlight. */
    method ClearAllHighlights(snap: Snapshot) returns (effects: seq<Effect>)
      ensures effects == Unhighlights(IdsWhere(lib, snap.tabs, NonActiveHighlighted))
    {
      effects := UnhighlightWhere(snap.tabs, NonActiveHighlighted);
    }

    /** The `highlightTab` message (background.js:142-189): clear the inactive
        highlights, then highlight and report every other matching tab that
        is not suppressed. */
    method HandleHighlightTab(url: Option<string>, sender: Option<int>, snap: Snapshot)
      returns (effects: seq<Effect>, reply: Reply)
      ensures !Truthy(url) ==> effects == [] && reply == NoReply
      ensures Truthy(url) ==>
        var ids := HoverMatches(lib, url.value, sender, suppression, snap);
        effects == Unhighlights(IdsWhere(lib, snap.tabs, NonActiveHighlighted)) + Highlights(ids) &&
        reply == Matches(|ids|, ids)
    {
      if !Truthy(url) {
        return [], NoReply;
      }
      effects := UnhighlightWhere(snap.tabs, NonActiveHighlighted);
      var targetHref := Normalize(lib, url.value);
      var activeTabId := sender;
      if !TruthyId(activeTabId) {
        var activeTabs := ActiveTabs(snap);
        if |activeTabs| > 0 {
          activeTabId := Some(activeTabs[0].id);
        }
      }
      var highlights, matchCount, matched :=
        HighlightWhere(snap.tabs, HoverDuplicate(activeTabId, suppression, targetHref));
      effects := effects + highlights;
      reply := Matches(matchCount, matched);
    }

    /** The `removeHighlight` message (background.js:191-201): clear the
        inactive highlights and the sender's badge, then refresh. */
    method HandleRemoveHighlight(sender: Option<int>, snap: Snapshot, showCounter: bool)
      returns (effects: seq<Effect>)
      ensures effects == Unhighlights(IdsWhere(lib, snap.tabs, NonActiveHighlighted)) +
                         (if sender.Some? then [SetBadge(sender.value, "")] else []) +
                         RefreshEffects(lib, snap, showCounter)
    {
      effects := ClearAllHighlights(snap);
      if sender.Some? {
        effects := effects + [SetBadge(sender.value, "")];
      }
      var refresh := RefreshForActiveTab(snap, showCounter);
      effects := effects + refresh;
    }

    /** The `UNHIGHLIGHT_ALL` message (background.js:203-225). */
    method HandleUnhighlightAll(sender: Option<int>, snap: Snapshot, now: int)
      returns (effects: seq<Effect>)
      ensures Honored(sender, snap, now, lastTabSwitchTime) ==>
                effects == Unhighlights(IdsWhere(lib, snap.tabs, NonActiveHighlighted))
      ensures !Honored(sender, snap, now, lastTabSwitchTime) ==> effects == []
      ensures Valid() && now > SwitchGuardMs ==>
                effects == Unhighlights(IdsWhere(lib, snap.tabs, NonActiveHighlighted))
    {
      var isActiveTab := false;
      if sender.Some? {
        var activeTabs := ActiveTabs(snap);
        if |activeTabs| > 0 && activeTabs[0].id == sender.value {
          isActiveTab := true;
        }
      }
      if isActiveTab || now - lastTabSwitchTime > SwitchGuardMs {
        effects := ClearAllHighlights(snap);
      } else {
        effects := [];
      }
    }

    /** The `SUPPRESS_HIGHLIGHT_FOR_TAB` message (background.js:226-241): when
        the guard passes and there is a sender tab, flag it and clear. */
    method HandleSuppress(sender: Option<int>, snap: Snapshot, now: int)
      returns (effects: seq<Effect>)
      requires Valid()
      modifies this
      ensures Valid() && lastTabSwitchTime == old(lastTabSwitchTime)
      ensures Honored(sender, snap, now, lastTabSwitchTime) && sender.Some? ==>
                suppression == old(suppression)[sender.value := true] &&
                effects == Unhighlights(IdsWhere(lib, snap.tabs, NonActiveHighlighted))
      ensures !(Honored(sender, snap, now, lastTabSwitchTime) && sender.Some?) ==>
                suppression == old(suppression) && effects == []
    {
      var isActiveTab := false;
      if sender.Some? {
        var activeTabs := ActiveTabs(snap);
        if |activeTabs| > 0 && activeTabs[0].id == sender.value {
          isActiveTab := true;
        }
      }
      effects := [];
      if isActiveTab || now - lastTabSwitchTime > SwitchGuardMs {
        if sender.Some? {
          suppression := suppression[sender.value := true];
          effects := ClearAllHighlights(snap);
        }
      }
    }

    /** The `SWITCH_TO_TAB` message (background.js:242-249): activate the tab,
        then focus its window once the tab is found. */
    method HandleSwitchToTab(tabId: Option<int>, snap: Snapshot) returns (effects: seq<Effect>)
      ensures !TruthyId(tabId) ==> effects == []
      ensures TruthyId(tabId) && FindTab(snap.tabs, tabId.value).None? ==> effects == [Activate(tabId.value)]
      ensures TruthyId(tabId) && FindTab(snap.tabs, tabId.value).Some? ==>
                effects == [Activate(tabId.value), FocusWindow(FindTab(snap.tabs, tabId.value).value.windowId)]
    {
      effects := [];
      if TruthyId(tabId) {
        effects := [Activate(tabId.value)];
        var tab := FindTab(snap.tabs, tabId.value);
        if tab.Some? {
          effects := effects + [FocusWindow(tab.value.windowId)];
        }
      }
    }

    /** The `runtime.onMessage` listener (background.js:140-254). */
    method OnMessage(msg: Message, sender: Option<int>, snap: Snapshot, showCounter: bool, now: int)
      returns (effects: seq<Effect>, reply: Reply)
      requires Valid()
      modifies this
      ensures Valid() && lastTabSwitchTime == old(lastTabSwitchTime)
      ensures forall id :: Suppressed(old(suppression), id) ==> Suppressed(suppression, id)
      ensures !msg.SuppressHighlightForTabMsg? ==> suppression == old(suppression)
      ensures !msg.HighlightTabMsg? ==> reply == NoReply
      ensures msg.HighlightTabMsg? && Truthy(msg.url) ==>
                var ids := HoverMatches(lib, msg.url.value, sender, old(suppression), snap);
                effects == Unhighlights(IdsWhere(lib, snap.tabs, NonActiveHighlighted)) + Highlights(ids) &&
                reply == Matches(|ids|, ids)
      ensures msg.HighlightTabMsg? && !Truthy(msg.url) ==> effects == [] && reply == NoReply
      ensures msg.RemoveHighlightMsg? ==>
                effects == Unhighlights(IdsWhere(lib, snap.tabs, NonActiveHighlighted)) +
                           (if sender.Some? then [SetBadge(sender.value, "")] else []) +
                           RefreshEffects(lib, snap, showCounter)
      ensures msg.UnhighlightAllMsg? || msg.SuppressHighlightForTabMsg? ==>
                effects == if Honored(sender, snap, now, lastTabSwitchTime) && (msg.UnhighlightAllMsg? || sender.Some?)
                           then Unhighlights(IdsWhere(lib, snap.tabs, NonActiveHighlighted)) else []
      ensures msg.SuppressHighlightForTabMsg? ==>
                suppression == if Honored(sender, snap, now, lastTabSwitchTime) && sender.Some?
                               then old(suppression)[sender.value := true] else old(suppression)
      ensures msg.SwitchToTabMsg? ==>
                effects == if !TruthyId(msg.tabId) then []
                           else [Activate(msg.tabId.value)] +
                                match FindTab(snap.tabs, msg.tabId.value)
                                case Some(t) => [FocusWindow(t.windowId)]
                                case None => []
      ensures msg.UnknownMsg? ==> effects == []
    {
      reply := NoReply;
      match msg
      case HighlightTabMsg(url) =>
        effects, reply := HandleHighlightTab(url, sender, snap);
      case RemoveHighlightMsg =>
        effects := HandleRemoveHighlight(sender, snap, showCounter);
      case UnhighlightAllMsg =>
        effects := HandleUnhighlightAll(sender, snap, now);
      case SuppressHighlightForTabMsg =>
        effects := HandleSuppress(sender, snap, now);
      case SwitchToTabMsg(tabId) =>
        effects := HandleSwitchToTab(tabId, snap);
      case UnknownMsg =>
        effects := [];
    }

    /** `tabs.onActivated` (background.js:112-121): forget the activated
        tab's suppression flag, then refresh after the debounce. */
    method OnActivated(tabId: int) returns (effects: seq<Effect>)
      requires Valid()
      modifies this
      ensures Valid() && lastTabSwitchTime == old(lastTabSwitchTime)
      ensures suppression == old(suppression) - {tabId}
      ensures !Suppressed(suppression, tabId)
      ensures forall id :: id != tabId ==> (Suppressed(suppression, id) <==> Suppressed(old(suppression), id))
      ensures forall id :: id != tabId ==> (id in suppression <==> id in old(suppression))
      ensures forall id :: id != tabId && id in suppression ==> suppression[id] == old(suppression)[id]
      ensures effects == [ScheduleRefresh(RefreshDelayMs)]
    {
      suppression := suppression - {tabId};
      effects := [ScheduleRefresh(RefreshDelayMs)];
    }

    /** `tabs.onUpdated` (background.js:123-131): a finished load or a new URL
        on the active tab schedules a refresh. */
    method OnUpdated(status: Option<string>, changedUrl: Option<string>, tab: Tab)
      returns (effects: seq<Effect>)
      ensures effects == [ScheduleRefresh(RefreshDelayMs)] <==>
                (status == Some("complete") || Truthy(changedUrl)) && tab.active
      ensures effects == [] || effects == [ScheduleRefresh(RefreshDelayMs)]
    {
      effects := [];
      if status == Some("complete") || Truthy(changedUrl) {
        if tab.active {
          effects := [ScheduleRefresh(RefreshDelayMs)];
        }
      }
    }

    /** `storage.onChanged` in the background page (background.js:134-138): a
        change to `showCounter` in local storage refreshes at once. */
    method OnStorageChanged(area: string, showCounterChanged: bool, snap: Snapshot, showCounter: bool)
      returns (effects: seq<Effect>)
      ensures area == "local" && showCounterChanged ==> effects == RefreshEffects(lib, snap, showCounter)
      ensures !(area == "local" && showCounterChanged) ==> effects == []
    {
      effects := [];
      if area == "local" && showCounterChanged {
        effects := RefreshForActiveTab(snap, showCounter);
      }
    }
  }
}
