/**
  The tab list of browser/tabs.py (`Tabs`, a QTabWidget subclass).

  The widget is a value: the ordered tabs, the current index (-1 when there
  are none, as Qt reports it) and the next fresh WebView identity. Each tab
  holds what the code reads from its WebView: the URL, the page title, the
  text shown on the tab, the tab icon, and whether the view still has a page.

  Qt signals become data. An operation that makes Qt emit `currentChanged`
  (which `_on_tab_changed` turns into `current_url_changed`), that gives a
  view a different URL with `setUrl` (Qt emits the view's `urlChanged` at
  once, which `_on_url_changed` passes on), or that emits `last_tab_closed`
  returns the emitted signals in order next to the new widget. Handlers
  that write history or favicons take the store and return the new one.
*/
module Tabs {
  import opened Wrappers
  import opened Settings
  import opened History

  /** The identity of a WebView; comparing views is comparing these. */
  type ViewId = nat

  datatype Tab = Tab(
    view: ViewId,
    url: string,
    pageTitle: string,
    text: string,
    icon: Option<Icon>,
    hasPage: bool)

  datatype TabWidget = TabWidget(tabs: seq<Tab>, current: int, nextView: ViewId)

  /** What the widget emits: `current_url_changed(url)` and `last_tab_closed()`. */
  datatype Signal = CurrentUrlChanged(url: string) | LastTabClosed

  /** A widget after an operation, with the signals emitted on the way. */
  datatype Outcome = Outcome(widget: TabWidget, signals: seq<Signal>)

  /**
    The current index is -1 exactly when there are no tabs and otherwise
    names a tab; every tab has its own view, older than `nextView`.
  */
  predicate Valid(w: TabWidget) {
    && (if |w.tabs| == 0 then w.current == -1 else 0 <= w.current < |w.tabs|)
    && (forall i :: 0 <= i < |w.tabs| ==> w.tabs[i].view < w.nextView)
    && (forall i, j :: 0 <= i < j < |w.tabs| ==> w.tabs[i].view != w.tabs[j].view)
  }

  /** `self.widget(index)`: the tab at `index`, or nothing when out of range. */
  function WidgetAt(w: TabWidget, index: int): (r: Option<Tab>)
    ensures r.Some? <==> 0 <= index < |w.tabs|
    ensures r.Some? ==> r.value == w.tabs[index]
  {
    if 0 <= index < |w.tabs| then Some(w.tabs[index]) else None
  }

  /** `get_current_web_view`. */
  function CurrentView(w: TabWidget): (r: Option<Tab>)
    requires Valid(w)
    ensures r.None? <==> |w.tabs| == 0
    ensures r.Some? ==> r.value == w.tabs[w.current]
  {
    WidgetAt(w, w.current)
  }

  /** The loop `for i in range(self.count()): if self.widget(i) == web_view`: the first tab showing `view`. */
  function FindTab(tabs: seq<Tab>, view: ViewId): (r: Option<nat>)
    ensures r.Some? ==> r.value < |tabs| && tabs[r.value].view == view
    ensures r.Some? ==> forall j :: 0 <= j < r.value ==> tabs[j].view != view
    ensures r.None? ==> forall j :: 0 <= j < |tabs| ==> tabs[j].view != view
  {
    if |tabs| == 0 then None
    else if tabs[0].view == view then Some(0)
    else
      match FindTab(tabs[1..], view)
      case None => None
      case Some(i) => Some(i + 1)
  }

  // ---------------------------------------------------------------------------
  // Tab titles

  /**
    The text shown on a tab: a title longer than 30 characters is cut to its
    first 30 and "..." is added; a shorter one is shown as it is; an empty
    one becomes "Untitled".
  */
  function DisplayTitle(title: string): (r: string)
    ensures 0 < |r| <= 33
    ensures title == "" ==> r == "Untitled"
    ensures 0 < |title| <= 30 ==> r == title
    ensures |title| > 30 ==> |r| == 33 && r[..30] == title[..30] && r[30..] == "..."
  {
    var shown := if |title| > 30 then title[..30] + "..." else title;
    if shown == "" then "Untitled" else shown
  }

  /**
    `_update_tab_title`: the first tab showing `view` gets the display form
    of `title`; nothing else changes, and nothing at all when no tab shows
    `view` (a late event from a closed view).
  */
  function UpdateTabTitle(w: TabWidget, view: ViewId, title: string): (r: TabWidget)
    requires Valid(w)
    ensures Valid(r) && r.current == w.current && r.nextView == w.nextView
    ensures |r.tabs| == |w.tabs|
    ensures FindTab(w.tabs, view).None? ==> r == w
    ensures FindTab(w.tabs, view).Some? ==>
      var i := FindTab(w.tabs, view).value;
      && r.tabs[i] == w.tabs[i].(text := DisplayTitle(title))
      && forall j :: 0 <= j < |w.tabs| && j != i ==> r.tabs[j] == w.tabs[j]
  {
    match FindTab(w.tabs, view)
    case None => w
    case Some(i) => w.(tabs := w.tabs[i := w.tabs[i].(text := DisplayTitle(title))])
  }

  /** `loadStarted` on a view: its tab reads "Loading...". */
  function OnLoadStarted(w: TabWidget, view: ViewId): (r: TabWidget)
    requires Valid(w)
    ensures Valid(r) && |r.tabs| == |w.tabs|
    ensures FindTab(w.tabs, view).Some? ==> r.tabs[FindTab(w.tabs, view).value].text == "Loading..."
  {
    UpdateTabTitle(w, view, "Loading...")
  }

  // ---------------------------------------------------------------------------
  // Switching, creating and closing tabs

  /** `_on_tab_changed`: the URL of the view at `index`, when there is one. */
  function OnTabChanged(w: TabWidget, index: int): (r: seq<Signal>)
    ensures 0 <= index < |w.tabs| ==> r == [CurrentUrlChanged(w.tabs[index].url)]
    ensures !(0 <= index < |w.tabs|) ==> r == []
  {
    match WidgetAt(w, index)
    case Some(t) => [CurrentUrlChanged(t.url)]
    case None => []
  }

  /**
    Qt's `setCurrentIndex`: an index in range that differs from the current
    one becomes current and `currentChanged` fires; anything else is ignored.
  */
  function SetCurrentIndex(w: TabWidget, index: int): (r: Outcome)
    requires Valid(w)
    ensures Valid(r.widget) && r.widget.tabs == w.tabs && r.widget.nextView == w.nextView
    ensures 0 <= index < |w.tabs| ==> r.widget.current == index
    ensures !(0 <= index < |w.tabs|) ==> r.widget == w
    ensures 0 <= index < |w.tabs| && index != w.current ==> r.signals == [CurrentUrlChanged(w.tabs[index].url)]
    ensures !(0 <= index < |w.tabs|) || index == w.current ==> r.signals == []
  {
    if 0 <= index < |w.tabs| && index != w.current then
      var next := w.(current := index);
      Outcome(next, OnTabChanged(next, index))
    else
      Outcome(w, [])
  }

  /** A non-empty Python string is truthy; `None` is not. */
  predicate Truthy(s: Option<string>) {
    s.Some? && s.value != ""
  }

  /**
    `create_new_tab`: a new view opens the given URL, or the homepage when
    the URL is missing or empty; its tab is appended at the end, reads
    "New Tab" and becomes current, which reports its URL once.
  */
  function CreateNewTab(w: TabWidget, url: Option<string>, cfg: Config): (r: Outcome)
    requires Valid(w)
    ensures Valid(r.widget)
    ensures |r.widget.tabs| == |w.tabs| + 1
    ensures r.widget.tabs[..|w.tabs|] == w.tabs
    ensures r.widget.current == |w.tabs|
    ensures var t := r.widget.tabs[|w.tabs|];
      && t.url == (if Truthy(url) then url.value else cfg.homepage)
      && t.text == "New Tab" && t.hasPage
      && (forall j :: 0 <= j < |w.tabs| ==> w.tabs[j].view != t.view)
      && r.signals == [CurrentUrlChanged(t.url)]
  {
    var target := if Truthy(url) then url.value else cfg.homepage;
    var added := AddTab(w, Tab(w.nextView, target, "", "New Tab", None, true));
    var selected := SetCurrentIndex(added.widget, |w.tabs|);
    Outcome(selected.widget, added.signals + selected.signals)
  }

  /**
    Qt's `addTab`: the tab goes at the end; a tab added to an empty widget
    becomes current at once, which fires `currentChanged`.
  */
  function AddTab(w: TabWidget, tab: Tab): (r: Outcome)
    requires Valid(w) && tab.view == w.nextView
    ensures Valid(r.widget) && r.widget.nextView == w.nextView + 1
    ensures r.widget.tabs == w.tabs + [tab]
    ensures |w.tabs| == 0 ==> r.widget.current == 0 && r.signals == [CurrentUrlChanged(tab.url)]
    ensures |w.tabs| > 0 ==> r.widget.current == w.current && r.signals == []
  {
    var current := if |w.tabs| == 0 then 0 else w.current;
    var next := TabWidget(w.tabs + [tab], current, w.nextView + 1);
    Outcome(next, if |w.tabs| == 0 then OnTabChanged(next, 0) else [])
  }

  /** `_tab_open_doubleclick`: a double click beside the tabs (index -1) opens a new tab. */
  function OnTabBarDoubleClicked(w: TabWidget, index: int, cfg: Config): (r: Outcome)
    requires Valid(w)
    ensures Valid(r.widget)
    ensures index == -1 ==> |r.widget.tabs| == |w.tabs| + 1 && r.widget.current == |w.tabs|
    ensures index != -1 ==> r == Outcome(w, [])
  {
    if index == -1 then CreateNewTab(w, None, cfg) else Outcome(w, [])
  }

  /**
    The current index Qt picks after `removeTab(index)` (QTabBar's default,
    select the tab to the right): a tab before the current one shifts it
    down by one; removing the current tab selects the tab that took its
    place, or the new last tab; -1 once none are left.
  */
  function CurrentAfterRemoval(current: int, index: int, remaining: nat): (r: int)
    ensures remaining == 0 ==> r == -1
    ensures remaining > 0 && 0 <= current <= remaining && 0 <= index <= remaining ==> 0 <= r < remaining
    ensures remaining > 0 && index < current ==> r == current - 1
    ensures remaining > 0 && index > current ==> r == current
    ensures remaining > 0 && index == current && index < remaining ==> r == index
    ensures remaining > 0 && index == current && index >= remaining ==> r == remaining - 1
  {
    if remaining == 0 then -1
    else if index < current then current - 1
    else if index == current then (if index < remaining then index else remaining - 1)
    else current
  }

  /**
    Qt's `removeTab(index)` together with the `current_url_changed` that
    `_on_tab_changed` emits when the current index moves: exactly the tab at
    `index` goes, the others keep their order, and the tab that was current
    stays current unless it is the one removed.
  */
  function RemoveTab(w: TabWidget, index: int): (r: Outcome)
    requires Valid(w) && 0 <= index < |w.tabs|
    ensures Valid(r.widget) && r.widget.nextView == w.nextView
    ensures |r.widget.tabs| == |w.tabs| - 1
    ensures forall j :: 0 <= j < index ==> r.widget.tabs[j] == w.tabs[j]
    ensures forall j :: index <= j < |r.widget.tabs| ==> r.widget.tabs[j] == w.tabs[j + 1]
    ensures forall j :: 0 <= j < |r.widget.tabs| ==> r.widget.tabs[j].view != w.tabs[index].view
    ensures index != w.current ==> r.widget.tabs[r.widget.current] == w.tabs[w.current]
    ensures index == w.current && index + 1 < |w.tabs| ==> r.widget.tabs[r.widget.current] == w.tabs[index + 1]
    ensures index == w.current && index + 1 == |w.tabs| && index > 0 ==> r.widget.tabs[r.widget.current] == w.tabs[index - 1]
    ensures index <= w.current && |r.widget.tabs| > 0 ==> r.signals == [CurrentUrlChanged(r.widget.tabs[r.widget.current].url)]
    ensures index > w.current || |r.widget.tabs| == 0 ==> r.signals == []
  {
    var tabs := w.tabs[..index] + w.tabs[index + 1..];
    var current := CurrentAfterRemoval(w.current, index, |tabs|);
    var next := TabWidget(tabs, current, w.nextView);
    assert forall j :: 0 <= j < index ==> tabs[j] == w.tabs[j];
    assert forall j :: index <= j < |tabs| ==> tabs[j] == w.tabs[j + 1];
    var signals := if index <= w.current then OnTabChanged(next, current) else [];
    Outcome(next, signals)
  }

  /**
    `close_tab(index)`. With one tab (or none) and `close_after_last_tab`
    off, the tab is kept and sent to the homepage, which reports the URL
    change when it is a change. With one tab (or none)
    and the flag on, the tab is removed and `last_tab_closed` is emitted
    once, unless its view has no page, which stops everything. With more
    tabs, the tab at `index` is removed unless its view has no page. An
    index with no tab removes nothing.
  */
  function CloseTab(w: TabWidget, index: int, cfg: Config): (r: Outcome)
    requires Valid(w)
    ensures Valid(r.widget) && r.widget.nextView == w.nextView
    ensures |w.tabs| <= 1 && !cfg.closeAfterLastTab ==>
      && r.signals == (if 0 <= index < |w.tabs| && w.tabs[index].url != cfg.homepage then [CurrentUrlChanged(cfg.homepage)] else [])
      && r.widget.current == w.current
      && |r.widget.tabs| == |w.tabs|
      && (0 <= index < |w.tabs| ==> r.widget.tabs[index] == w.tabs[index].(url := cfg.homepage))
      && (!(0 <= index < |w.tabs|) ==> r.widget == w)
    ensures |w.tabs| <= 1 && cfg.closeAfterLastTab ==>
      if 0 <= index < |w.tabs| && !w.tabs[index].hasPage then r == Outcome(w, [])
      else
        && r.signals == [LastTabClosed]
        && (0 <= index < |w.tabs| ==> |r.widget.tabs| == 0 && r.widget.current == -1)
        && (!(0 <= index < |w.tabs|) ==> r.widget == w)
    ensures |w.tabs| > 1 ==>
      if 0 <= index < |w.tabs| && w.tabs[index].hasPage then r == RemoveTab(w, index)
      else r == Outcome(w, [])
  {
    if |w.tabs| <= 1 then
      if !cfg.closeAfterLastTab then
        match WidgetAt(w, index)
        case Some(t) =>
          var next := w.(tabs := w.tabs[index := t.(url := cfg.homepage)]);
          Outcome(next, if t.url != cfg.homepage then OnUrlChanged(next, t.view, cfg.homepage) else [])
        case None => Outcome(w, [])
      else
        match WidgetAt(w, index)
        case Some(t) =>
          if !t.hasPage then Outcome(w, [])
          else
            var removed := RemoveTab(w, index);
            Outcome(removed.widget, removed.signals + [LastTabClosed])
        case None => Outcome(w, [LastTabClosed])
    else
      match WidgetAt(w, index)
      case Some(t) => if !t.hasPage then Outcome(w, []) else RemoveTab(w, index)
      case None => Outcome(w, [])
  }

  /**
    `navigate_current_tab`: the current view opens `url`; without one nothing
    happens. A view whose URL changes reports it, and as it is the current
    view the change reaches `current_url_changed`.
  */
  function NavigateCurrentTab(w: TabWidget, url: string): (r: Outcome)
    requires Valid(w)
    ensures Valid(r.widget) && r.widget.current == w.current && |r.widget.tabs| == |w.tabs|
    ensures r.widget.nextView == w.nextView
    ensures |w.tabs| == 0 ==> r == Outcome(w, [])
    ensures |w.tabs| > 0 ==>
      && r.widget.tabs[w.current] == w.tabs[w.current].(url := url)
      && (forall j :: 0 <= j < |w.tabs| && j != w.current ==> r.widget.tabs[j] == w.tabs[j])
      && r.signals == (if w.tabs[w.current].url != url then [CurrentUrlChanged(url)] else [])
  {
    match CurrentView(w)
    case Some(t) =>
      var next := w.(tabs := w.tabs[w.current := t.(url := url)]);
      Outcome(next, if t.url != url then OnUrlChanged(next, t.view, url) else [])
    case None => Outcome(w, [])
  }

  /** Navigating the current tab to the URL it already has changes nothing and reports nothing. */
  lemma NavigateAgainIsQuiet(w: TabWidget, url: string)
    requires Valid(w)
    ensures var once := NavigateCurrentTab(w, url).widget;
      NavigateCurrentTab(once, url) == Outcome(once, [])
  {
  }

  // ---------------------------------------------------------------------------
  // Events from the rendering engine

  /**
    `_on_url_changed`: a URL change is passed on only when it comes from the
    current view.
  */
  function OnUrlChanged(w: TabWidget, sender: ViewId, url: string): (r: seq<Signal>)
    requires Valid(w)
    ensures r == [] || r == [CurrentUrlChanged(url)]
    ensures r != [] <==> |w.tabs| > 0 && w.tabs[w.current].view == sender
  {
    match CurrentView(w)
    case Some(t) => if t.view == sender then [CurrentUrlChanged(url)] else []
    case None => []
  }

  /**
    `_on_load_finished`: whichever view finished (the handler is not told),
    it is the CURRENT view whose tab title is refreshed from its page title
    and whose page is recorded in the history; without a current view or
    page nothing happens.
  */
  function OnLoadFinished(w: TabWidget, tools: UrlTools, h: HistoryStore, now: Instant): (r: (TabWidget, HistoryStore))
    requires Valid(w)
    ensures Valid(r.0) && |r.0.tabs| == |w.tabs| && r.0.current == w.current
    ensures |w.tabs| == 0 || !w.tabs[w.current].hasPage ==> r == (w, h)
    ensures |w.tabs| > 0 && w.tabs[w.current].hasPage ==>
      var t := w.tabs[w.current];
      && r.0.tabs[w.current] == t.(text := DisplayTitle(t.pageTitle))
      && (forall j :: 0 <= j < |w.tabs| && j != w.current ==> r.0.tabs[j] == w.tabs[j])
      && r.1 == AppendToHistory(tools, h, t.url, t.pageTitle, now)
  {
    match CurrentView(w)
    case None => (w, h)
    case Some(t) =>
      if !t.hasPage then (w, h)
      else
        assert FindTab(w.tabs, t.view) == Some(w.current);
        (UpdateTabTitle(w, t.view, t.pageTitle), AppendToHistory(tools, h, t.url, t.pageTitle, now))
  }

  /**
    `_update_tab_icon`: the first tab showing `view` shows `icon`, and when
    that view has a page the icon is written to the favicon cache for the
    page's URL (`pageIcon` is the page's own icon, used when `icon` is null).
  */
  function UpdateTabIcon(w: TabWidget, view: ViewId, icon: Icon, pageIcon: Icon, tools: UrlTools, m: FaviconStore, nowIso: string): (r: (TabWidget, FaviconStore))
    requires Valid(w)
    ensures Valid(r.0) && |r.0.tabs| == |w.tabs| && r.0.current == w.current
    ensures FindTab(w.tabs, view).None? ==> r == (w, m)
    ensures FindTab(w.tabs, view).Some? ==>
      var i := FindTab(w.tabs, view).value;
      && r.0.tabs[i] == w.tabs[i].(icon := Some(icon))
      && (forall j :: 0 <= j < |w.tabs| && j != i ==> r.0.tabs[j] == w.tabs[j])
      && r.1 == (if w.tabs[i].hasPage then AppendToFavicons(tools, m, w.tabs[i].url, Some(icon), pageIcon, nowIso) else m)
  {
    match FindTab(w.tabs, view)
    case None => (w, m)
    case Some(i) =>
      var t := w.tabs[i];
      var favicons := if t.hasPage then AppendToFavicons(tools, m, t.url, Some(icon), pageIcon, nowIso) else m;
      (w.(tabs := w.tabs[i := t.(icon := Some(icon))]), favicons)
  }

  // ---------------------------------------------------------------------------
  // Properties across operations

  /** Opening a tab and closing it again leaves the tab list as it was. */
  lemma CloseUndoesCreate(w: TabWidget, url: Option<string>, cfg: Config)
    requires Valid(w) && |w.tabs| > 0
    ensures var created := CreateNewTab(w, url, cfg).widget;
      CloseTab(created, |w.tabs|, cfg).widget.tabs == w.tabs
  {
    var created := CreateNewTab(w, url, cfg).widget;
    var closed := CloseTab(created, |w.tabs|, cfg).widget;
    assert closed.tabs == created.tabs[..|w.tabs|];
  }

  /**
    Closing the only tab with `close_after_last_tab` off keeps one tab, now
    on the homepage, and `current_url_changed` reports the homepage unless
    the tab was on it already; with it on, no tab is left and `last_tab_closed` fires
    exactly once.
  */
  lemma ClosingTheLastTab(w: TabWidget, cfg: Config)
    requires Valid(w) && |w.tabs| == 1 && w.tabs[0].hasPage
    ensures var r := CloseTab(w, 0, cfg);
      if cfg.closeAfterLastTab then |r.widget.tabs| == 0 && r.signals == [LastTabClosed]
      else
        && |r.widget.tabs| == 1 && r.widget.tabs[0].url == cfg.homepage
        && r.signals == (if w.tabs[0].url != cfg.homepage then [CurrentUrlChanged(cfg.homepage)] else [])
  {
  }

  /** A background tab's URL change never reaches the address bar; the current tab's always does. */
  lemma OnlyCurrentViewReportsUrl(w: TabWidget, i: int, url: string)
    requires Valid(w) && 0 <= i < |w.tabs|
    ensures i == w.current ==> OnUrlChanged(w, w.tabs[i].view, url) == [CurrentUrlChanged(url)]
    ensures i != w.current ==> OnUrlChanged(w, w.tabs[i].view, url) == []
  {
  }
}
