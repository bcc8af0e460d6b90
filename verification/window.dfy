/**
  The navigation rules of the browser window (browser/window.py): cycling
  through tabs, closing the current one, opening a new one, and turning what
  the user typed into a URL for the current tab.

  The window is its tab widget together with the address-bar text. The
  window's calls go to the tab logic of the `Tabs` module; every
  `current_url_changed` the widget emits sets the address bar, as the
  window's `update_url` does.
*/
module Window {
  import opened Wrappers
  import opened Text
  import opened Settings
  import opened Tabs

  datatype Browser = Browser(tabs: TabWidget, addressBar: string)

  /** No `current_url_changed` at position `from` or later. */
  predicate NoUrlFrom(signals: seq<Signal>, from: int) {
    forall k :: from <= k < |signals| && 0 <= k ==> !signals[k].CurrentUrlChanged?
  }

  /**
    The address-bar text after `update_url` has run for every
    `current_url_changed` in `signals`: the URL of the last one, or the old
    text when there is none.
  */
  function ShowUrl(bar: string, signals: seq<Signal>): (r: string)
    ensures NoUrlFrom(signals, 0) ==> r == bar
    ensures forall i :: 0 <= i < |signals| && signals[i].CurrentUrlChanged? && NoUrlFrom(signals, i + 1) ==>
              r == signals[i].url
    decreases |signals|
  {
    if |signals| == 0 then bar
    else
      var last := signals[|signals| - 1];
      if last.CurrentUrlChanged? then last.url else ShowUrl(bar, signals[..|signals| - 1])
  }

  /** The window after the widget produced `o`. */
  function Deliver(b: Browser, o: Outcome): (r: Browser)
    ensures r.tabs == o.widget
    ensures NoUrlFrom(o.signals, 0) ==> r.addressBar == b.addressBar
    ensures |o.signals| > 0 && o.signals[|o.signals| - 1].CurrentUrlChanged? ==>
              r.addressBar == o.signals[|o.signals| - 1].url
  {
    Browser(o.widget, ShowUrl(b.addressBar, o.signals))
  }

  /**
    Python's `a % n` for a positive `n`: the remainder taken with the sign
    of `n`, so it is never negative. Dafny's `%` agrees with it for a
    positive divisor.
  */
  function FloorMod(a: int, n: int): (r: int)
    requires n > 0
    ensures 0 <= r < n
    ensures 0 <= a < n ==> r == a
    ensures a == n ==> r == 0
    ensures a == -1 ==> r == n - 1
  {
    a % n
  }

  /** `(current + 1) % count`: the next index, wrapping from the last tab to the first. */
  function NextIndex(current: int, count: int): (r: int)
    requires count > 0 && -1 <= current < count
    ensures 0 <= r < count
    ensures current + 1 < count ==> r == current + 1
    ensures current == count - 1 ==> r == 0
  {
    FloorMod(current + 1, count)
  }

  /** `(current - 1) % count`: the previous index, wrapping from the first tab to the last. */
  function PreviousIndex(current: int, count: int): (r: int)
    requires count > 0 && 0 <= current < count
    ensures 0 <= r < count
    ensures current > 0 ==> r == current - 1
    ensures current == 0 ==> r == count - 1
  {
    FloorMod(current - 1, count)
  }

  /**
    `next_tab`. With no tabs the source divides by a zero count and raises,
    which is `None` here. Otherwise the next tab (the first after the last)
    becomes current and the address bar shows its URL; the tabs themselves
    do not change.
  */
  function NextTab(b: Browser): (r: Option<Browser>)
    requires Valid(b.tabs)
    ensures r.None? <==> |b.tabs.tabs| == 0
    ensures r.Some? ==>
      && Valid(r.value.tabs)
      && r.value.tabs == b.tabs.(current := NextIndex(b.tabs.current, |b.tabs.tabs|))
      && r.value.addressBar == (if |b.tabs.tabs| == 1 then b.addressBar else b.tabs.tabs[r.value.tabs.current].url)
  {
    var count := |b.tabs.tabs|;
    if count == 0 then None
    else Some(Deliver(b, SetCurrentIndex(b.tabs, NextIndex(b.tabs.current, count))))
  }

  /** `previous_tab`: as `next_tab`, one tab to the left, from the first to the last. */
  function PreviousTab(b: Browser): (r: Option<Browser>)
    requires Valid(b.tabs)
    ensures r.None? <==> |b.tabs.tabs| == 0
    ensures r.Some? ==>
      && Valid(r.value.tabs)
      && r.value.tabs == b.tabs.(current := PreviousIndex(b.tabs.current, |b.tabs.tabs|))
      && r.value.addressBar == (if |b.tabs.tabs| == 1 then b.addressBar else b.tabs.tabs[r.value.tabs.current].url)
  {
    var count := |b.tabs.tabs|;
    if count == 0 then None
    else Some(Deliver(b, SetCurrentIndex(b.tabs, PreviousIndex(b.tabs.current, count))))
  }

  /** `previous_tab` undoes `next_tab`. */
  lemma PreviousUndoesNext(b: Browser)
    requires Valid(b.tabs) && |b.tabs.tabs| > 0
    ensures NextTab(b).Some? && PreviousTab(NextTab(b).value).Some?
    ensures PreviousTab(NextTab(b).value).value.tabs == b.tabs
  {
  }

  /** `next_tab` undoes `previous_tab`. */
  lemma NextUndoesPrevious(b: Browser)
    requires Valid(b.tabs) && |b.tabs.tabs| > 0
    ensures PreviousTab(b).Some? && NextTab(PreviousTab(b).value).Some?
    ensures NextTab(PreviousTab(b).value).value.tabs == b.tabs
  {
  }

  /** `next_tab` pressed `k` times. */
  function CycleForward(b: Browser, k: nat): (r: Browser)
    requires Valid(b.tabs) && |b.tabs.tabs| > 0
    ensures Valid(r.tabs) && r.tabs.tabs == b.tabs.tabs && r.tabs.nextView == b.tabs.nextView
    decreases k
  {
    if k == 0 then b else CycleForward(NextTab(b).value, k - 1)
  }

  /** The index `next_tab` reaches after `k` presses from `current`. */
  function CycleIndex(current: int, k: nat, count: int): (r: int)
    requires count > 0 && 0 <= current < count
    ensures 0 <= r < count
    decreases k
  {
    if k == 0 then current else CycleIndex(NextIndex(current, count), k - 1, count)
  }

  /** `k` presses (at most one full round) move `k` places to the right, wrapping past the end. */
  lemma {:induction false} CycleIndexMoves(current: int, k: nat, count: int)
    requires count > 0 && 0 <= current < count && k <= count
    ensures CycleIndex(current, k, count) == (if current + k < count then current + k else current + k - count)
    decreases k
  {
    if k > 0 {
      CycleIndexMoves(NextIndex(current, count), k - 1, count);
    }
  }

  /** Pressing `next_tab` `k` times follows `CycleIndex`. */
  lemma {:induction false} CycleForwardFollowsIndex(b: Browser, k: nat)
    requires Valid(b.tabs) && |b.tabs.tabs| > 0
    ensures CycleForward(b, k).tabs.current == CycleIndex(b.tabs.current, k, |b.tabs.tabs|)
    decreases k
  {
    if k > 0 {
      var next := NextTab(b).value;
      assert next.tabs.current == NextIndex(b.tabs.current, |b.tabs.tabs|) && next.tabs.tabs == b.tabs.tabs;
      CycleForwardFollowsIndex(next, k - 1);
    }
  }

  /**
    After `k` presses of `next_tab` (at most one full round) the current
    index has moved `k` places to the right, wrapping past the end.
  */
  lemma CycleForwardMoves(b: Browser, k: nat)
    requires Valid(b.tabs) && |b.tabs.tabs| > 0 && k <= |b.tabs.tabs|
    ensures var n := |b.tabs.tabs|;
      CycleForward(b, k).tabs.current ==
        (if b.tabs.current + k < n then b.tabs.current + k else b.tabs.current + k - n)
  {
    CycleForwardFollowsIndex(b, k);
    CycleIndexMoves(b.tabs.current, k, |b.tabs.tabs|);
  }

  /** One full round of `next_tab` comes back to the tab it started from. */
  lemma FullRoundReturns(b: Browser)
    requires Valid(b.tabs) && |b.tabs.tabs| > 0
    ensures CycleForward(b, |b.tabs.tabs|).tabs == b.tabs
  {
    CycleForwardMoves(b, |b.tabs.tabs|);
  }

  /** `create_new_tab` from the window: a homepage tab at the end, current, and in the address bar. */
  function OpenNewTab(b: Browser, cfg: Config): (r: Browser)
    requires Valid(b.tabs)
    ensures Valid(r.tabs)
    ensures |r.tabs.tabs| == |b.tabs.tabs| + 1 && r.tabs.tabs[..|b.tabs.tabs|] == b.tabs.tabs
    ensures r.tabs.current == |b.tabs.tabs|
    ensures r.tabs.tabs[r.tabs.current].url == cfg.homepage && r.addressBar == cfg.homepage
  {
    Deliver(b, Tabs.CreateNewTab(b.tabs, None, cfg))
  }

  /**
    `close_current_tab`: closes exactly the current index. With more than
    one tab and a page in the current view, that tab goes and the address
    bar shows the tab that became current. With the only tab and
    `close_after_last_tab` off, the tab goes to the homepage and the address
    bar follows when that changed the tab's URL.
  */
  function CloseCurrentTab(b: Browser, cfg: Config): (r: Browser)
    requires Valid(b.tabs)
    ensures Valid(r.tabs)
    ensures r.tabs == CloseTab(b.tabs, b.tabs.current, cfg).widget
    ensures |b.tabs.tabs| > 1 && b.tabs.tabs[b.tabs.current].hasPage ==>
      && |r.tabs.tabs| == |b.tabs.tabs| - 1
      && (forall j :: 0 <= j < |r.tabs.tabs| ==> r.tabs.tabs[j].view != b.tabs.tabs[b.tabs.current].view)
      && r.addressBar == r.tabs.tabs[r.tabs.current].url
    ensures |b.tabs.tabs| == 1 && !cfg.closeAfterLastTab ==>
      && |r.tabs.tabs| == 1 && r.tabs.tabs[0].url == cfg.homepage
      && r.addressBar == (if b.tabs.tabs[0].url != cfg.homepage then cfg.homepage else b.addressBar)
  {
    Deliver(b, CloseTab(b.tabs, b.tabs.current, cfg))
  }

  // ---------------------------------------------------------------------------
  // Address-bar input

  /** `input or self.address_bar.text()`: the typed input unless it is missing or empty. */
  function NavigationText(input: Option<string>, bar: string): (r: string)
    ensures Truthy(input) ==> r == input.value
    ensures !Truthy(input) ==> r == bar
  {
    if Truthy(input) then input.value else bar
  }

  /**
    How `navigate` reads its text. `hasScheme` stands for "QUrl(text) has a
    scheme". Text with a scheme is used as it is; text with a dot and no
    space is taken for a host and gets "https://" in front; anything else is
    a search: the text goes in place of every "%s" of the search template.
  */
  function ResolveInput(text: string, template: string, hasScheme: string -> bool): (r: string)
    ensures hasScheme(text) ==> r == text
    ensures !hasScheme(text) && '.' in text && ' ' !in text ==> r == "https://" + text
    ensures !hasScheme(text) && !('.' in text && ' ' !in text) ==> r == Join(Split(template, "%s"), text)
  {
    if hasScheme(text) then text
    else if '.' in text && ' ' !in text then "https://" + text
    else Replace(template, "%s", text)
  }

  /** A search template without "%s" is used as it is, whatever was typed. */
  lemma TemplateWithoutPlaceholder(text: string, template: string, hasScheme: string -> bool)
    requires !hasScheme(text) && !('.' in text && ' ' !in text)
    requires Clean(template, "", "%s")
    ensures ResolveInput(text, template, hasScheme) == template
  {
    ReplaceWithoutMatch(template, "%s", text);
  }

  /**
    With the default search engine, a search for `text` asks Google for it:
    the placeholder at the end of the template is replaced once.
  */
  lemma DefaultSearch(text: string, hasScheme: string -> bool)
    requires !hasScheme(text) && !('.' in text && ' ' !in text)
    ensures ResolveInput(text, DefaultConfig().searchEngine, hasScheme) == "https://google.com/search?q=" + text
  {
    var front := "https://google.com/search?q=";
    assert DefaultConfig().searchEngine == front + "%s" + "";
    CleanWithoutFirstChar(front, "%s", "%s");
    ReplaceAfterClean(front, "", "%s", text);
    assert Split("", "%s") == [""];
  }

  /**
    `navigate`: the current tab opens the resolved URL; without a current
    view nothing happens. When that URL differs from the tab's, the address
    bar shows it at once; later changes (redirects) arrive as separate URL
    changes of the page.
  */
  function Navigate(b: Browser, input: Option<string>, cfg: Config, hasScheme: string -> bool): (r: Browser)
    requires Valid(b.tabs)
    ensures Valid(r.tabs)
    ensures |r.tabs.tabs| == |b.tabs.tabs| && r.tabs.current == b.tabs.current
    ensures |b.tabs.tabs| == 0 ==> r == b
    ensures |b.tabs.tabs| > 0 ==>
      var url := ResolveInput(NavigationText(input, b.addressBar), cfg.searchEngine, hasScheme);
      && r.tabs.tabs[b.tabs.current].url == url
      && (forall j :: 0 <= j < |b.tabs.tabs| && j != b.tabs.current ==> r.tabs.tabs[j] == b.tabs.tabs[j])
      && r.addressBar == (if b.tabs.tabs[b.tabs.current].url != url then url else b.addressBar)
  {
    var url := ResolveInput(NavigationText(input, b.addressBar), cfg.searchEngine, hasScheme);
    Deliver(b, NavigateCurrentTab(b.tabs, url))
  }

  /** The home button: `navigate` with the configured homepage as input. */
  function GoHome(b: Browser, cfg: Config, hasScheme: string -> bool): (r: Browser)
    requires Valid(b.tabs)
    ensures |r.tabs.tabs| == |b.tabs.tabs|
    ensures cfg.homepage != "" && hasScheme(cfg.homepage) && |b.tabs.tabs| > 0 ==>
      && r.tabs.tabs[b.tabs.current].url == cfg.homepage
      && r.addressBar == (if b.tabs.tabs[b.tabs.current].url != cfg.homepage then cfg.homepage else b.addressBar)
    ensures |b.tabs.tabs| == 0 ==> r == b
  {
    Navigate(b, Some(cfg.homepage), cfg, hasScheme)
  }

  /**
    An empty input, like a missing one, navigates to what the address bar
    holds: pressing return resolves the address bar's own text.
  */
  lemma EmptyInputUsesAddressBar(b: Browser, cfg: Config, hasScheme: string -> bool)
    requires Valid(b.tabs)
    ensures Navigate(b, Some(""), cfg, hasScheme) == Navigate(b, None, cfg, hasScheme)
  {
  }
}
