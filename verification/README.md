# Veil Browser browsing state, in Dafny

This project models the bookkeeping at the heart of the Veil web browser. It
proves properties of that model. Everything is a pure function of values:

- **Zoom** (`zoom.dfy`) is the `StepCycler` of `browser/utils.py`. It holds a
  sorted list of zoom percentages and a position in it. Construction snaps a
  requested value to the nearest step, and ties go to the lower step. `up` and
  `down` stop at the ends. `reset` returns to the step chosen at construction.
  `bisect_left` is a binary-search method with loop invariants.
- **History** (`history.dfy`) is the history ledger and favicon cache of
  `browser/history.py`. The ledger maps a date to that day's entries, with one
  entry per canonical URL. The favicon cache maps a favicon id to a record. A
  record is rewritten only while it is absent or still pending. Records with an
  empty domain are purged. Each store is a value: the function takes the store
  as read and returns the store as written.
- **Tabs** (`tabs.dfy`) is the tab widget of `browser/tabs.py`. It is a
  sequence of tabs plus a current index. The signals the widget emits
  (`current_url_changed`, `last_tab_closed`) are returned as data.
- **Window** (`window.dfy`) holds the navigation rules of `browser/window.py`:
  tab cycling with Python's modulo, closing the current tab, the address bar
  following the active tab, and the classification of typed input.
- Support modules:
  - `text.dfy` gives Python's `str.split`, `str.join` and `str.replace`, and
    proves split/join round trips and a characterisation of leftmost cutting.
  - `sorting.dfy` gives `sorted` on integers.
  - `settings.dfy` holds the configuration fields that are read.
  - `wrappers.dfy` holds `Option`.

Foreign code is passed in as parameters:

- `url_normalize`, `urlparse(...).netloc` and SHA-256 are fields of
  `History.UrlTools`.
- "QUrl has a scheme" is the predicate `hasScheme`.
- The clock is an `Instant` (a date and a timestamp), or an ISO time string.
- A QIcon is reduced to whether it is null, how many sizes it has, and its
  base64 PNG.

A Qt `removeTab` moves the current index the way QTabBar does by default: it
selects the tab to the right. That emits `currentChanged` whenever the index
moves, and `_on_tab_changed` turns it into `current_url_changed`.

The domain of a URL is its netloc (`urlparse(...).netloc`, which keeps any
user information and port) with EVERY "www." deleted, because the code uses
`str.replace`. It is not only a leading "www." that is stripped. The model
follows the code. `History.InnerWwwIsDeleted` shows the consequence: the
netlocs "awww.com" and "acom" share a favicon id.

`browser/window.py` imports its tab class as `TabWidget` from
`browser/qt.py`, which defines no such name. The window's calls are modelled
as calls into the `Tabs` class of `browser/tabs.py`.

The window and the tab widget read the same file, `data/config.json`, through
two loaders. The window uses `read_config` (browser/data.py:11-28), which
returns the file's JSON and first copies `browser/default_config.json` there
when the file is missing. The tab widget uses `Config.load`
(browser/utils.py:24-40), which builds the `Config` dataclass from the same
file (browser/utils.py:28-33), or from the dataclass defaults when the file is
missing. Because both read one file, the model hands both the same
`Settings.Config`. `browser/default_config.json` is not part of this model.
`Settings.DefaultConfig` copies the dataclass defaults (browser/utils.py:15-20).
So `Window.DefaultSearch` is about the search template of `browser/utils.py`,
not about whatever the JSON file holds.

Qt's `setUrl` emits the view's `urlChanged` at once when the URL differs from
the view's present one. `_on_url_changed` passes that on when the view is
current. So `Tabs.NavigateCurrentTab`, and `Tabs.CloseTab` when it sends the
last tab home, report the new URL. Later changes, such as a redirect, arrive
as separate `Tabs.OnUrlChanged` events. `create_new_tab` calls `setUrl`
before it connects `urlChanged`, so a new tab reports its URL only through
the tab switch.

## Model

| member | source | states |
|---|---|---|
| Sorting.Insert | browser/utils.py:92 | inserting into a sorted list keeps it sorted and adds exactly that element (multiset) |
| Sorting.Sort | browser/utils.py:92 | the result is sorted and a permutation of the input (same multiset, same length) |
| Zoom.BisectLeft | browser/utils.py:102 | the position splits a sorted list into elements below `x` and elements not below it |
| Zoom.FindClosestIndex | browser/utils.py:101-115 | the index holds a step nearest to the value, the lower one on a tie; a value at or below the first step gives 0; a value above the last gives the last index; a value equal to a step gives the first index holding it; among repeated steps, the index is the last one below the value or the first one at or above it |
| Settings.DefaultConfig | browser/utils.py:15-20 | the homepage, search template and last-tab flag defaults of the `Config` dataclass |
| Zoom.New | browser/utils.py:91-99 | the steps are sorted and a permutation of the input; with no initial value the index is 0; otherwise the index is the one the snapping rule fixes, with the same rule for ties and repeated steps; the reset index equals the starting index |
| Zoom.Up | browser/utils.py:117-119 | moves one step higher, or stays put on the last step; never lowers the value; keeps the cycler valid, the steps and the reset index |
| Zoom.Down | browser/utils.py:121-123 | moves one step lower, or stays put on the first step; never raises the value; keeps the cycler valid |
| Zoom.Reset | browser/utils.py:128-130 | the index returns to the one chosen at construction, and the value is that step |
| Zoom.Apply | browser/utils.py:117-130 | any single call keeps the cycler valid; `current()` leaves the cycler unchanged |
| Zoom.Run | browser/utils.py:117-130 | any sequence of calls keeps the index in range and never changes the steps or the reset index |
| Zoom.ResetAfterAnyCalls | browser/utils.py:128-130 | after any history of calls, `reset()` restores exactly the cycler as constructed |
| Zoom.DownUndoesUp | browser/utils.py:117-123 | `down()` undoes an `up()` that moved |
| Zoom.UpUndoesDown | browser/utils.py:117-123 | `up()` undoes a `down()` that moved |
| Zoom.Current | browser/utils.py:125-126 | the value is one of the steps, no lower than any step before the index and no higher than any step after it |
| Zoom.SnappedIsUnique | browser/utils.py:101-115 | the snapping rule fixes one index, even when steps repeat |
| Zoom.SnappedSide | browser/utils.py:101-115 | a snapped index below the value has no step below the value after it; one at or above the value has no step at or above the value before it |
| Zoom.RepeatedStepExample | browser/utils.py:101-115 | with the steps [10, 10, 20], 11 snaps to index 1, so `up()` gives 20 |
| Zoom.ClosestStepIsUnique | browser/utils.py:109-115 | the nearest-step rule picks one step value: any two positions meeting it hold the same step |
| Zoom.SnapExample | browser/utils.py:101-115 | with an example step list of zoom percentages, 77 snaps to index 4 (75), not to 80 |
| Zoom.StepsAroundSnap | browser/utils.py:117-123 | from 75 in that example list, `up()` gives 80 and `down()` gives 67 |
| Text.Split | browser/history.py:54 | `split` always returns at least one piece |
| Text.Join | browser/window.py:209 | the joined string starts with the first piece, followed by the separator when more pieces come |
| Text.Replace | browser/window.py:209 | replacing the target by itself leaves the string as it was |
| Text.SplitJoin | browser/history.py:54 | joining the pieces of `split` with the separator gives the string back |
| Text.SplitIsLeftmost | browser/history.py:54 | `split` cuts at the leftmost non-overlapping separators: no piece contains a separator occurrence that starts inside it |
| Text.LeftmostSplitIsSplit | browser/history.py:54 | any leftmost cutting that joins back to the string is the one `split` returns |
| Text.SplitWithoutMatch | browser/history.py:54 | a string without the separator splits into itself alone |
| Text.SplitAfterClean | browser/history.py:54 | a separator-free prefix followed by a separator is split off as the first piece |
| Text.ReplaceWithoutMatch | browser/history.py:54 | `replace` leaves a string without the target unchanged |
| Text.ReplaceAfterClean | browser/history.py:54 | `replace` substitutes the first occurrence and continues after it |
| Text.DeletionShrinks | browser/history.py:54 | deleting every occurrence never makes a string longer |
| History.FaviconId | browser/history.py:29-33 | the id is "fav_" followed by the first 12 hex digits of the domain's hash, 16 characters, a function of the domain only |
| History.CanonicalUrl | browser/history.py:51 | the canonical URL is the normalised URL when that is non-empty, else the raw URL; it is empty only if both are |
| History.DomainOf | browser/history.py:53-54 | the domain is never longer than the netloc, and is the netloc itself when it holds no "www." |
| History.FaviconKey | browser/history.py:105-110 | a page's favicon id is "fav_" and 12 hex digits of the hash of the page's domain |
| History.DomainDeletesEveryWww | browser/history.py:54 | the domain is the netloc cut at every leftmost "www." and glued back without them |
| History.LeadingWwwIsDropped | browser/history.py:54 | a netloc "www." + h, where h holds no "www.", has domain h |
| History.InnerWwwIsDeleted | browser/history.py:54 | "www." inside a netloc is deleted too: "awww.com" and "acom" get the same domain and favicon id |
| History.Partition | browser/history.py:59-60 | a date without a partition reads as an empty one |
| History.FindEntry | browser/history.py:62-66 | the lookup returns the first entry with the canonical URL, or none when no entry has it |
| History.AppendToHistory | browser/history.py:59-80 | the day's partition exists afterwards and holds an entry for the page; it never shrinks; every other date is untouched |
| History.RepeatVisitStep | browser/history.py:68-70 | a repeat visit appends the timestamp to the matching entry and replaces its title; its URLs and favicon id, the other entries and the partition length are unchanged |
| History.FirstVisitStep | browser/history.py:71-80 | a first visit appends exactly one entry at the end, with the raw and canonical URL, the favicon id and one timestamp; earlier entries are unchanged |
| History.AppendKeepsLookups | browser/history.py:62-80 | an entry found before a visit is found at the same index after it |
| History.AppendKeepsCanonicalUnique | browser/history.py:62-80 | canonical URLs stay unique within every partition |
| History.RecordVisits | browser/history.py:56-80 | over any run of visits no date partition disappears, every visited date has one, and a date no visit falls on keeps its partition |
| History.RepeatVisitsAccumulate | browser/history.py:68-70 | any run of same-day repeat visits keeps the entry's index, URLs and favicon id, the day's other entries and the partition length, appends the timestamps in call order and leaves the last title |
| History.FirstVisitThenRepeats | browser/history.py:59-80 | any run of same-day visits to a new page yields exactly one new entry at the end, with every timestamp in order and the last title |
| History.DatesAreNeverMerged | browser/history.py:56-60 | visits on two dates are recorded in two separate partitions |
| History.DistinctPagesGetDistinctEntries | browser/history.py:62-80 | two pages with different canonical URLs on one day get different entries |
| History.DataUri | browser/history.py:24 | the encoded icon is a PNG data URI |
| History.ChooseIcon | browser/history.py:95 | the given icon is used unless it is missing or null; then the page's icon is used |
| History.IsIconEmpty | browser/history.py:112 | an icon is empty when it is null or offers no sizes |
| History.NewRecord | browser/history.py:112-120 | a written record is pending exactly when the icon is empty, and has no data and no time exactly then; otherwise it has the data URI and the time |
| History.MayOverwrite | browser/history.py:114 | a record may be written when its id is absent or its status is pending |
| History.Upsert | browser/history.py:114-120 | the record is written only when absent or pending; otherwise the old record stays; all other keys are untouched |
| History.PurgeEmptyDomains | browser/history.py:122-127 | exactly the records with an empty domain are dropped, and the rest are kept as they are |
| History.AppendToFavicons | browser/history.py:95-132 | no record with an empty domain survives; other pages' records are kept unless their domain is empty; a loaded record is never modified; an absent or pending record becomes the record the icon dictates |
| History.LoadedIconIsFrozen | browser/history.py:114 | once a domain's icon is stored as loaded, later writes for any page of that domain leave the record as it is |
| History.PendingIsRefreshed | browser/history.py:114-120 | a pending record is rewritten on every write, and becomes loaded exactly when a non-empty icon arrives |
| History.HistoryReferencesFavicon | browser/history.py:77 | a new history entry's favicon id finds the favicon record written for the same page |
| Tabs.WidgetAt | browser/tabs.py:75 | there is a tab exactly at an index in range, and it is the tab at that index |
| Tabs.CurrentView | browser/tabs.py:108-113 | there is a current view exactly when there are tabs, and it is the tab at the current index |
| Tabs.FindTab | browser/tabs.py:123-124 | the search finds the first tab showing the view, or reports that none does |
| Tabs.DisplayTitle | browser/tabs.py:126-127 | a title over 30 characters becomes its first 30 plus "...", 33 in all; a shorter non-empty one is shown as it is; an empty one becomes "Untitled" |
| Tabs.UpdateTabTitle | browser/tabs.py:121-128 | only the first tab showing the view gets the display title; nothing changes when no tab matches |
| Tabs.OnLoadStarted | browser/tabs.py:51-53 | the loading tab reads "Loading..." |
| Tabs.OnTabChanged | browser/tabs.py:140-145 | a tab switch reports the newly current view's URL; an index without a tab reports nothing |
| Tabs.Truthy | browser/tabs.py:41 | an optional string is truthy when present and non-empty, as in `if url:` and `input or ...` (browser/window.py:199) |
| Tabs.SetCurrentIndex | browser/tabs.py:59 | an in-range index becomes current and reports its URL only if it differs from the current one; an out-of-range index changes nothing |
| Tabs.CreateNewTab | browser/tabs.py:36-59 | one tab with a fresh view is appended and becomes current; its URL is the given one when non-empty, else the homepage; that URL is reported exactly once |
| Tabs.AddTab | browser/tabs.py:58 | the tab goes at the end; a first tab becomes current at once and reports its URL |
| Tabs.OnTabBarDoubleClicked | browser/tabs.py:67-69 | a double click beside the tabs opens one tab; a click on a tab changes nothing |
| Tabs.CurrentAfterRemoval | browser/tabs.py:105 | after a removal the current index stays on the same tab when a tab before it went, stays put when one after it went, and moves to the right neighbour (or the new last tab) when the current tab went; with no tabs left it is -1 |
| Tabs.RemoveTab | browser/tabs.py:105 | exactly the tab at the index goes and the rest keep their order; the current tab stays current unless removed; otherwise its right neighbour (or the new last tab) becomes current and is reported |
| Tabs.CloseTab | browser/tabs.py:71-106 | closing the only tab with the flag off keeps the count, sends that tab to the homepage and reports the homepage when the URL changed; with the flag on it removes the tab and emits `last_tab_closed` once, unless the view has no page; with more tabs exactly that tab is removed, or nothing happens when the view has no page |
| Tabs.NavigateCurrentTab | browser/tabs.py:115-119 | only the current tab's URL changes, and the new URL is reported exactly when it differs from the old one; without tabs nothing happens |
| Tabs.NavigateAgainIsQuiet | browser/tabs.py:115-119 | navigating to the URL the current tab already has changes nothing and reports nothing |
| Tabs.OnUrlChanged | browser/tabs.py:147-154 | a URL change is passed on exactly when it comes from the current view |
| Tabs.OnLoadFinished | browser/tabs.py:164-172 | the current view, whichever view finished, gets its page title and a history record; nothing happens without a current view or page |
| Tabs.UpdateTabIcon | browser/tabs.py:130-138 | only the first tab showing the view gets the icon; the favicon cache is written for its page when the view has one |
| Tabs.CloseUndoesCreate | browser/tabs.py:36-106 | opening a tab and closing it again leaves the tab list as it was |
| Tabs.ClosingTheLastTab | browser/tabs.py:73-94 | closing the only tab keeps one homepage tab when the flag is off, reporting the homepage unless the tab was on it; with the flag on it leaves none and signals once |
| Tabs.OnlyCurrentViewReportsUrl | browser/tabs.py:147-154 | a background tab's URL change never reaches the address bar; the current tab's always does |
| Window.ShowUrl | browser/window.py:217-219 | the address bar shows the URL of the last `current_url_changed`, or keeps its text when none was emitted |
| Window.Deliver | browser/window.py:46 | the window takes the widget's new state, and the address bar follows the last reported URL |
| Window.FloorMod | browser/window.py:165 | Python's modulo by a positive count is never negative: -1 maps to count - 1 and count maps to 0 |
| Window.NextIndex | browser/window.py:161-166 | the next index is one to the right, wrapping from the last tab to 0 |
| Window.PreviousIndex | browser/window.py:168-173 | the previous index is one to the left, wrapping from 0 to the last tab |
| Window.NextTab | browser/window.py:161-166 | with no tabs the call fails (division by zero); otherwise the tabs are unchanged and the next index becomes current; with two or more tabs the address bar shows the new current tab's URL; with one it keeps its text |
| Window.PreviousTab | browser/window.py:168-173 | with no tabs the call fails; otherwise the previous index becomes current; with two or more tabs the address bar shows the new current tab's URL; with one it keeps its text |
| Window.PreviousUndoesNext | browser/window.py:161-173 | `previous_tab` undoes `next_tab` |
| Window.NextUndoesPrevious | browser/window.py:161-173 | `next_tab` undoes `previous_tab` |
| Window.CycleForward | browser/window.py:161-166 | pressing `next_tab` any number of times keeps the tabs and their validity |
| Window.CycleIndex | browser/window.py:165 | repeated steps of `(current + 1) % count` stay in range |
| Window.CycleIndexMoves | browser/window.py:165 | k steps (at most one round) land k places to the right, wrapping past the end |
| Window.CycleForwardFollowsIndex | browser/window.py:161-166 | k presses of `next_tab` select the index of k modulo steps |
| Window.CycleForwardMoves | browser/window.py:161-166 | k presses of `next_tab` move the current tab k places to the right, wrapping |
| Window.FullRoundReturns | browser/window.py:161-166 | one full round of `next_tab` returns to the starting tab |
| Window.OpenNewTab | browser/window.py:152-154 | a homepage tab is appended, becomes current and is shown in the address bar |
| Window.CloseCurrentTab | browser/window.py:156-159 | exactly the current index is closed; with several tabs that tab goes and the address bar shows the new current tab; the only tab with the flag off goes home and the address bar follows |
| Window.NavigationText | browser/window.py:199 | the typed input is used when non-empty; a missing or empty input falls back to the address bar |
| Window.ResolveInput | browser/window.py:202-210 | text with a scheme is used as it is; text with a dot and no space gets "https://" in front; anything else fills every "%s" of the search template |
| Window.TemplateWithoutPlaceholder | browser/window.py:209 | a search template with no "%s" in it is used unchanged |
| Window.DefaultSearch | browser/window.py:209 | with the default engine, a search for t goes to "https://google.com/search?q=" + t |
| Window.Navigate | browser/window.py:198-215 | only the current tab navigates, to the resolved URL, and the address bar shows that URL when it differs from the tab's old one; without a current view nothing changes |
| Window.GoHome | browser/window.py:57-59 | the home button sends the current tab to a homepage that has a scheme, and the address bar follows |
| Window.EmptyInputUsesAddressBar | browser/window.py:199 | an empty input navigates exactly like a missing one |

## Left out

- File I/O is not modelled: reading and writing `history.json` and `favicons.json`, creating the data directory, loading the configuration (`Config.load`, `read_config`) and logging. Each store is the value read, and the value written is the function's result.
- `url_normalize`, `urlparse`, SHA-256, `datetime.now`, `QUrl.scheme` and `QUrl.toString` are foreign code. They are uninterpreted parameters; `QUrl.toString` and `page.url().url()` are taken as the identity on strings.
- `qicon_to_base64` renders a pixmap, which is Qt. Its result is the icon's `pngBase64` field wrapped in the data-URI prefix.
- Timestamps are `int`. The source stores `now.timestamp()`, a float; floating point is not modelled.
- Zoom.Up: like `Down`, `Reset` and `Current`, it requires a non-empty step list. On an empty list the source fails with an IndexError, and that error path is not modelled.
- Tabs.UpdateTabIcon: a view that no tab shows any more writes no favicon here. The source still writes one if that view's page has not been deleted yet.
- Widget construction, the "+" corner button, styling, shortcuts, devtools, icon colours, window dragging, back/forward/reload, and `set_zoom_level` (a float zoom factor) are UI or floating point.
- `last_tab_closed` is returned as a signal. browser/window.py connects no handler to it, so the window model does not act on it.
- The engine-side fields of a tab (`url`, `pageTitle`, `hasPage`) change only through the widget's own calls (`setUrl`). When the engine itself changes them (a redirect, a new page title, a deleted page), the caller supplies the changed tab. `Tabs.OnUrlChanged` only decides what is reported; it does not record the new URL in the tab.
- Tab drag-reordering (`setMovable`) is not modelled. It only permutes the tabs.
- browser/adblock.py, browser/qt.py and main.py are not part of this model.
