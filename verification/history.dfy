/**
  The history ledger and favicon cache of browser/history.py.

  Both stores are JSON files that the source reads whole, changes in memory
  and writes back whole. Here a store is a value: each `Append…` function maps
  the store as read to the store as written (and returned).

  The foreign pieces are parameters: `url_normalize`, `urlparse(...).netloc`
  and the SHA-256 hex digest are fields of `UrlTools`, and the clock reading
  is an `Instant` (or an ISO time string for favicons).
*/
module History {
  import opened Wrappers
  import opened Text

  // ---------------------------------------------------------------------------
  // Foreign functions and the clock

  /** A lower-case hexadecimal digit, as `hexdigest()` produces. */
  predicate IsHexDigit(c: char) {
    '0' <= c <= '9' || 'a' <= c <= 'f'
  }

  /** What `hashlib.sha256(...).hexdigest()` returns: 64 lower-case hex digits. */
  type HexDigest = s: string | |s| == 64 && forall i :: 0 <= i < |s| ==> IsHexDigit(s[i])
    witness seq(64, _ => '0')

  /**
    `normalize` is `url_normalize` with a falsy result written as "";
    `netloc` is `urlparse(url).netloc`; `sha256Hex` hashes a domain.
  */
  datatype UrlTools = UrlTools(
    normalize: string -> string,
    netloc: string -> string,
    sha256Hex: string -> HexDigest)

  /** One reading of `datetime.now()`: its calendar date and its epoch timestamp. */
  datatype Instant = Instant(date: string, stamp: int)

  // ---------------------------------------------------------------------------
  // Keys shared by the two stores

  /** `get_favicon_id`: "fav_" and the first 12 hex digits of the domain's hash. */
  function FaviconId(tools: UrlTools, domain: string): (r: string)
    ensures |r| == 16
    ensures r[..4] == "fav_"
    ensures r[4..] == tools.sha256Hex(domain)[..12]
    ensures forall i :: 4 <= i < |r| ==> IsHexDigit(r[i])
  {
    "fav_" + tools.sha256Hex(domain)[..12]
  }

  /** `url_normalize(url) or url`: the normalised URL, or the raw one when normalising gives nothing. */
  function CanonicalUrl(tools: UrlTools, url: string): (r: string)
    ensures tools.normalize(url) != "" ==> r == tools.normalize(url)
    ensures tools.normalize(url) == "" ==> r == url
    ensures r == "" <==> url == "" && tools.normalize(url) == ""
  {
    var normalized := tools.normalize(url);
    if normalized != "" then normalized else url
  }

  /**
    `urlparse(canonical).netloc.replace("www.", "")`: every "www." is
    deleted, not only a leading one, so the domain is never longer than the
    netloc and equals it when the netloc holds no "www.".
  */
  function DomainOf(tools: UrlTools, canonical: string): (r: string)
    ensures |r| <= |tools.netloc(canonical)|
    ensures Clean(tools.netloc(canonical), "", "www.") ==> r == tools.netloc(canonical)
  {
    var netloc := tools.netloc(canonical);
    DeletionShrinks(netloc, "www.");
    assert Clean(netloc, "", "www.") ==> Replace(netloc, "www.", "") == netloc by {
      if Clean(netloc, "", "www.") {
        ReplaceWithoutMatch(netloc, "www.", "");
      }
    }
    Replace(netloc, "www.", "")
  }

  /**
    The favicon id both stores derive for a page URL: "fav_" and twelve hex
    digits, depending on the URL only through its domain.
  */
  function FaviconKey(tools: UrlTools, url: string): (r: string)
    ensures |r| == 16 && r[..4] == "fav_"
    ensures forall i :: 4 <= i < |r| ==> IsHexDigit(r[i])
    ensures r[4..] == tools.sha256Hex(DomainOf(tools, CanonicalUrl(tools, url)))[..12]
  {
    FaviconId(tools, DomainOf(tools, CanonicalUrl(tools, url)))
  }

  /**
    The domain is the netloc cut at every leftmost non-overlapping "www."
    and glued back without it; gluing the same pieces with "www." gives the
    netloc back.
  */
  lemma DomainDeletesEveryWww(tools: UrlTools, canonical: string)
    ensures var parts := Split(tools.netloc(canonical), "www.");
      && LeftmostSplit(parts, "www.")
      && Join(parts, "") == DomainOf(tools, canonical)
      && Join(parts, "www.") == tools.netloc(canonical)
  {
    SplitIsLeftmost(tools.netloc(canonical), "www.");
    SplitJoin(tools.netloc(canonical), "www.");
  }

  /** A leading "www." is dropped from a netloc that holds no other one. */
  lemma LeadingWwwIsDropped(tools: UrlTools, canonical: string, rest: string)
    requires tools.netloc(canonical) == "www." + rest
    requires Clean(rest, "", "www.")
    ensures DomainOf(tools, canonical) == rest
  {
    CleanWithoutFirstChar("", "www.", "www.");
    ReplaceAfterClean("", rest, "www.", "");
    ReplaceWithoutMatch(rest, "www.", "");
  }

  /**
    "www." in the middle of a netloc is deleted too, so the netlocs "awww.com"
    and "acom" share a domain and therefore a favicon id.
  */
  lemma InnerWwwIsDeleted(tools: UrlTools, c1: string, c2: string)
    requires tools.netloc(c1) == "awww.com" && tools.netloc(c2) == "acom"
    ensures DomainOf(tools, c1) == "acom" == DomainOf(tools, c2)
    ensures FaviconId(tools, DomainOf(tools, c1)) == FaviconId(tools, DomainOf(tools, c2))
  {
    CleanWithoutFirstChar("a", "www.", "www.");
    assert "awww.com" == "a" + "www." + "com";
    ReplaceAfterClean("a", "com", "www.", "");
    ReplaceWithoutMatch("com", "www.", "");
    ReplaceWithoutMatch("acom", "www.", "");
  }

  // ---------------------------------------------------------------------------
  // History ledger

  datatype HistoryEntry = HistoryEntry(
    title: string,
    url: string,
    canonicalUrl: string,
    faviconId: string,
    visits: seq<int>)

  /** Date string ("YYYY-MM-DD") to that day's entries, in insertion order. */
  type HistoryStore = map<string, seq<HistoryEntry>>

  /** The day's entries, or none when the date has no partition yet. */
  function Partition(h: HistoryStore, date: string): seq<HistoryEntry> {
    if date in h then h[date] else []
  }

  /** No two entries of a partition share a canonical URL. */
  predicate UniqueCanonical(part: seq<HistoryEntry>) {
    forall i, j :: 0 <= i < j < |part| ==> part[i].canonicalUrl != part[j].canonicalUrl
  }

  /** The loop of `append_to_history`: the first entry whose canonical URL matches. */
  function FindEntry(part: seq<HistoryEntry>, canonical: string): (r: Option<nat>)
    ensures r.Some? ==> r.value < |part| && part[r.value].canonicalUrl == canonical
    ensures r.Some? ==> forall j :: 0 <= j < r.value ==> part[j].canonicalUrl != canonical
    ensures r.None? ==> forall j :: 0 <= j < |part| ==> part[j].canonicalUrl != canonical
  {
    if |part| == 0 then None
    else if part[0].canonicalUrl == canonical then Some(0)
    else
      match FindEntry(part[1..], canonical)
      case None => None
      case Some(i) => Some(i + 1)
  }

  /** Extending a partition, or editing it without touching canonical URLs, keeps every lookup that succeeded. */
  lemma FindEntryKept(p: seq<HistoryEntry>, q: seq<HistoryEntry>, canonical: string)
    requires |p| <= |q|
    requires forall x :: 0 <= x < |p| ==> q[x].canonicalUrl == p[x].canonicalUrl
    requires FindEntry(p, canonical).Some?
    ensures FindEntry(q, canonical) == FindEntry(p, canonical)
  {
    var i := FindEntry(p, canonical).value;
    var r := FindEntry(q, canonical);
    assert q[i].canonicalUrl == canonical;
    assert r.Some?;
  }

  /**
    The in-memory step of `append_to_history`: the day's partition is created
    empty when missing, then searched for the page's canonical URL. A repeat
    visit appends the timestamp to the entry found and replaces its title; a
    first visit appends one new entry at the end. What happens to the day's
    partition is stated by `RepeatVisitStep` and `FirstVisitStep`.
  */
  function AppendToHistory(tools: UrlTools, h: HistoryStore, url: string, title: string, now: Instant): (r: HistoryStore)
    ensures now.date in r
    ensures forall d :: d != now.date ==> (d in r <==> d in h)
    ensures forall d :: d != now.date && d in h ==> r[d] == h[d]
    ensures |r[now.date]| >= |Partition(h, now.date)|
    ensures FindEntry(r[now.date], CanonicalUrl(tools, url)).Some?
  {
    var canonical := CanonicalUrl(tools, url);
    var part := Partition(h, now.date);
    var updated :=
      match FindEntry(part, canonical)
      case Some(i) =>
        part[i := part[i].(visits := part[i].visits + [now.stamp], title := title)]
      case None =>
        part + [HistoryEntry(title, url, canonical, FaviconKey(tools, url), [now.stamp])];
    assert FindEntry(updated, canonical).Some? by {
      if FindEntry(part, canonical).Some? {
        FindEntryKept(part, updated, canonical);
      } else {
        assert updated[|part|].canonicalUrl == canonical;
      }
    }
    h[now.date := updated]
  }

  /**
    A repeat visit within the day: the matching entry gets the timestamp
    appended and the new title; its URL, canonical URL and favicon id stay;
    every other entry and the partition's length stay as they were.
  */
  lemma RepeatVisitStep(tools: UrlTools, h: HistoryStore, url: string, title: string, now: Instant, i: nat)
    requires FindEntry(Partition(h, now.date), CanonicalUrl(tools, url)) == Some(i)
    ensures var part := Partition(h, now.date);
      var p := Partition(AppendToHistory(tools, h, url, title, now), now.date);
      && |p| == |part|
      && FindEntry(p, CanonicalUrl(tools, url)) == Some(i)
      && p[i].visits == part[i].visits + [now.stamp]
      && p[i].title == title
      && p[i].url == part[i].url
      && p[i].canonicalUrl == part[i].canonicalUrl
      && p[i].faviconId == part[i].faviconId
      && forall j :: 0 <= j < |part| && j != i ==> p[j] == part[j]
  {
    var part := Partition(h, now.date);
    var p := Partition(AppendToHistory(tools, h, url, title, now), now.date);
    FindEntryKept(part, p, CanonicalUrl(tools, url));
  }

  /**
    A first visit within the day (the partition may not exist yet): exactly
    one entry is appended at the end, with the raw and canonical URL, the
    domain's favicon id and the one timestamp; the entries before it stay.
  */
  lemma FirstVisitStep(tools: UrlTools, h: HistoryStore, url: string, title: string, now: Instant)
    requires FindEntry(Partition(h, now.date), CanonicalUrl(tools, url)).None?
    ensures var part := Partition(h, now.date);
      var p := Partition(AppendToHistory(tools, h, url, title, now), now.date);
      && |p| == |part| + 1
      && p[..|part|] == part
      && p[|part|] == HistoryEntry(title, url, CanonicalUrl(tools, url), FaviconKey(tools, url), [now.stamp])
      && FindEntry(p, CanonicalUrl(tools, url)) == Some(|part|)
  {
  }

  /** An entry found before a visit is found at the same index after it. */
  lemma AppendKeepsLookups(tools: UrlTools, h: HistoryStore, url: string, title: string, now: Instant, canonical: string)
    requires FindEntry(Partition(h, now.date), canonical).Some?
    ensures FindEntry(AppendToHistory(tools, h, url, title, now)[now.date], canonical)
         == FindEntry(Partition(h, now.date), canonical)
  {
    FindEntryKept(Partition(h, now.date), AppendToHistory(tools, h, url, title, now)[now.date], canonical);
  }

  /** Canonical URLs stay unique within every partition. */
  lemma AppendKeepsCanonicalUnique(tools: UrlTools, h: HistoryStore, url: string, title: string, now: Instant)
    requires forall d :: d in h ==> UniqueCanonical(h[d])
    ensures var r := AppendToHistory(tools, h, url, title, now);
      forall d :: d in r ==> UniqueCanonical(r[d])
  {
    var r := AppendToHistory(tools, h, url, title, now);
    var part := Partition(h, now.date);
    var canonical := CanonicalUrl(tools, url);
    assert UniqueCanonical(part);
    var p := r[now.date];
    forall i, j | 0 <= i < j < |p|
      ensures p[i].canonicalUrl != p[j].canonicalUrl
    {
      if FindEntry(part, canonical).None? && j == |part| {
        assert p[i] == part[i];
      }
    }
  }

  /** One call of `append_to_history`, as the page reports it. */
  datatype Visit = Visit(title: string, now: Instant)

  /** The visits recorded, in call order. */
  function Stamps(vs: seq<Visit>): (r: seq<int>)
    ensures |r| == |vs|
    ensures forall k :: 0 <= k < |vs| ==> r[k] == vs[k].now.stamp
    decreases |vs|
  {
    if |vs| == 0 then [] else [vs[0].now.stamp] + Stamps(vs[1..])
  }

  /** No visit in `vs` falls on `date`. */
  predicate NoVisitOn(vs: seq<Visit>, date: string) {
    forall k :: 0 <= k < |vs| ==> vs[k].now.date != date
  }

  /**
    Successive calls of `append_to_history` for one URL. No date partition
    is ever dropped, every visited date gets one, and a date no visit falls
    on keeps its partition as it was.
  */
  function RecordVisits(tools: UrlTools, h: HistoryStore, url: string, vs: seq<Visit>): (r: HistoryStore)
    ensures forall d :: d in h ==> d in r
    ensures forall k :: 0 <= k < |vs| ==> vs[k].now.date in r
    ensures forall d :: d in h && NoVisitOn(vs, d) ==> r[d] == h[d]
    decreases |vs|
  {
    if |vs| == 0 then h
    else RecordVisits(tools, AppendToHistory(tools, h, url, vs[0].title, vs[0].now), url, vs[1..])
  }

  /** Every visit in `vs` falls on `date`. */
  predicate SameDate(vs: seq<Visit>, date: string) {
    forall k :: 0 <= k < |vs| ==> vs[k].now.date == date
  }

  /** The title after a run of visits: the last call's, or `current` when there was none. */
  function LastTitle(current: string, vs: seq<Visit>): string {
    if |vs| == 0 then current else vs[|vs| - 1].title
  }

  /**
    Between stores `h` and `r`, the day's partition kept its length and its
    entry `i` (still the one found for `canonical`) kept its URLs and its
    favicon id, gained the timestamps `stamps` at the end and now carries
    `title`; every other entry of the day is as it was.
  */
  predicate Accumulated(h: HistoryStore, r: HistoryStore, date: string, canonical: string, i: nat, stamps: seq<int>, title: string) {
    var part := Partition(h, date);
    && date in r && i < |part|
    && |r[date]| == |part|
    && FindEntry(r[date], canonical) == Some(i)
    && r[date][i].visits == part[i].visits + stamps
    && r[date][i].title == title
    && r[date][i].url == part[i].url
    && r[date][i].canonicalUrl == part[i].canonicalUrl
    && r[date][i].faviconId == part[i].faviconId
    && forall j :: 0 <= j < |part| && j != i ==> r[date][j] == part[j]
  }

  lemma AccumulatedChain(h: HistoryStore, h1: HistoryStore, r: HistoryStore, date: string, canonical: string, i: nat,
                         s1: seq<int>, t1: string, s2: seq<int>, t2: string)
    requires Accumulated(h, h1, date, canonical, i, s1, t1)
    requires Accumulated(h1, r, date, canonical, i, s2, t2)
    ensures Accumulated(h, r, date, canonical, i, s1 + s2, t2)
  {
    var v := Partition(h, date)[i].visits;
    assert (v + s1) + s2 == v + (s1 + s2);
  }

  /**
    Repeat visits on one day land on the entry already there: its index,
    URLs and favicon id, the day's other entries and the partition's length
    stay put, the timestamps are appended in call order, and the title is
    the last call's.
  */
  lemma {:induction false} RepeatVisitsAccumulate(tools: UrlTools, h: HistoryStore, url: string, date: string, vs: seq<Visit>, i: nat)
    requires SameDate(vs, date)
    requires FindEntry(Partition(h, date), CanonicalUrl(tools, url)) == Some(i)
    ensures Accumulated(h, RecordVisits(tools, h, url, vs), date, CanonicalUrl(tools, url), i,
                        Stamps(vs), LastTitle(Partition(h, date)[i].title, vs))
    decreases |vs|
  {
    var c := CanonicalUrl(tools, url);
    var part := Partition(h, date);
    if |vs| == 0 {
      assert date in h;
      assert part[i].visits + [] == part[i].visits;
    } else {
      var now := vs[0].now;
      assert now.date == date;
      var h1 := AppendToHistory(tools, h, url, vs[0].title, now);
      RepeatVisitStep(tools, h, url, vs[0].title, now, i);
      assert Accumulated(h, h1, date, c, i, [now.stamp], vs[0].title);
      var rest := vs[1..];
      assert SameDate(rest, date);
      RepeatVisitsAccumulate(tools, h1, url, date, rest, i);
      var t := LastTitle(Partition(h1, date)[i].title, rest);
      assert t == LastTitle(part[i].title, vs) by {
        if |rest| > 0 {
          assert vs[|vs| - 1] == rest[|rest| - 1];
        }
      }
      AccumulatedChain(h, h1, RecordVisits(tools, h1, url, rest), date, c, i, [now.stamp], vs[0].title, Stamps(rest), t);
    }
  }

  /**
    For any non-empty run of visits to a URL on one day that had no entry for
    it, the day ends with exactly one new entry: at the end, with one
    timestamp per call in call order and the last call's title.
  */
  lemma FirstVisitThenRepeats(tools: UrlTools, h: HistoryStore, url: string, date: string, vs: seq<Visit>)
    requires |vs| > 0 && SameDate(vs, date)
    requires FindEntry(Partition(h, date), CanonicalUrl(tools, url)).None?
    ensures var n := |Partition(h, date)|;
      var r := RecordVisits(tools, h, url, vs);
      && date in r
      && |r[date]| == n + 1
      && FindEntry(r[date], CanonicalUrl(tools, url)) == Some(n)
      && r[date][n].visits == Stamps(vs)
      && r[date][n].title == vs[|vs| - 1].title
      && r[date][n].url == url
  {
    var n := |Partition(h, date)|;
    var now := vs[0].now;
    assert now.date == date;
    var h1 := AppendToHistory(tools, h, url, vs[0].title, now);
    FirstVisitStep(tools, h, url, vs[0].title, now);
    var rest := vs[1..];
    assert SameDate(rest, date);
    RepeatVisitsAccumulate(tools, h1, url, date, rest, n);
    if |rest| > 0 {
      assert vs[|vs| - 1] == rest[|rest| - 1];
    }
  }

  /** The same page visited on two different days gets an entry in each day's partition. */
  lemma DatesAreNeverMerged(tools: UrlTools, h: HistoryStore, url: string, t1: string, t2: string, n1: Instant, n2: Instant)
    requires n1.date != n2.date
    ensures var r := AppendToHistory(tools, AppendToHistory(tools, h, url, t1, n1), url, t2, n2);
      && FindEntry(r[n1.date], CanonicalUrl(tools, url)).Some?
      && FindEntry(r[n2.date], CanonicalUrl(tools, url)).Some?
  {
  }

  /** Two pages with different canonical URLs visited on one day get two different entries. */
  lemma DistinctPagesGetDistinctEntries(tools: UrlTools, h: HistoryStore, u1: string, u2: string, t1: string, t2: string, now1: Instant, now2: Instant)
    requires now1.date == now2.date
    requires CanonicalUrl(tools, u1) != CanonicalUrl(tools, u2)
    ensures var r := AppendToHistory(tools, AppendToHistory(tools, h, u1, t1, now1), u2, t2, now2);
      var p := r[now1.date];
      && FindEntry(p, CanonicalUrl(tools, u1)).Some?
      && FindEntry(p, CanonicalUrl(tools, u2)).Some?
      && FindEntry(p, CanonicalUrl(tools, u1)) != FindEntry(p, CanonicalUrl(tools, u2))
  {
    var h1 := AppendToHistory(tools, h, u1, t1, now1);
    AppendKeepsLookups(tools, h1, u2, t2, now2, CanonicalUrl(tools, u1));
  }

  // ---------------------------------------------------------------------------
  // Favicon cache

  datatype Status = Pending | Loaded

  datatype FaviconRecord = FaviconRecord(
    domain: string,
    iconData: Option<string>,
    lastUpdated: Option<string>,
    status: Status)

  /** Favicon id to record. */
  type FaviconStore = map<string, FaviconRecord>

  /**
    A QIcon as far as this code looks at it: whether it is null, how many
    sizes it offers, and the base64 PNG that encoding it at 24x24 produces.
  */
  datatype Icon = Icon(isNull: bool, availableSizes: nat, pngBase64: string)

  /** `favicon.isNull() or len(favicon.availableSizes()) <= 0`. */
  predicate IsIconEmpty(icon: Icon) {
    icon.isNull || icon.availableSizes == 0
  }

  /** `qicon_to_base64`: a PNG data URI. */
  function DataUri(icon: Icon): (r: string)
    ensures "data:image/png;base64," <= r
  {
    "data:image/png;base64," + icon.pngBase64
  }

  /** `icon or page.icon()`: the given icon unless it is missing or null. */
  function ChooseIcon(given: Option<Icon>, pageIcon: Icon): (r: Icon)
    ensures given.Some? && !given.value.isNull ==> r == given.value
    ensures given.None? || given.value.isNull ==> r == pageIcon
  {
    if given.Some? && !given.value.isNull then given.value else pageIcon
  }

  /** The record written for `domain`: pending and empty exactly when the icon is empty. */
  function NewRecord(domain: string, icon: Icon, nowIso: string): (r: FaviconRecord)
    ensures r.domain == domain
    ensures r.status == Pending <==> IsIconEmpty(icon)
    ensures r.iconData.None? <==> IsIconEmpty(icon)
    ensures r.lastUpdated.None? <==> IsIconEmpty(icon)
    ensures !IsIconEmpty(icon) ==> r.iconData == Some(DataUri(icon)) && r.lastUpdated == Some(nowIso)
  {
    if IsIconEmpty(icon) then FaviconRecord(domain, None, None, Pending)
    else FaviconRecord(domain, Some(DataUri(icon)), Some(nowIso), Loaded)
  }

  /** A record may be (re)written only when it is absent or still pending. */
  predicate MayOverwrite(m: FaviconStore, id: string) {
    id !in m || m[id].status == Pending
  }

  /** The guarded write of `append_to_favicons`. */
  function Upsert(m: FaviconStore, id: string, rec: FaviconRecord): (r: FaviconStore)
    ensures id in r
    ensures MayOverwrite(m, id) ==> r[id] == rec
    ensures !MayOverwrite(m, id) ==> r[id] == m[id]
    ensures forall k :: k != id ==> (k in r <==> k in m)
    ensures forall k :: k != id && k in m ==> r[k] == m[k]
  {
    if MayOverwrite(m, id) then m[id := rec] else m
  }

  /** The clean-up loop: every record whose domain is "" is dropped, the rest kept as they are. */
  function PurgeEmptyDomains(m: FaviconStore): (r: FaviconStore)
    ensures forall k :: k in r <==> k in m && m[k].domain != ""
    ensures forall k :: k in r ==> r[k] == m[k]
  {
    map k | k in m && m[k].domain != "" :: m[k]
  }

  /**
    The in-memory step of `append_to_favicons`. Records other than the page's
    are kept unless their domain is empty; a loaded record is never touched;
    an absent or pending record is replaced by one that follows the icon;
    no record with an empty domain survives.
  */
  function AppendToFavicons(tools: UrlTools, m: FaviconStore, url: string, given: Option<Icon>, pageIcon: Icon, nowIso: string): (r: FaviconStore)
    ensures forall k :: k in r ==> r[k].domain != ""
    ensures var id := FaviconKey(tools, url);
      forall k :: k != id ==> (k in r <==> k in m && m[k].domain != "")
    ensures forall k :: k in r && k in m && k != FaviconKey(tools, url) ==> r[k] == m[k]
    ensures forall k :: k in m && m[k].status == Loaded ==>
              (k in r <==> m[k].domain != "") && (k in r ==> r[k] == m[k])
    ensures var id := FaviconKey(tools, url);
      var domain := DomainOf(tools, CanonicalUrl(tools, url));
      var icon := ChooseIcon(given, pageIcon);
      MayOverwrite(m, id) ==>
        && (id in r <==> domain != "")
        && (id in r ==> r[id] == NewRecord(domain, icon, nowIso))
  {
    var favicon := ChooseIcon(given, pageIcon);
    var canonical := CanonicalUrl(tools, url);
    var domain := DomainOf(tools, canonical);
    var id := FaviconId(tools, domain);
    PurgeEmptyDomains(Upsert(m, id, NewRecord(domain, favicon, nowIso)))
  }

  /**
    Once a page's icon is stored as loaded, later writes for any page of the
    same domain leave that record exactly as it is, whatever icon they bring.
  */
  lemma LoadedIconIsFrozen(tools: UrlTools, m: FaviconStore, url: string, given: Option<Icon>, pageIcon: Icon, nowIso: string,
                           url2: string, given2: Option<Icon>, pageIcon2: Icon, nowIso2: string)
    requires MayOverwrite(m, FaviconKey(tools, url))
    requires !IsIconEmpty(ChooseIcon(given, pageIcon))
    requires DomainOf(tools, CanonicalUrl(tools, url)) != ""
    requires FaviconKey(tools, url2) == FaviconKey(tools, url)
    ensures var id := FaviconKey(tools, url);
      var m1 := AppendToFavicons(tools, m, url, given, pageIcon, nowIso);
      var m2 := AppendToFavicons(tools, m1, url2, given2, pageIcon2, nowIso2);
      && id in m1 && m1[id].status == Loaded
      && id in m2 && m2[id] == m1[id]
  {
  }

  /** A pending record is refreshed by every write until an icon arrives. */
  lemma PendingIsRefreshed(tools: UrlTools, m: FaviconStore, url: string, given: Option<Icon>, pageIcon: Icon, nowIso: string)
    requires FaviconKey(tools, url) in m && m[FaviconKey(tools, url)].status == Pending
    requires DomainOf(tools, CanonicalUrl(tools, url)) != ""
    ensures var r := AppendToFavicons(tools, m, url, given, pageIcon, nowIso);
      var id := FaviconKey(tools, url);
      && id in r
      && (r[id].status == Loaded <==> !IsIconEmpty(ChooseIcon(given, pageIcon)))
  {
  }

  /**
    The history entry created for a page and the favicon record written for
    it use the same key, so the entry's `favicon_id` finds the record.
  */
  lemma HistoryReferencesFavicon(tools: UrlTools, h: HistoryStore, m: FaviconStore, url: string, title: string, now: Instant,
                                 given: Option<Icon>, pageIcon: Icon, nowIso: string)
    requires FindEntry(Partition(h, now.date), CanonicalUrl(tools, url)).None?
    requires DomainOf(tools, CanonicalUrl(tools, url)) != ""
    requires MayOverwrite(m, FaviconKey(tools, url))
    ensures var part := AppendToHistory(tools, h, url, title, now)[now.date];
      var favicons := AppendToFavicons(tools, m, url, given, pageIcon, nowIso);
      && part[|part| - 1].faviconId in favicons
      && favicons[part[|part| - 1].faviconId].domain == DomainOf(tools, CanonicalUrl(tools, url))
  {
  }
}
