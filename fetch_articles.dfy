/** scripts/fetch-articles.js: six source adapters that pull candidate news
    records out of fetched pages, and the aggregator that merges what they
    return, removes duplicate titles, orders the result newest first and
    counts records per source. */
module FetchArticles {

  import opened Wrappers
  import opened Text
  import KeyedDedup
  import Sorting
  import Lists

  /** One candidate news record as the scripts store it; `fetchedAt` is the
      clock reading taken when the record was built. */
  datatype Record = Record(title: string, url: string, source: string, fetchedAt: int)

  /** One anchor of a page (or, for the feed, one item): the link target as
      written (the empty string when the attribute is missing) and the raw
      display text. */
  datatype Anchor = Anchor(href: string, text: string)

  /** A fetched and parsed page: its anchors in document order and the clock
      reading taken while they were visited. */
  datatype Page = Page(anchors: seq<Anchor>, clock: int)

  /** A substring test on a link target or a display text. */
  datatype Test = AnyString | Includes(needle: string) | Excludes(needle: string)

  predicate Passes(t: Test, s: string) {
    match t
    case AnyString => true
    case Includes(n) => Contains(s, n)
    case Excludes(n) => !Contains(s, n)
  }

  /** What tells the six adapters apart. `origin` is the site origin that
      relative links are resolved against; the feed adapter has none and uses
      its trimmed links as they are. */
  datatype Adapter = Adapter(origin: Option<string>, hrefTest: Test, textTest: Test, source: string)

  const Baystars := Adapter(Some("https://www.baystars.co.jp"), Includes("/news/"), AnyString, "ベイスターズ公式")
  /** The `a[href*="npb"]` selector is a test on the link target. */
  const Yahoo := Adapter(Some("https://baseball.yahoo.co.jp"), Includes("npb"), Excludes("チケット"), "Yahoo!ニュース")
  const Sportsnavi := Adapter(Some("https://sports.yahoo.co.jp"), AnyString, Excludes("チケット"), "スポーツナビ")
  const Google := Adapter(None, AnyString, AnyString, "Google ニュース")
  const Nikkan := Adapter(Some("https://www.nikkansports.com"), Includes("baseball"), AnyString, "日刊スポーツ")
  const Mainichi := Adapter(Some("https://mainichi.jp"), AnyString, Includes("ベイスターズ"), "毎日新聞")

  /** The adapters in the order `fetchAllArticles` launches them. */
  const Adapters := [Baystars, Yahoo, Sportsnavi, Google, Nikkan, Mainichi]

  /** A display text is kept only if its length lies strictly between these. */
  const MinTextLength := 5
  const MaxTextLength := 200
  const TitleLength := 150
  const PerSourceCap := 10

  /** The link as the adapter sees it: the feed trims the text of `<link>`,
      the page adapters read the `href` attribute untouched. */
  function LinkOf(a: Adapter, an: Anchor): string {
    if a.origin.None? then Trim(an.href) else an.href
  }

  /** The inclusion filter applied to each anchor. */
  predicate Accepted(a: Adapter, an: Anchor) {
    var href, text := LinkOf(a, an), Trim(an.text);
    && href != [] && text != []
    && MinTextLength < |text| < MaxTextLength
    && Passes(a.hrefTest, href) && Passes(a.textTest, text)
  }

  /** `href.startsWith('http') ? href : origin + href`; without an origin the
      link is used as it is. */
  function Resolve(origin: Option<string>, href: string): string {
    match origin
    case None => href
    case Some(o) => if StartsWith(href, "http") then href else o + href
  }

  /** The record built from an anchor with a non-empty trimmed text (every
      accepted anchor has one). */
  function ToRecord(a: Adapter, an: Anchor, clock: int): (r: Record)
    requires Trim(an.text) != []
    ensures 0 < |r.title| <= TitleLength && StartsWith(Trim(an.text), r.title)
    ensures |r.title| == TitleLength || r.title == Trim(an.text)
    ensures r.source == a.source && r.fetchedAt == clock
  {
    Record(Take(Trim(an.text), TitleLength), Resolve(a.origin, LinkOf(a, an)), a.source, clock)
  }

  /** The records the `.each` callback pushes, in document order. */
  function Candidates(a: Adapter, anchors: seq<Anchor>, clock: int): seq<Record> {
    if anchors == [] then []
    else
      var last := anchors[|anchors| - 1];
      Candidates(a, anchors[..|anchors| - 1], clock)
        + if Accepted(a, last) then [ToRecord(a, last, clock)] else []
  }

  function TitleOf(r: Record): string {
    r.title
  }

  /** What one adapter returns for a page, or for a failed fetch. */
  function Harvest(a: Adapter, page: Option<Page>): seq<Record> {
    match page
    case None => []
    case Some(p) => Take(KeyedDedup.Values(Candidates(a, p.anchors, p.clock), TitleOf), PerSourceCap)
  }

  /** The body shared by the six `fetch*` functions, after the fetch: visit
      the anchors, push a record for each accepted one, deduplicate by title
      through a Map, keep the first ten. */
  method Extract(a: Adapter, page: Option<Page>) returns (articles: seq<Record>)
    ensures articles == Harvest(a, page)
    ensures |articles| <= PerSourceCap
    ensures KeyedDedup.DistinctKeys(articles, TitleOf)
    ensures forall r :: r in articles ==> r.source == a.source && 0 < |r.title| <= TitleLength
  {
    if page.None? {
      return [];
    }
    var anchors, clock := page.value.anchors, page.value.clock;
    var found := [];
    for i := 0 to |anchors|
      invariant found == Candidates(a, anchors[..i], clock)
    {
      var an := anchors[i];
      assert anchors[..i + 1][..i] == anchors[..i];
      if Accepted(a, an) {
        found := found + [ToRecord(a, an, clock)];
      }
    }
    assert anchors[..|anchors|] == anchors;
    var unique := KeyedDedup.Values(found, TitleOf);
    articles := if |unique| <= PerSourceCap then unique else unique[..PerSourceCap];
    KeyedDedup.ValuesDistinct(found, TitleOf);
    ValuesAreCandidates(a, anchors, clock);
  }

  /** Every candidate comes from an accepted anchor of the page, and every
      accepted anchor yields one. */
  lemma CandidatesExact(a: Adapter, anchors: seq<Anchor>, clock: int)
    ensures forall r :: r in Candidates(a, anchors, clock) ==>
      exists an :: an in anchors && Accepted(a, an) && r == ToRecord(a, an, clock)
    ensures forall an :: an in anchors && Accepted(a, an) ==> ToRecord(a, an, clock) in Candidates(a, anchors, clock)
  {
    CandidatesSound(a, anchors, clock);
    CandidatesComplete(a, anchors, clock);
  }

  lemma {:induction false} CandidatesSound(a: Adapter, anchors: seq<Anchor>, clock: int)
    ensures forall r :: r in Candidates(a, anchors, clock) ==>
      exists an :: an in anchors && Accepted(a, an) && r == ToRecord(a, an, clock)
  {
    if anchors != [] {
      var init := anchors[..|anchors| - 1];
      CandidatesSound(a, init, clock);
      assert forall an :: an in init ==> an in anchors;
    }
  }

  lemma {:induction false} CandidatesComplete(a: Adapter, anchors: seq<Anchor>, clock: int)
    ensures forall an :: an in anchors && Accepted(a, an) ==> ToRecord(a, an, clock) in Candidates(a, anchors, clock)
  {
    if anchors != [] {
      var init := anchors[..|anchors| - 1];
      CandidatesComplete(a, init, clock);
      assert anchors == init + [anchors[|anchors| - 1]];
    }
  }

  /** The deduplicated records are candidates, so each one passed the filter. */
  lemma ValuesAreCandidates(a: Adapter, anchors: seq<Anchor>, clock: int)
    ensures var c := Candidates(a, anchors, clock);
      forall r :: r in KeyedDedup.Values(c, TitleOf) ==>
        r in c && r.source == a.source && 0 < |r.title| <= TitleLength
  {
    var c := Candidates(a, anchors, clock);
    var v := KeyedDedup.Values(c, TitleOf);
    KeyedDedup.ValuesKeepLast(c, TitleOf);
    CandidatesExact(a, anchors, clock);
    forall r | r in v ensures r in c {
      var n :| 0 <= n < |v| && v[n] == r;
      assert r == c[KeyedDedup.LastIndexOf(c, TitleOf, TitleOf(v[n]))];
    }
  }

  /** An adapter returns only records built from anchors its filter accepts. */
  lemma HarvestFiltered(a: Adapter, page: Page)
    ensures forall r :: r in Harvest(a, Some(page)) ==>
      exists an :: an in page.anchors && Accepted(a, an) && r == ToRecord(a, an, page.clock)
  {
    var c := Candidates(a, page.anchors, page.clock);
    ValuesAreCandidates(a, page.anchors, page.clock);
    CandidatesExact(a, page.anchors, page.clock);
    var v := KeyedDedup.Values(c, TitleOf);
    forall r | r in Harvest(a, Some(page)) ensures r in v { }
  }

  /** The feed adapter applies only the length filter, to the trimmed link
      and text. */
  lemma FeedTest(an: Anchor)
    ensures Accepted(Google, an) <==>
      Trim(an.href) != [] && MinTextLength < |Trim(an.text)| < MaxTextLength
  {
  }

  /** The filter of each page adapter: a non-empty link and a trimmed text
      of 6 to 199 characters, plus what the adapter itself asks of them. */
  predicate Plausible(an: Anchor) {
    an.href != [] && MinTextLength < |Trim(an.text)| < MaxTextLength
  }

  lemma BaystarsTest(an: Anchor)
    ensures Accepted(Baystars, an) <==> Plausible(an) && Contains(an.href, "/news/")
  {
    assert LinkOf(Baystars, an) == an.href;
    assert Passes(Baystars.hrefTest, an.href) == Passes(Baystars.hrefTest, LinkOf(Baystars, an));
  }

  lemma YahooTest(an: Anchor)
    ensures Accepted(Yahoo, an) <==> Plausible(an) && Contains(an.href, "npb") && !Contains(Trim(an.text), "チケット")
  {
    assert LinkOf(Yahoo, an) == an.href;
    assert Passes(Yahoo.hrefTest, an.href) == Passes(Yahoo.hrefTest, LinkOf(Yahoo, an));
  }

  lemma SportsnaviTest(an: Anchor)
    ensures Accepted(Sportsnavi, an) <==> Plausible(an) && !Contains(Trim(an.text), "チケット")
  {
    assert LinkOf(Sportsnavi, an) == an.href;
    assert Passes(Sportsnavi.hrefTest, an.href) == Passes(Sportsnavi.hrefTest, LinkOf(Sportsnavi, an));
  }

  lemma NikkanTest(an: Anchor)
    ensures Accepted(Nikkan, an) <==> Plausible(an) && Contains(an.href, "baseball")
  {
    assert LinkOf(Nikkan, an) == an.href;
    assert Passes(Nikkan.hrefTest, an.href) == Passes(Nikkan.hrefTest, LinkOf(Nikkan, an));
  }

  lemma MainichiTest(an: Anchor)
    ensures Accepted(Mainichi, an) <==> Plausible(an) && Contains(Trim(an.text), "ベイスターズ")
  {
    assert LinkOf(Mainichi, an) == an.href;
    assert Passes(Mainichi.hrefTest, an.href) == Passes(Mainichi.hrefTest, LinkOf(Mainichi, an));
  }

  /** With an origin that is itself absolute, every resolved link starts with
      "http"; an absolute link is kept unchanged and a relative one is appended
      to the origin. */
  lemma ResolveAbsolute(origin: string, href: string)
    requires StartsWith(origin, "http")
    ensures StartsWith(Resolve(Some(origin), href), "http")
    ensures StartsWith(href, "http") ==> Resolve(Some(origin), href) == href
    ensures !StartsWith(href, "http") ==> Resolve(Some(origin), href) == origin + href
  {
    if !StartsWith(href, "http") {
      assert (origin + href)[..4] == origin[..4];
    }
  }

  /** The adapter deduplicates BEFORE it caps: its output is the first ten of
      the deduplicated candidates, with distinct titles, each the last
      candidate carrying that title. */
  lemma HarvestDedupThenCap(a: Adapter, page: Page)
    ensures var c := Candidates(a, page.anchors, page.clock);
      var h := Harvest(a, Some(page));
      && |h| <= PerSourceCap
      && h == KeyedDedup.Values(c, TitleOf)[..|h|]
      && (|h| < PerSourceCap ==> h == KeyedDedup.Values(c, TitleOf))
      && (forall n :: 0 <= n < |h| ==>
            0 <= KeyedDedup.LastIndexOf(c, TitleOf, h[n].title)
            && h[n] == c[KeyedDedup.LastIndexOf(c, TitleOf, h[n].title)])
  {
    var c := Candidates(a, page.anchors, page.clock);
    KeyedDedup.ValuesKeepLast(c, TitleOf);
  }

  // ---------------------------------------------------------------- aggregator

  /** The settled results, in declaration order: `None` for a rejected
      promise. The records of the fulfilled ones are concatenated. */
  function Fulfilled(outcomes: seq<Option<seq<Record>>>): seq<Record> {
    if outcomes == [] then []
    else
      Fulfilled(outcomes[..|outcomes| - 1])
        + match outcomes[|outcomes| - 1] case Some(rs) => rs case None => []
  }

  /** The cross-source dedup key, `item.title.trim()`. */
  function TrimmedTitle(r: Record): string {
    Trim(r.title)
  }

  /** The comparator `(a, b) => new Date(b.fetchedAt) - new Date(a.fetchedAt)`
      puts `x` strictly before `y` exactly when `x` is newer. */
  predicate Newer(x: Record, y: Record) {
    x.fetchedAt > y.fetchedAt
  }

  /** The snapshot `fetchAllArticles` writes and returns. */
  function Merged(outcomes: seq<Option<seq<Record>>>): seq<Record> {
    Sorting.InsertionSort(KeyedDedup.Values(Fulfilled(outcomes), TrimmedTitle), Newer)
  }

  /** Per-source counts, as the entries of the `sourceStats` object in
      insertion order. */
  type Stats = seq<(string, nat)>

  /** The position of `src` among the entries, or -1. */
  function EntryOf(stats: Stats, src: string): (r: int)
    ensures -1 <= r < |stats|
    ensures r == -1 <==> forall k :: 0 <= k < |stats| ==> stats[k].0 != src
    ensures r >= 0 ==> stats[r].0 == src
  {
    if stats == [] then -1
    else if stats[|stats| - 1].0 == src then |stats| - 1
    else EntryOf(stats[..|stats| - 1], src)
  }

  /** `sourceStats[src] = (sourceStats[src] || 0) + 1` */
  function Bump(stats: Stats, src: string): Stats {
    var k := EntryOf(stats, src);
    if k < 0 then stats + [(src, 1)] else stats[k := (src, stats[k].1 + 1)]
  }

  function SourceCounts(rs: seq<Record>): Stats {
    if rs == [] then [] else Bump(SourceCounts(rs[..|rs| - 1]), rs[|rs| - 1].source)
  }

  /** The number of records from `src`. */
  function CountFrom(rs: seq<Record>, src: string): nat {
    if rs == [] then 0
    else CountFrom(rs[..|rs| - 1], src) + if rs[|rs| - 1].source == src then 1 else 0
  }

  function Total(stats: Stats): nat {
    if stats == [] then 0 else Total(stats[..|stats| - 1]) + stats[|stats| - 1].1
  }

  /** The `forEach` over the settled results: append each fulfilled array. */
  method Gather(outcomes: seq<Option<seq<Record>>>) returns (all: seq<Record>)
    ensures all == Fulfilled(outcomes)
  {
    all := [];
    for i := 0 to |outcomes|
      invariant all == Fulfilled(outcomes[..i])
    {
      assert outcomes[..i + 1][..i] == outcomes[..i];
      match outcomes[i] {
        case Some(rs) => all := all + rs;
        case None =>
      }
    }
    assert outcomes[..|outcomes|] == outcomes;
  }

  /** The `forEach` that fills `sourceStats`. */
  method CountSources(articles: seq<Record>) returns (stats: Stats)
    ensures stats == SourceCounts(articles)
  {
    stats := [];
    for i := 0 to |articles|
      invariant stats == SourceCounts(articles[..i])
    {
      assert articles[..i + 1][..i] == articles[..i];
      stats := Bump(stats, articles[i].source);
    }
    assert articles[..|articles|] == articles;
  }

  /** The merge step of `fetchAllArticles`, given the settled outcomes: gather
      the fulfilled arrays, deduplicate by trimmed title, sort newest first in
      place, then count records per source. What the result satisfies is
      proved about `Merged` and `SourceCounts` below. */
  method Aggregate(outcomes: seq<Option<seq<Record>>>) returns (articles: seq<Record>, stats: Stats)
    ensures articles == Merged(outcomes)
    ensures stats == SourceCounts(articles)
  {
    var all := Gather(outcomes);
    var unique := KeyedDedup.Values(all, TrimmedTitle);
    var a := new Record[|unique|](i requires 0 <= i < |unique| => unique[i]);
    assert a[..] == unique;
    Sorting.SortInPlace(a, Newer);
    articles := a[..];
    stats := CountSources(articles);
  }

  /** The settled outcomes of the adapters run on their pages (`None` for a
      failed fetch), in declaration order. Every adapter catches its own
      errors, so each promise fulfils. */
  function Settled(pages: seq<Option<Page>>): seq<Option<seq<Record>>>
    requires |pages| <= |Adapters|
  {
    seq(|pages|, i requires 0 <= i < |pages| => Some(Harvest(Adapters[i], pages[i])))
  }

  /** `fetchAllArticles` as a whole: run the six adapters, then merge. */
  method FetchAllArticles(pages: seq<Option<Page>>) returns (articles: seq<Record>, stats: Stats)
    requires |pages| == |Adapters|
    ensures articles == Merged(Settled(pages))
    ensures stats == SourceCounts(articles)
  {
    var outcomes := [];
    for i := 0 to |pages|
      invariant |outcomes| == i
      invariant forall k :: 0 <= k < i ==> outcomes[k] == Some(Harvest(Adapters[k], pages[k]))
    {
      var rs := Extract(Adapters[i], pages[i]);
      outcomes := outcomes + [Some(rs)];
    }
    assert outcomes == Settled(pages);
    articles, stats := Aggregate(outcomes);
  }

  lemma NewerIsStrictWeakOrder()
    ensures Sorting.StrictWeakOrder(Newer)
  {
  }

  /** Records with the same `fetchedAt`. */
  function AtTime(rs: seq<Record>, t: int): seq<Record> {
    Lists.Filter(rs, (r: Record) => r.fetchedAt == t)
  }

  /** The snapshot is non-increasing in `fetchedAt`, is a reordering of the
      deduplicated records, and the sort is stable: records with equal
      timestamps keep their order from the dedup step. */
  lemma MergedOrder(outcomes: seq<Option<seq<Record>>>, t: int)
    ensures var m := Merged(outcomes);
      var u := KeyedDedup.Values(Fulfilled(outcomes), TrimmedTitle);
      && (forall i, j :: 0 <= i < j < |m| ==> m[i].fetchedAt >= m[j].fetchedAt)
      && multiset(m) == multiset(u)
      && AtTime(m, t) == AtTime(u, t)
  {
    var u := KeyedDedup.Values(Fulfilled(outcomes), TrimmedTitle);
    NewerIsStrictWeakOrder();
    Sorting.SortSorted(u, Newer);
    Sorting.SortPermutes(u, Newer);
    Sorting.SortStable(u, Newer, (r: Record) => r.fetchedAt == t);
  }

  /** Trimmed titles in the snapshot are pairwise distinct, and exactly the
      trimmed titles of all fulfilled records occur. */
  lemma MergedTitles(outcomes: seq<Option<seq<Record>>>)
    ensures KeyedDedup.DistinctKeys(Merged(outcomes), TrimmedTitle)
    ensures KeyedDedup.Keys(Merged(outcomes), TrimmedTitle) == KeyedDedup.Keys(Fulfilled(outcomes), TrimmedTitle)
  {
    var all := Fulfilled(outcomes);
    var u := KeyedDedup.Values(all, TrimmedTitle);
    var m := Merged(outcomes);
    KeyedDedup.ValuesDistinct(all, TrimmedTitle);
    KeyedDedup.ValuesKeys(all, TrimmedTitle);
    Sorting.SortKeepsDistinct(u, Newer, TrimmedTitle);
    Sorting.SortPermutes(u, Newer);
    forall k | k in KeyedDedup.Keys(m, TrimmedTitle) ensures k in KeyedDedup.Keys(u, TrimmedTitle) {
      var i :| 0 <= i < |m| && TrimmedTitle(m[i]) == k;
      assert m[i] in multiset(u);
    }
    forall k | k in KeyedDedup.Keys(u, TrimmedTitle) ensures k in KeyedDedup.Keys(m, TrimmedTitle) {
      var i :| 0 <= i < |u| && TrimmedTitle(u[i]) == k;
      assert u[i] in multiset(m);
    }
  }

  /** Deduplicating the merged records again changes nothing. */
  lemma MergeIdempotent(outcomes: seq<Option<seq<Record>>>)
    ensures KeyedDedup.Values(Merged(outcomes), TrimmedTitle) == Merged(outcomes)
  {
    MergedTitles(outcomes);
    KeyedDedup.ValuesOfDistinct(Merged(outcomes), TrimmedTitle);
  }

  /** Only fulfilled results contribute, in declaration order. */
  lemma {:induction false} FulfilledAppend(outcomes: seq<Option<seq<Record>>>, more: seq<Option<seq<Record>>>)
    ensures Fulfilled(outcomes + more) == Fulfilled(outcomes) + Fulfilled(more)
  {
    if more == [] {
      assert outcomes + more == outcomes;
    } else {
      var init, last := more[..|more| - 1], more[|more| - 1];
      var all := outcomes + more;
      FulfilledAppend(outcomes, init);
      assert all[..|all| - 1] == outcomes + init;
      assert all[|all| - 1] == last;
      var tail := match last case Some(rs) => rs case None => [];
      calc {
        Fulfilled(all);
        Fulfilled(outcomes + init) + tail;
        Fulfilled(outcomes) + Fulfilled(init) + tail;
        Fulfilled(outcomes) + (Fulfilled(init) + tail);
        Fulfilled(outcomes) + Fulfilled(more);
      }
    }
  }

  /** When every source but one fails or finds nothing, the snapshot is that
      one source's records, deduplicated and ordered. */
  lemma OneSourceLeft(outcomes: seq<Option<seq<Record>>>, k: nat)
    requires k < |outcomes| && outcomes[k].Some?
    requires forall i :: 0 <= i < |outcomes| && i != k ==> outcomes[i] == None || outcomes[i] == Some([])
    ensures Fulfilled(outcomes) == outcomes[k].value
    ensures Merged(outcomes) == Sorting.InsertionSort(KeyedDedup.Values(outcomes[k].value, TrimmedTitle), Newer)
  {
    var pre, mid, post := outcomes[..k], [outcomes[k]], outcomes[k + 1..];
    assert forall i :: 0 <= i < |pre| ==> pre[i] == outcomes[i];
    assert forall i :: 0 <= i < |post| ==> post[i] == outcomes[k + 1 + i];
    NothingFulfilled(pre);
    NothingFulfilled(post);
    assert outcomes == pre + mid + post;
    calc {
      Fulfilled(outcomes);
      { FulfilledAppend(pre + mid, post); }
      Fulfilled(pre + mid) + Fulfilled(post);
      { FulfilledAppend(pre, mid); }
      Fulfilled(pre) + Fulfilled(mid) + Fulfilled(post);
      Fulfilled(mid);
      { assert mid[..0] == []; }
      outcomes[k].value;
    }
  }

  /** Failed or empty results contribute nothing; with no source succeeding
      the snapshot is empty. */
  lemma {:induction false} NothingFulfilled(outcomes: seq<Option<seq<Record>>>)
    requires forall i :: 0 <= i < |outcomes| ==> outcomes[i] == None || outcomes[i] == Some([])
    ensures Fulfilled(outcomes) == [] && Merged(outcomes) == []
  {
    if outcomes != [] {
      NothingFulfilled(outcomes[..|outcomes| - 1]);
    }
  }

  // ---------------------------------------------------------- source counts

  lemma {:induction false} BumpTotal(stats: Stats, src: string)
    ensures Total(Bump(stats, src)) == Total(stats) + 1
  {
    var k := EntryOf(stats, src);
    if k >= 0 && k < |stats| - 1 {
      BumpTotal(stats[..|stats| - 1], src);
      assert Bump(stats, src)[..|stats| - 1] == Bump(stats[..|stats| - 1], src);
    } else if k < 0 {
      assert (stats + [(src, 1)])[..|stats|] == stats;
    } else {
      assert Bump(stats, src)[..|stats| - 1] == stats[..|stats| - 1];
    }
  }

  /** The counts add up to the number of records. */
  lemma {:induction false} CountsTotal(rs: seq<Record>)
    ensures Total(SourceCounts(rs)) == |rs|
  {
    if rs != [] {
      CountsTotal(rs[..|rs| - 1]);
      BumpTotal(SourceCounts(rs[..|rs| - 1]), rs[|rs| - 1].source);
    }
  }

  /** No source label has two entries. */
  lemma {:induction false} CountsDistinct(rs: seq<Record>)
    ensures forall i, j :: 0 <= i < j < |SourceCounts(rs)| ==> SourceCounts(rs)[i].0 != SourceCounts(rs)[j].0
  {
    if rs != [] {
      var init, x := rs[..|rs| - 1], rs[|rs| - 1];
      CountsDistinct(init);
      var st := SourceCounts(init);
      var p := EntryOf(st, x.source);
      var st' := SourceCounts(rs);
      forall k | 0 <= k < |st'| ensures st'[k].0 == if k < |st| then st[k].0 else x.source {
        if k == p { assert st[p].0 == x.source; }
      }
      forall i, j | 0 <= i < j < |st'| ensures st'[i].0 != st'[j].0 {
        if j == |st| {
          assert p < 0;
        }
      }
    }
  }

  /** Every record's source label has an entry. */
  lemma {:induction false} CountsCover(rs: seq<Record>)
    ensures forall r :: r in rs ==> EntryOf(SourceCounts(rs), r.source) >= 0
  {
    if rs != [] {
      var init, x := rs[..|rs| - 1], rs[|rs| - 1];
      CountsCover(init);
      var st := SourceCounts(init);
      var st' := SourceCounts(rs);
      var p := EntryOf(st, x.source);
      forall r | r in rs ensures EntryOf(st', r.source) >= 0 {
        if r != x {
          assert r in init;
          var q := EntryOf(st, r.source);
          assert st'[q].0 == r.source;
        } else {
          assert st'[if p < 0 then |st| else p].0 == x.source;
        }
      }
    }
  }

  /** Each entry holds the number of records from its source, which is at
      least one. */
  lemma {:induction false} CountsExact(rs: seq<Record>)
    ensures forall k :: 0 <= k < |SourceCounts(rs)| ==>
      SourceCounts(rs)[k].1 == CountFrom(rs, SourceCounts(rs)[k].0) && SourceCounts(rs)[k].1 >= 1
  {
    if rs != [] {
      var init, x := rs[..|rs| - 1], rs[|rs| - 1];
      CountsExact(init);
      CountsDistinct(init);
      CountsCover(init);
      var st := SourceCounts(init);
      var p := EntryOf(st, x.source);
      var st' := SourceCounts(rs);
      forall k | 0 <= k < |st'| ensures st'[k].1 == CountFrom(rs, st'[k].0) && st'[k].1 >= 1 {
        if k < |st| && k != p {
          assert st'[k] == st[k];
          assert st[k].0 != x.source by {
            if p >= 0 {
              if k < p { assert st[k].0 != st[p].0; } else { assert st[p].0 != st[k].0; }
            }
          }
          assert CountFrom(rs, st[k].0) == CountFrom(init, st[k].0);
        } else if p < 0 {
          assert st'[k] == (x.source, 1);
          forall r | r in init ensures r.source != x.source {
            assert EntryOf(st, r.source) >= 0;
          }
          CountFromAbsent(init, x.source);
        } else {
          assert st'[k] == (x.source, st[p].1 + 1);
        }
      }
    }
  }

  lemma {:induction false} CountFromAbsent(rs: seq<Record>, src: string)
    requires forall r :: r in rs ==> r.source != src
    ensures CountFrom(rs, src) == 0
  {
    if rs != [] {
      CountFromAbsent(rs[..|rs| - 1], src);
    }
  }

  // --------------------------------------------------------------- examples

  /** Two sources report the same title: the Map keeps the FIRST source's
      position but the LATER source's record, so the later source wins. */
  lemma LaterSourceWins(a: Record, b: Record)
    requires a.title == b.title && a != b
    ensures Merged([Some([a]), Some([b])]) == [b]
  {
    var o := [Some([a]), Some([b])];
    assert o[..1] == [Some([a])] && [Some([a])][..0] == [];
    assert Fulfilled([Some([a])]) == [a];
    assert Fulfilled(o) == [a, b];
    KeyedDedup.ValuesPair(a, b, TrimmedTitle);
    assert [b][..0] == [];
    assert Sorting.InsertionSort([b], Newer) == [b];
  }

  /** Timestamps t3 > t2 > t1 arriving as [t3, t1, t2] come out as [t3, t2, t1]. */
  lemma NewestFirstExample(x3: Record, x1: Record, x2: Record)
    requires x3.fetchedAt > x2.fetchedAt > x1.fetchedAt
    ensures Sorting.InsertionSort([x3, x1, x2], Newer) == [x3, x2, x1]
  {
    assert [x3, x1, x2][..2] == [x3, x1] && [x3, x1][..1] == [x3] && [x3][..0] == [];
    assert Sorting.InsertionSort([x3], Newer) == [x3];
    assert Sorting.InsertionSort([x3, x1], Newer) == [x3, x1];
    assert Sorting.Insert([x3], x2, Newer) == [x3, x2];
    assert Sorting.Insert([x3, x1], x2, Newer) == [x3, x2, x1];
  }
}
