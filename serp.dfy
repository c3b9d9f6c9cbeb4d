// The news scraper of src/scrapers/scrape_serpapi.py: the "old article"
// test on Bing's relative dates, the date parser, the Bing pagination
// loop, the order-preserving url de-duplication and the scrape over
// languages and queries. The search services are page sequences and
// functions supplied by the caller.

module Serp {
  import opened Wrappers
  import opened PyValues

  // ---------------------------------------------------------------------
  // _is_old_article

  /** `_is_old_article(date)`: a missing or empty date counts as old; a
      "<n>y" date is old when n > 5; any other text is not old. A text
      ending in "y" whose rest is not an integer raises ValueError, and a
      non-text date has no `endswith`. */
  function IsOldArticle(date: Val): Result<bool, Exc>
  {
    if !Truthy(date) then Ok(true)
    else if !date.Str? then Err(AttributeError)
    else if EndsWith(date.s, "y") then
      match ParseInt(date.s[..|date.s| - 1])
      case None => Err(ValueError)
      case Some(n) => Ok(n > 5)
    else Ok(false)
  }

  /** The three cases of the old-article test: an empty date is old, a
      date of n years is old exactly when n > 5, and a non-empty text not
      ending in "y" is never old. */
  lemma OldArticleCases(n: int, s: string)
    ensures IsOldArticle(Str("")) == Ok(true) && IsOldArticle(Null) == Ok(true)
    ensures IsOldArticle(Str(ShowInt(n) + "y")) == Ok(n > 5)
    ensures s != "" && !EndsWith(s, "y") ==> IsOldArticle(Str(s)) == Ok(false)
  {
    var t := ShowInt(n) + "y";
    assert t[|t| - 1..] == "y";
    assert t[..|t| - 1] == ShowInt(n);
    ParseShowInt(n);
  }

  // ---------------------------------------------------------------------
  // _remove_duplicates

  /** `article.get('url', '')` */
  function UrlOf(a: Dict): Val
  {
    Get(a, "url", Str(""))
  }

  /** Article `i` carries a non-empty url that no earlier article carries. */
  predicate FirstOccurrence(xs: seq<Dict>, i: int)
    requires 0 <= i < |xs|
  {
    Truthy(UrlOf(xs[i])) && forall j :: 0 <= j < i ==> UrlOf(xs[j]) != UrlOf(xs[i])
  }

  /** Some article carries a non-empty list as url, which a set cannot
      hold: the membership test raises. */
  predicate Unhashable(xs: seq<Dict>)
  {
    exists i :: 0 <= i < |xs| && Truthy(UrlOf(xs[i])) && UrlOf(xs[i]).List?
  }

  /** The first occurrences, in input order. */
  function KeepFirst(xs: seq<Dict>): seq<Dict>
  {
    if xs == [] then []
    else KeepFirst(xs[..|xs| - 1]) + (if FirstOccurrence(xs, |xs| - 1) then [xs[|xs| - 1]] else [])
  }

  /** What `_remove_duplicates` returns: the first occurrences, or the input
      itself when the membership test raises. */
  function Dedup(xs: seq<Dict>): seq<Dict>
  {
    if Unhashable(xs) then xs else KeepFirst(xs)
  }

  /** Every url in `xs` is non-empty and no two articles share one. */
  predicate DistinctUrls(xs: seq<Dict>)
  {
    && (forall k :: 0 <= k < |xs| ==> Truthy(UrlOf(xs[k])))
    && (forall k1, k2 :: 0 <= k1 < k2 < |xs| ==> UrlOf(xs[k1]) != UrlOf(xs[k2]))
  }

  lemma FirstOccurrenceInPrefix(xs: seq<Dict>, n: nat, i: int)
    requires 0 <= i < n <= |xs|
    ensures FirstOccurrence(xs[..n], i) == FirstOccurrence(xs, i)
  {
    assert forall j :: 0 <= j <= i ==> xs[..n][j] == xs[j];
  }

  /** The kept articles are exactly the first occurrences of the non-empty
      urls: each comes from the input, their urls are distinct, and the
      first article of every url is kept. */
  lemma {:induction false} KeepFirstExact(xs: seq<Dict>)
    ensures DistinctUrls(KeepFirst(xs))
    ensures forall a :: a in KeepFirst(xs) <==> exists i :: 0 <= i < |xs| && FirstOccurrence(xs, i) && xs[i] == a
    ensures IsSubseq(KeepFirst(xs), xs)
  {
    if xs != [] {
      var n := |xs| - 1;
      var init := xs[..n];
      KeepFirstExact(init);
      var kept := KeepFirst(init);
      forall i | 0 <= i < n
        ensures FirstOccurrence(init, i) == FirstOccurrence(xs, i)
      {
        FirstOccurrenceInPrefix(xs, n, i);
      }
      if FirstOccurrence(xs, n) {
        var all := kept + [xs[n]];
        forall k | 0 <= k < |kept|
          ensures UrlOf(kept[k]) != UrlOf(xs[n])
        {
          assert kept[k] in kept;
          var i :| 0 <= i < n && FirstOccurrence(init, i) && init[i] == kept[k];
        }
        assert all[..|all| - 1] == kept;
        assert IsSubseq(all, xs);
      } else {
        assert KeepFirst(xs) == kept;
        assert IsSubseq(kept, xs);
      }
    }
  }

  /** A list whose urls are non-empty and distinct is its own de-duplication. */
  lemma {:induction false} KeepFirstOfDistinct(ys: seq<Dict>)
    requires DistinctUrls(ys)
    ensures KeepFirst(ys) == ys
  {
    if ys != [] {
      var n := |ys| - 1;
      assert DistinctUrls(ys[..n]);
      KeepFirstOfDistinct(ys[..n]);
      assert FirstOccurrence(ys, n);
      assert ys == ys[..n] + [ys[n]];
    }
  }

  /** `_remove_duplicates` is idempotent. */
  lemma DedupIdempotent(xs: seq<Dict>)
    ensures Dedup(Dedup(xs)) == Dedup(xs)
  {
    if !Unhashable(xs) {
      var ys := KeepFirst(xs);
      KeepFirstExact(xs);
      forall k | 0 <= k < |ys| && Truthy(UrlOf(ys[k]))
        ensures !UrlOf(ys[k]).List?
      {
        assert ys[k] in ys;
        var i :| 0 <= i < |xs| && FirstOccurrence(xs, i) && xs[i] == ys[k];
      }
      KeepFirstOfDistinct(ys);
    }
  }

  /** `_remove_duplicates`: a set of seen urls and the list of kept
      articles, built in one pass; the exception handler returns the input
      unchanged. */
  method RemoveDuplicates(articles: seq<Dict>) returns (unique: seq<Dict>)
    ensures unique == Dedup(articles)
  {
    var seen: set<Val> := {};
    unique := [];
    for i := 0 to |articles|
      invariant unique == KeepFirst(articles[..i])
      invariant forall u :: u in seen <==> exists j :: 0 <= j < i && Truthy(UrlOf(articles[j])) && UrlOf(articles[j]) == u
      invariant forall j :: 0 <= j < i ==> !(Truthy(UrlOf(articles[j])) && UrlOf(articles[j]).List?)
    {
      var url := UrlOf(articles[i]);
      assert articles[..i + 1][..i] == articles[..i];
      FirstOccurrenceInPrefix(articles, i + 1, i);
      assert FirstOccurrence(articles, i) <==> Truthy(url) && url !in seen;
      if Truthy(url) {
        if url.List? {
          return articles;
        }
        if url !in seen {
          seen := seen + {url};
          unique := unique + [articles[i]];
        }
      }
    }
    assert articles[..|articles|] == articles;
  }

  // ---------------------------------------------------------------------
  // _parse_date

  /** What `_parse_date` yields, before formatting as YYYY-MM-DD: today, a
      number of hours or days before now, or the date one of the absolute
      formats read. */
  datatype Stamp = Today | HoursBack(hours: int) | DaysBack(days: int) | Parsed(date: string)

  /** The absolute formats tried in order. */
  const DateFormats: seq<string> :=
    ["%m/%d/%Y, %I:%M %p, +0000 UTC", "%m/%d/%Y, %I:%M %p", "%Y-%m-%d", "%m/%d/%Y", "%d/%m/%Y"]

  /** The first format `strptime` accepts, or today when none does. */
  function FirstFormat(s: string, formats: seq<string>, strptime: (string, string) -> Option<string>): (r: Stamp)
    ensures r.Today? || r.Parsed?
  {
    if formats == [] then Today
    else match strptime(s, formats[0])
      case Some(d) => Parsed(d)
      case None => FirstFormat(s, formats[1..], strptime)
  }

  /** Format `k` is the first in `formats` that `strptime` accepts. */
  predicate FirstAccepting(s: string, formats: seq<string>, strptime: (string, string) -> Option<string>, k: int)
  {
    && 0 <= k < |formats| && strptime(s, formats[k]).Some?
    && forall j :: 0 <= j < k ==> strptime(s, formats[j]).None?
  }

  /** The formats are tried in order: the result is today exactly when every
      format refuses the text, and otherwise it is the date read by the first
      format that accepts it. */
  lemma {:induction false} FirstFormatFirst(s: string, formats: seq<string>, strptime: (string, string) -> Option<string>)
    ensures FirstFormat(s, formats, strptime).Today? <==> forall k :: 0 <= k < |formats| ==> strptime(s, formats[k]).None?
    ensures FirstFormat(s, formats, strptime).Parsed? ==>
      exists k :: FirstAccepting(s, formats, strptime, k) && strptime(s, formats[k]) == Some(FirstFormat(s, formats, strptime).date)
  {
    if formats != [] {
      match strptime(s, formats[0])
      case Some(d) =>
        assert FirstAccepting(s, formats, strptime, 0);
      case None =>
        var rest := formats[1..];
        FirstFormatFirst(s, rest, strptime);
        var r := FirstFormat(s, rest, strptime);
        if r.Parsed? {
          var k :| FirstAccepting(s, rest, strptime, k) && strptime(s, rest[k]) == Some(r.date);
          assert FirstAccepting(s, formats, strptime, k + 1);
        } else {
          forall k | 0 <= k < |formats|
            ensures strptime(s, formats[k]).None?
          {
            if k > 0 { assert formats[k] == rest[k - 1]; }
          }
        }
    }
  }

  /** An offset read from the text before the suffix; text that is not an
      integer makes the whole parse fall back to today. */
  function Offset(digits: string, scale: int, hours: bool): Stamp
  {
    match ParseInt(digits)
    case None => Today
    case Some(n) => if hours then HoursBack(n) else DaysBack(scale * n)
  }

  /** `_parse_date(date)`: never raises; an empty, missing or unreadable
      date is today. The suffixes are tried in the order m, h, d, mon, y. */
  function ParseDate(date: Val, strptime: (string, string) -> Option<string>): Stamp
  {
    if !Truthy(date) || !date.Str? then Today
    else
      var s := date.s;
      if EndsWith(s, "m") then Today
      else if EndsWith(s, "h") then Offset(s[..|s| - 1], 1, true)
      else if EndsWith(s, "d") then Offset(s[..|s| - 1], 1, false)
      else if EndsWith(s, "mon") then Offset(s[..|s| - 3], 30, false)
      else if EndsWith(s, "y") then Offset(s[..|s| - 1], 365, false)
      else FirstFormat(s, DateFormats, strptime)
  }

  lemma AppendedSuffix(d: string, p: string)
    ensures EndsWith(d + p, p) && (d + p)[..|d|] == d
  {
    assert (d + p)[|d|..] == p;
  }

  /** The one-letter suffix tests look at the last character only, and
      "mon" ends in 'n'. */
  lemma SuffixTests(s: string)
    requires s != []
    ensures EndsWith(s, "m") <==> s[|s| - 1] == 'm'
    ensures EndsWith(s, "h") <==> s[|s| - 1] == 'h'
    ensures EndsWith(s, "d") <==> s[|s| - 1] == 'd'
    ensures EndsWith(s, "y") <==> s[|s| - 1] == 'y'
    ensures EndsWith(s, "mon") ==> s[|s| - 1] == 'n'
  {
    assert s[|s| - 1..] == [s[|s| - 1]];
    if EndsWith(s, "mon") {
      assert s[|s| - 3..][2] == s[|s| - 1];
    }
  }

  // The relative suffixes after any text `d`, one at a time: the text
  // before the suffix is what `Offset` reads.

  lemma MinutesSuffix(d: string, strptime: (string, string) -> Option<string>)
    ensures ParseDate(Str(d + "m"), strptime) == Today
  {
    AppendedSuffix(d, "m");
  }

  lemma HoursSuffix(d: string, strptime: (string, string) -> Option<string>)
    ensures ParseDate(Str(d + "h"), strptime) == Offset(d, 1, true)
  {
    AppendedSuffix(d, "h");
    SuffixTests(d + "h");
  }

  lemma DaysSuffix(d: string, strptime: (string, string) -> Option<string>)
    ensures ParseDate(Str(d + "d"), strptime) == Offset(d, 1, false)
  {
    AppendedSuffix(d, "d");
    SuffixTests(d + "d");
  }

  lemma MonthsSuffix(d: string, strptime: (string, string) -> Option<string>)
    ensures ParseDate(Str(d + "mon"), strptime) == Offset(d, 30, false)
  {
    AppendedSuffix(d, "mon");
    SuffixTests(d + "mon");
  }

  lemma YearsSuffix(d: string, strptime: (string, string) -> Option<string>)
    ensures ParseDate(Str(d + "y"), strptime) == Offset(d, 365, false)
  {
    AppendedSuffix(d, "y");
    SuffixTests(d + "y");
  }

  /** The relative suffixes: "m" is today, "h" n hours back, "d" n days
      back, "mon" 30n days back, "y" 365n days back. */
  lemma RelativeSuffixes(n: int, strptime: (string, string) -> Option<string>)
    ensures ParseDate(Str(ShowInt(n) + "m"), strptime) == Today
    ensures ParseDate(Str(ShowInt(n) + "h"), strptime) == HoursBack(n)
    ensures ParseDate(Str(ShowInt(n) + "d"), strptime) == DaysBack(n)
    ensures ParseDate(Str(ShowInt(n) + "mon"), strptime) == DaysBack(30 * n)
    ensures ParseDate(Str(ShowInt(n) + "y"), strptime) == DaysBack(365 * n)
  {
    var d := ShowInt(n);
    ParseShowInt(n);
    MinutesSuffix(d, strptime);
    HoursSuffix(d, strptime);
    DaysSuffix(d, strptime);
    MonthsSuffix(d, strptime);
    YearsSuffix(d, strptime);
  }

  /** Empty or missing dates, and text with no recognised suffix that no
      absolute format reads, are today. */
  lemma ParseDateFallsBack(date: Val, strptime: (string, string) -> Option<string>)
    requires !Truthy(date) || !date.Str? ||
      (&& !EndsWith(date.s, "m") && !EndsWith(date.s, "h") && !EndsWith(date.s, "d")
       && !EndsWith(date.s, "mon") && !EndsWith(date.s, "y")
       && forall k :: 0 <= k < |DateFormats| ==> strptime(date.s, DateFormats[k]).None?)
    ensures ParseDate(date, strptime) == Today
  {
    if Truthy(date) && date.Str? {
      FirstFormatFirst(date.s, DateFormats, strptime);
    }
  }

  // ---------------------------------------------------------------------
  // search_bing_news: the pagination loop

  /** Results requested per page (`count`). */
  const PageSize: int := 10

  /** The results Bing returns for the request with offset `first`: page
      (first - 1) / 10 of the sequence, and nothing past its end. */
  function PageAt(pages: seq<seq<Dict>>, first: int): seq<Dict>
  {
    var p := (first - 1) / PageSize;
    if 0 <= p < |pages| then pages[p] else []
  }

  /** The articles of one page before its first old one, and whether an
      old one was met. */
  function FreshPrefix(page: seq<Dict>): Result<(seq<Dict>, bool), Exc>
  {
    if page == [] then Ok(([], false))
    else match IsOldArticle(Get(page[0], "date", Str("")))
      case Err(e) => Err(e)
      case Ok(true) => Ok(([], true))
      case Ok(false) =>
        match FreshPrefix(page[1..])
        case Err(e) => Err(e)
        case Ok((rest, stale)) => Ok(([page[0]] + rest, stale))
  }

  /** `r` with `xs` in front of its articles; an error stays an error. */
  function After(xs: seq<Dict>, r: Result<seq<Dict>, Exc>): Result<seq<Dict>, Exc>
  {
    if r.Err? then r else Ok(xs + r.value)
  }

  lemma AfterAfter(xs: seq<Dict>, ys: seq<Dict>, r: Result<seq<Dict>, Exc>)
    ensures After(xs, After(ys, r)) == After(xs + ys, r)
  {
    if r.Ok? {
      assert xs + (ys + r.value) == (xs + ys) + r.value;
    }
  }

  /** The articles collected from page `p` on: nothing once a page comes
      back empty; the page's articles before its first old one; and the
      next page's collection after them when the page was full and held no
      old article. */
  function Collect(pages: seq<seq<Dict>>, p: nat): Result<seq<Dict>, Exc>
    decreases |pages| - p
  {
    if p >= |pages| || pages[p] == [] then Ok([])
    else
      var r := FreshPrefix(pages[p]);
      if r.Err? then Err(r.error)
      else if r.value.1 || |pages[p]| < PageSize then Ok(r.value.0)
      else After(r.value.0, Collect(pages, p + 1))
  }

  /** The pages one after the other. */
  function Flatten(pages: seq<seq<Dict>>): seq<Dict>
  {
    if pages == [] then [] else pages[0] + Flatten(pages[1..])
  }

  /** A page's recent prefix is a prefix of the page, and none of it is old. */
  lemma {:induction false} FreshPrefixShape(page: seq<Dict>)
    ensures FreshPrefix(page).Ok? ==>
      var (recent, stale) := FreshPrefix(page).value;
      && recent <= page
      && (forall a :: a in recent ==> IsOldArticle(Get(a, "date", Str(""))) == Ok(false))
      && (!stale ==> recent == page)
      && (stale ==> |recent| < |page| && IsOldArticle(Get(page[|recent|], "date", Str(""))) == Ok(true))
  {
    if page != [] {
      FreshPrefixShape(page[1..]);
    }
  }

  lemma PrefixAfter(c: seq<Dict>, a: seq<Dict>, b: seq<Dict>)
    requires a <= b
    ensures c + a <= c + b
  {
    assert (c + b)[..|c + a|] == c + b[..|a|];
  }

  /** What the loop collects is a prefix of the concatenated pages and
      holds no old article. */
  lemma {:induction false} CollectShape(pages: seq<seq<Dict>>, p: nat)
    requires p <= |pages|
    ensures Collect(pages, p).Ok? ==>
      && Collect(pages, p).value <= Flatten(pages[p..])
      && (forall a :: a in Collect(pages, p).value ==> IsOldArticle(Get(a, "date", Str(""))) == Ok(false))
    decreases |pages| - p
  {
    if p < |pages| && pages[p] != [] && FreshPrefix(pages[p]).Ok? {
      var page := pages[p];
      assert pages[p..][0] == page && pages[p..][1..] == pages[p + 1..];
      assert Flatten(pages[p..]) == page + Flatten(pages[p + 1..]);
      FreshPrefixShape(page);
      var recent := FreshPrefix(page).value.0;
      if !(FreshPrefix(page).value.1 || |page| < PageSize) && Collect(pages, p + 1).Ok? {
        CollectShape(pages, p + 1);
        var rest := Collect(pages, p + 1).value;
        assert Collect(pages, p).value == page + rest;
        PrefixAfter(page, rest, Flatten(pages[p + 1..]));
      } else {
        assert Collect(pages, p).Ok? ==> Collect(pages, p).value == recent;
      }
    }
  }

  /** The loop moves past a page only when that page was full and none of
      its articles was old. */
  lemma CollectMovesOn(pages: seq<seq<Dict>>, p: nat)
    requires p < |pages| && Collect(pages, p).Ok? && |Collect(pages, p).value| > |pages[p]|
    ensures |pages[p]| >= PageSize
    ensures forall a :: a in pages[p] ==> IsOldArticle(Get(a, "date", Str(""))) == Ok(false)
  {
    FreshPrefixShape(pages[p]);
  }

  /** The inner loop of lines 159-165 over one page: it keeps the articles
      before the first old one and reports whether one was met; an
      exception from the date test propagates. */
  method TakeRecent(results: seq<Dict>) returns (r: Result<(seq<Dict>, bool), Exc>)
    ensures r == FreshPrefix(results)
  {
    var taken: seq<Dict> := [];
    assert results[0..] == results;
    assert FreshPrefix(results).Ok? ==> [] + FreshPrefix(results).value.0 == FreshPrefix(results).value.0;
    for j := 0 to |results|
      invariant FreshPrefix(results).Ok? == FreshPrefix(results[j..]).Ok?
      invariant FreshPrefix(results[j..]).Ok? ==>
        FreshPrefix(results) == Ok((taken + FreshPrefix(results[j..]).value.0, FreshPrefix(results[j..]).value.1))
      invariant FreshPrefix(results[j..]).Err? ==> FreshPrefix(results) == FreshPrefix(results[j..])
    {
      assert results[j..][0] == results[j] && results[j..][1..] == results[j + 1..];
      var isOld := IsOldArticle(Get(results[j], "date", Str("")));
      if isOld.Err? {
        return Err(isOld.error);
      }
      if isOld.value {
        assert taken + [] == taken;
        return Ok((taken, true));
      }
      if FreshPrefix(results[j + 1..]).Ok? {
        assert taken + ([results[j]] + FreshPrefix(results[j + 1..]).value.0)
            == (taken + [results[j]]) + FreshPrefix(results[j + 1..]).value.0;
      }
      taken := taken + [results[j]];
    }
    assert results[|results|..] == [];
    assert taken + [] == taken;
    r := Ok((taken, false));
  }

  /** The loop of lines 149-168: `first` starts at 1 and advances by the
      page size; a page with no results ends the loop, an old article stops
      it, and so does a page shorter than the page size. */
  method CollectBing(pages: seq<seq<Dict>>) returns (result: Result<seq<Dict>, Exc>)
    ensures result == Collect(pages, 0)
  {
    var all: seq<Dict> := [];
    var first := 1;
    var stop := false;
    ghost var p: nat := 0;
    assert Collect(pages, 0).Ok? ==> [] + Collect(pages, 0).value == Collect(pages, 0).value;
    while !stop
      invariant p <= |pages|
      invariant first == 1 + PageSize * p
      invariant !stop ==> Collect(pages, 0) == After(all, Collect(pages, p))
      invariant stop ==> Collect(pages, 0) == Ok(all)
      decreases |pages| - p, if stop then 0 else 1
    {
      var results := PageAt(pages, first);
      assert (first - 1) / PageSize == p;
      if results == [] {
        assert all + [] == all;
        break;
      }
      var page := TakeRecent(results);
      if page.Err? {
        return Err(page.error);
      }
      var (taken, sawOld) := page.value;
      if sawOld || |results| < PageSize {
        all := all + taken;
        stop := true;
      } else {
        AfterAfter(all, taken, Collect(pages, p + 1));
        all := all + taken;
        first := first + PageSize;
        p := p + 1;
      }
    }
    result := Ok(all);
  }

  /** One Bing result as the scraper returns it. */
  function BingRecord(a: Dict, language: string, published: string): Dict
  {
    map["title" := Get(a, "title", Null), "url" := Get(a, "link", Null), "description" := Get(a, "snippet", Null),
        "source" := Get(a, "source", Null), "author" := Null, "publishedAt" := Str(published),
        "language" := Str(language)]
  }

  /** The services the scraper calls: query translation, the Bing pages for
      a query, the Google search, `strptime` with YYYY-MM-DD output, and
      the rendering of a stamp as YYYY-MM-DD. */
  datatype Services = Services(
    translate: (string, string) -> string,
    bingPages: string -> seq<seq<Dict>>,
    google: (string, string) -> seq<Dict>,
    strptime: (string, string) -> Option<string>,
    render: Stamp -> string)

  /** `search_bing_news`: the collected articles as records; any exception
      inside yields no results. */
  function BingResults(query: string, language: string, env: Services): (r: seq<Dict>)
    ensures Collect(env.bingPages(query), 0).Err? ==> r == []
    ensures Collect(env.bingPages(query), 0).Ok? ==> |r| == |Collect(env.bingPages(query), 0).value|
  {
    match Collect(env.bingPages(query), 0)
    case Err(_) => []
    case Ok(got) =>
      seq(|got|, k requires 0 <= k < |got| =>
        BingRecord(got[k], language, env.render(ParseDate(Get(got[k], "date", Null), env.strptime))))
  }

  method SearchBingNews(query: string, language: string, env: Services) returns (r: seq<Dict>)
    ensures r == BingResults(query, language, env)
  {
    var got := CollectBing(env.bingPages(query));
    if got.Err? {
      return [];
    }
    var articles := got.value;
    r := [];
    for k := 0 to |articles|
      invariant r == seq(k, i requires 0 <= i < k =>
        BingRecord(articles[i], language, env.render(ParseDate(Get(articles[i], "date", Null), env.strptime))))
    {
      r := r + [BingRecord(articles[k], language, env.render(ParseDate(Get(articles[k], "date", Null), env.strptime)))];
    }
  }

  // ---------------------------------------------------------------------
  // scrape

  /** The results for one query in one language: Bing's, then Google's. */
  function QueryResults(language: string, query: string, env: Services): seq<Dict>
  {
    var q := env.translate(query, language);
    BingResults(q, language, env) + env.google(q, language)
  }

  /** The results for the first `n` queries in one language, query by query. */
  function LanguageResults(language: string, queries: seq<string>, n: nat, env: Services): seq<Dict>
    requires n <= |queries|
  {
    if n == 0 then []
    else LanguageResults(language, queries, n - 1, env) + QueryResults(language, queries[n - 1], env)
  }

  /** The results for the first `n` languages, language by language. */
  function GatheredUpTo(languages: seq<string>, queries: seq<string>, n: nat, env: Services): seq<Dict>
    requires n <= |languages|
  {
    if n == 0 then []
    else GatheredUpTo(languages, queries, n - 1, env) + LanguageResults(languages[n - 1], queries, |queries|, env)
  }

  /** Everything gathered, language by language, query by query. */
  function Gathered(languages: seq<string>, queries: seq<string>, env: Services): seq<Dict>
  {
    GatheredUpTo(languages, queries, |languages|, env)
  }

  /** Appending is associative. */
  lemma AppendAssoc<T>(a: seq<T>, b: seq<T>, c: seq<T>)
    ensures a + b + c == a + (b + c)
  {
  }

  /** The inner loop of `scrape`: for each query in turn, translate it into
      `language` and extend the results with Bing's, then Google's. */
  method SearchLanguage(results: seq<Dict>, language: string, queries: seq<string>, env: Services) returns (all: seq<Dict>)
    ensures all == results + LanguageResults(language, queries, |queries|, env)
  {
    all := results;
    for q := 0 to |queries|
      invariant all == results + LanguageResults(language, queries, q, env)
    {
      ghost var prior := all;
      var queryLng := env.translate(queries[q], language);
      var bing := SearchBingNews(queryLng, language, env);
      all := all + bing;
      var google := env.google(queryLng, language);
      all := all + google;
      AppendAssoc(prior, bing, google);
      AppendAssoc(results, LanguageResults(language, queries, q, env), bing + google);
    }
  }

  /** `scrape`: both searches for every translated query in every language,
      then the url de-duplication. */
  method Scrape(languages: seq<string>, queries: seq<string>, env: Services) returns (unique: seq<Dict>)
    ensures unique == Dedup(Gathered(languages, queries, env))
  {
    var all: seq<Dict> := [];
    for l := 0 to |languages|
      invariant all == GatheredUpTo(languages, queries, l, env)
    {
      all := SearchLanguage(all, languages[l], queries, env);
    }
    unique := RemoveDuplicates(all);
  }

  /** Unless some url is a non-empty list, the scrape returns articles with
      non-empty, pairwise distinct urls, each the first of its url among
      everything gathered, in gathering order. */
  lemma ScrapeDistinct(languages: seq<string>, queries: seq<string>, env: Services)
    requires !Unhashable(Gathered(languages, queries, env))
    ensures DistinctUrls(Dedup(Gathered(languages, queries, env)))
    ensures IsSubseq(Dedup(Gathered(languages, queries, env)), Gathered(languages, queries, env))
  {
    KeepFirstExact(Gathered(languages, queries, env));
  }
}
