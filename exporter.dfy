// The report builder of src/excel/article_excel_exporter.py: one report
// row per stored article, the merge with the rows of an existing report,
// the ordering by date and the column widths. The stored articles, the
// existing report's rows and the translation service are inputs; the
// workbook file, its styling and its hyperlinks are not modelled.

module Exporter {
  import opened Wrappers
  import opened PyValues

  // ---------------------------------------------------------------------
  // Report rows

  /** One report row, column by column (the order of HEADERS). */
  datatype ReportRow = ReportRow(
    date: Val,
    hangar: Val,
    region: Val,
    summary: Val,
    links: Val,
    language: Val,
    originTitle: Val)

  const Headers: seq<string> := ["Date of Incident", "Airport / Hangar Name", "Country / Region",
                                 "Brief Summary", "Source Link(s)", "Language", "Origin Title"]

  /** MAX_COL_WIDTH */
  const MaxColWidth: int := 50

  /** The cells of a row, in header order. */
  function Cells(r: ReportRow): (cs: seq<Val>)
    ensures |cs| == |Headers|
  {
    [r.date, r.hangar, r.region, r.summary, r.links, r.language, r.originTitle]
  }

  /** `", ".join(xs)`: every item must be text, otherwise TypeError. */
  function JoinTexts(xs: seq<Val>): Result<string, Exc>
  {
    if forall k :: 0 <= k < |xs| ==> xs[k].Str? then
      Ok(Join(", ", seq(|xs|, k requires 0 <= k < |xs| && xs[k].Str? => xs[k].s)))
    else Err(TypeError)
  }

  /** The "Source Link(s)" cell as written: `len(urls) > 3` is tested (and
      the slice taken) before `isinstance(urls, list)`, so a text url is
      cut to its first three characters; a url with no length (None, a
      number) raises TypeError. */
  function UrlCellAsWritten(urls: Val): Result<string, Exc>
  {
    match urls
    case Str(s) => Ok(if |s| > 3 then s[..3] else s)
    case List(xs) => JoinTexts(if |xs| > 3 then xs[..3] else xs)
    case _ => Err(TypeError)
  }

  /** A text url loses all but its first three characters. */
  lemma UrlCellAsWrittenCutsText()
    ensures UrlCellAsWritten(Str("https://a.example")) == Ok("htt")
    ensures UrlCell(Str("https://a.example")) == Ok("https://a.example")
  {
    var url := "https://a.example";
    assert |url| == 17 && url[..3] == "htt";
  }

  /** The "Source Link(s)" cell as intended: a list of urls shows its first
      three, joined with ", ", and a text url is shown whole; a url with no
      length still raises TypeError. */
  function UrlCell(urls: Val): Result<string, Exc>
  {
    match urls
    case Str(s) => Ok(s)
    case List(xs) => JoinTexts(if |xs| > 3 then xs[..3] else xs)
    case _ => Err(TypeError)
  }

  /** The two cells differ only on a text url longer than three
      characters; in particular they agree on every url list. */
  lemma UrlCellsAgree(urls: Val)
    ensures !(urls.Str? && |urls.s| > 3) ==> UrlCellAsWritten(urls) == UrlCell(urls)
    ensures urls.Str? && |urls.s| > 3 ==> UrlCellAsWritten(urls) == Ok(urls.s[..3]) != UrlCell(urls)
  {
    if urls.Str? && |urls.s| > 3 {
      assert |urls.s[..3]| != |urls.s|;
    }
  }

  /** The texts `xs` as values. */
  function Texts(xs: seq<string>): (vs: seq<Val>)
    ensures |vs| == |xs| && forall k :: 0 <= k < |xs| ==> vs[k] == Str(xs[k])
  {
    seq(|xs|, k requires 0 <= k < |xs| => Str(xs[k]))
  }

  lemma JoinOfTexts(xs: seq<string>)
    ensures JoinTexts(Texts(xs)) == Ok(Join(", ", xs))
  {
    var vs := Texts(xs);
    var texts := seq(|vs|, k requires 0 <= k < |vs| && vs[k].Str? => vs[k].s);
    assert texts == xs;
  }

  /** A list of text urls shows at most its first three, joined with ", ";
      a text url is shown whole. */
  lemma UrlCellShowsFirstThree(xs: seq<string>, s: string)
    ensures UrlCell(List(Texts(xs))) == Ok(Join(", ", if |xs| > 3 then xs[..3] else xs))
    ensures UrlCell(Str(s)) == Ok(s)
  {
    var shown := if |xs| > 3 then xs[..3] else xs;
    assert (if |Texts(xs)| > 3 then Texts(xs)[..3] else Texts(xs)) == Texts(shown);
    JoinOfTexts(shown);
  }

  /** The summary: the description when it is non-empty, otherwise the
      title. */
  function SummaryOf(article: Dict): Val
  {
    var description := Get(article, "description", Null);
    if Truthy(description) then description else Get(article, "title", Null)
  }

  /** The row of one article. `translate(text, language)` stands for the
      translation into English of text written in `language`. */
  function BuildRow(article: Dict, translate: (Val, Val) -> Val): Result<ReportRow, Exc>
  {
    match UrlCellAsWritten(Get(article, "url", List([])))
    case Err(e) => Err(e)
    case Ok(links) =>
      var language := Get(article, "language", Str("en"));
      var foreign := language != Str("en");
      Ok(ReportRow(
        Get(article, "publishedAt", Str("")),
        Get(article, "airport_hangar_name", Str("")),
        Get(article, "location", Str("")),
        if foreign then translate(SummaryOf(article), language) else SummaryOf(article),
        Str(links),
        language,
        if foreign then Get(article, "title", Str("")) else Str("")))
  }

  /** The row fields: the language defaults to "en"; an English row keeps
      its summary (description, or title when the description is empty)
      and has an empty origin title; any other row has its summary
      translated and keeps the title as origin title. */
  lemma BuildRowFields(article: Dict, translate: (Val, Val) -> Val)
    requires BuildRow(article, translate).Ok?
    ensures var r := BuildRow(article, translate).value;
      && ("language" !in article ==> r.language == Str("en"))
      && (r.language == Str("en") ==> r.originTitle == Str("") && r.summary == SummaryOf(article))
      && (r.language != Str("en") ==>
            r.originTitle == Get(article, "title", Str("")) && r.summary == translate(SummaryOf(article), r.language))
      && (Truthy(Get(article, "description", Null)) ==> SummaryOf(article) == article["description"])
      && (!Truthy(Get(article, "description", Null)) ==> SummaryOf(article) == Get(article, "title", Null))
      && r.links == Str(UrlCellAsWritten(Get(article, "url", List([]))).value)
  {
  }

  /** A row fails exactly when its url cell does: a stored url that is
      neither text nor a list, or a list with a non-text item among its
      first three, raises TypeError. */
  lemma BuildRowFails(article: Dict, translate: (Val, Val) -> Val)
    ensures BuildRow(article, translate).Err? <==> UrlCellAsWritten(Get(article, "url", List([]))).Err?
    ensures var urls := Get(article, "url", List([]));
      UrlCellAsWritten(urls).Err? <==>
        !(urls.Str? || urls.List?)
        || (urls.List? && exists k :: 0 <= k < |urls.items| && k < 3 && !urls.items[k].Str?)
  {
    var urls := Get(article, "url", List([]));
    if urls.List? {
      var shown := if |urls.items| > 3 then urls.items[..3] else urls.items;
      assert forall k :: 0 <= k < |shown| ==> shown[k] == urls.items[k];
    }
  }

  /** The rows of the articles, in order; the first failing article's
      exception propagates. */
  function NewRows(articles: seq<Dict>, translate: (Val, Val) -> Val): Result<seq<ReportRow>, Exc>
  {
    if articles == [] then Ok([])
    else match NewRows(articles[..|articles| - 1], translate)
      case Err(e) => Err(e)
      case Ok(rows) =>
        match BuildRow(articles[|articles| - 1], translate)
        case Err(e) => Err(e)
        case Ok(r) => Ok(rows + [r])
  }

  lemma {:induction false} NewRowsOk(articles: seq<Dict>, translate: (Val, Val) -> Val)
    ensures NewRows(articles, translate).Ok? <==> forall i :: 0 <= i < |articles| ==> BuildRow(articles[i], translate).Ok?
  {
    if articles != [] {
      var n := |articles| - 1;
      NewRowsOk(articles[..n], translate);
      assert forall i :: 0 <= i < n ==> articles[..n][i] == articles[i];
    }
  }

  lemma {:induction false} NewRowsValues(articles: seq<Dict>, translate: (Val, Val) -> Val)
    ensures NewRows(articles, translate).Ok? ==>
      var rows := NewRows(articles, translate).value;
      |rows| == |articles| && forall i :: 0 <= i < |articles| ==> BuildRow(articles[i], translate) == Ok(rows[i])
  {
    if articles != [] && NewRows(articles, translate).Ok? {
      var n := |articles| - 1;
      NewRowsValues(articles[..n], translate);
      var rows := NewRows(articles, translate).value;
      var init := NewRows(articles[..n], translate).value;
      assert rows == init + [BuildRow(articles[n], translate).value];
      forall i | 0 <= i < |articles|
        ensures BuildRow(articles[i], translate) == Ok(rows[i])
      {
        if i < n {
          assert articles[..n][i] == articles[i];
        }
      }
    }
  }

  /** There is one row per article, in order, and the rows fail exactly
      when some article's row fails. */
  lemma NewRowsShape(articles: seq<Dict>, translate: (Val, Val) -> Val)
    ensures NewRows(articles, translate).Ok? <==> forall i :: 0 <= i < |articles| ==> BuildRow(articles[i], translate).Ok?
    ensures NewRows(articles, translate).Ok? ==>
      var rows := NewRows(articles, translate).value;
      |rows| == |articles| && forall i :: 0 <= i < |articles| ==> rows[i] == BuildRow(articles[i], translate).value
  {
    NewRowsOk(articles, translate);
    NewRowsValues(articles, translate);
  }

  /** Once an article fails, the rows of any longer list fail the same way. */
  lemma {:induction false} NewRowsErrorStays(articles: seq<Dict>, n: nat, translate: (Val, Val) -> Val)
    requires n <= |articles| && NewRows(articles[..n], translate).Err?
    ensures NewRows(articles, translate) == NewRows(articles[..n], translate)
    decreases |articles| - n
  {
    if n < |articles| {
      assert articles[..n + 1][..n] == articles[..n];
      NewRowsErrorStays(articles, n + 1, translate);
    } else {
      assert articles[..n] == articles;
    }
  }

  /** The loop of lines 34-60. */
  method BuildRows(articles: seq<Dict>, translate: (Val, Val) -> Val) returns (r: Result<seq<ReportRow>, Exc>)
    ensures r == NewRows(articles, translate)
  {
    var rows: seq<ReportRow> := [];
    for i := 0 to |articles|
      invariant NewRows(articles[..i], translate) == Ok(rows)
    {
      assert articles[..i + 1][..i] == articles[..i];
      var row := BuildRow(articles[i], translate);
      if row.Err? {
        NewRowsErrorStays(articles, i + 1, translate);
        return Err(row.error);
      }
      rows := rows + [row.value];
    }
    assert articles[..|articles|] == articles;
    r := Ok(rows);
  }

  // ---------------------------------------------------------------------
  // Merge with the existing report

  function Links(rows: seq<ReportRow>): set<Val>
  {
    set r | r in rows :: r.links
  }

  /** `drop_duplicates(subset=["Source Link(s)"], keep="last")`: a row is
      kept when no later row has the same links, in order. */
  function KeepLast(rows: seq<ReportRow>): seq<ReportRow>
  {
    if rows == [] then []
    else (if rows[0].links in Links(rows[1..]) then [] else [rows[0]]) + KeepLast(rows[1..])
  }

  /** De-duplication keeps the set of links. */
  lemma {:induction false} KeepLastLinks(rows: seq<ReportRow>)
    ensures Links(KeepLast(rows)) == Links(rows)
  {
    if rows != [] {
      KeepLastLinks(rows[1..]);
      assert Links(rows) == {rows[0].links} + Links(rows[1..]);
    }
  }

  lemma {:induction false} KeepLastDistinct(rows: seq<ReportRow>)
    ensures forall i, j :: 0 <= i < j < |KeepLast(rows)| ==> KeepLast(rows)[i].links != KeepLast(rows)[j].links
  {
    if rows != [] {
      var rest := rows[1..];
      KeepLastDistinct(rest);
      if rows[0].links !in Links(rest) {
        KeepLastLinks(rest);
        forall j | 0 <= j < |KeepLast(rest)|
          ensures KeepLast(rest)[j].links != rows[0].links
        {
          assert KeepLast(rest)[j] in KeepLast(rest);
        }
      }
    }
  }

  lemma {:induction false} KeepLastFrom(rows: seq<ReportRow>)
    ensures forall r :: r in KeepLast(rows) ==>
      exists i :: 0 <= i < |rows| && rows[i] == r && r.links !in Links(rows[i + 1..])
  {
    if rows != [] {
      var rest := rows[1..];
      KeepLastFrom(rest);
      forall r | r in KeepLast(rows)
        ensures exists i :: 0 <= i < |rows| && rows[i] == r && r.links !in Links(rows[i + 1..])
      {
        if r in KeepLast(rest) {
          var i :| 0 <= i < |rest| && rest[i] == r && r.links !in Links(rest[i + 1..]);
          assert rows[i + 1] == r && rows[i + 2..] == rest[i + 1..];
        } else {
          assert r == rows[0] && rows[1..] == rest;
        }
      }
    }
  }

  lemma {:induction false} KeepLastKeeps(rows: seq<ReportRow>)
    ensures forall i :: 0 <= i < |rows| && rows[i].links !in Links(rows[i + 1..]) ==> rows[i] in KeepLast(rows)
  {
    if rows != [] {
      var rest := rows[1..];
      KeepLastKeeps(rest);
      forall i | 0 <= i < |rows| && rows[i].links !in Links(rows[i + 1..])
        ensures rows[i] in KeepLast(rows)
      {
        if i > 0 {
          assert rows[i + 1..] == rest[i..];
          assert rest[i - 1] == rows[i];
        }
      }
    }
  }

  /** The rows kept are exactly the last row of each link, in order: the
      links stay the same set, no link is repeated, and a row is kept
      exactly when no later row shares its link. */
  lemma KeepLastExact(rows: seq<ReportRow>)
    ensures Links(KeepLast(rows)) == Links(rows)
    ensures forall i, j :: 0 <= i < j < |KeepLast(rows)| ==> KeepLast(rows)[i].links != KeepLast(rows)[j].links
    ensures forall r :: r in KeepLast(rows) ==>
      exists i :: 0 <= i < |rows| && rows[i] == r && r.links !in Links(rows[i + 1..])
    ensures forall i :: 0 <= i < |rows| && rows[i].links !in Links(rows[i + 1..]) ==> rows[i] in KeepLast(rows)
  {
    KeepLastLinks(rows);
    KeepLastDistinct(rows);
    KeepLastFrom(rows);
    KeepLastKeeps(rows);
  }

  /** `pd.concat([new_df, old_df])` followed by the de-duplication; with no
      existing report the new rows are taken as they are. */
  function Combine(rows: seq<ReportRow>, existing: Option<seq<ReportRow>>): seq<ReportRow>
  {
    match existing
    case None => rows
    case Some(prior) => KeepLast(rows + prior)
  }

  /** A new row whose links occur in the existing report is followed by
      a row with the same links. */
  lemma RepeatedLater(rows: seq<ReportRow>, prior: seq<ReportRow>, i: nat)
    requires i < |rows| && rows[i].links in Links(prior)
    ensures rows[i].links in Links((rows + prior)[i + 1..])
  {
    var o :| o in prior && o.links == rows[i].links;
    assert (rows + prior)[i + 1..] == rows[i + 1..] + prior;
    assert o in (rows + prior)[i + 1..];
  }

  /** When a new row and an existing row share their links, the existing
      row wins: every kept row whose links occur in the existing report
      is a row of the existing report. */
  lemma ExistingRowsWin(rows: seq<ReportRow>, prior: seq<ReportRow>)
    ensures forall r :: r in Combine(rows, Some(prior)) && r.links in Links(prior) ==> r in prior
  {
    var all := rows + prior;
    KeepLastExact(all);
    forall r | r in KeepLast(all) && r.links in Links(prior)
      ensures r in prior
    {
      var i :| 0 <= i < |all| && all[i] == r && r.links !in Links(all[i + 1..]);
      if i < |rows| {
        RepeatedLater(rows, prior, i);
        assert false;
      }
      assert all[i] == prior[i - |rows|];
    }
  }

  /** A new row is kept when its links are new and no later new row has
      them; and the merged report holds the links of both. */
  lemma NewRowsKept(rows: seq<ReportRow>, prior: seq<ReportRow>)
    ensures forall i | 0 <= i < |rows| && rows[i].links !in Links(prior) && rows[i].links !in Links(rows[i + 1..]) ::
      rows[i] in Combine(rows, Some(prior))
    ensures Links(Combine(rows, Some(prior))) == Links(rows) + Links(prior)
  {
    var all := rows + prior;
    KeepLastExact(all);
    forall i | 0 <= i < |rows| && rows[i].links !in Links(prior) && rows[i].links !in Links(rows[i + 1..])
      ensures rows[i] in KeepLast(all)
    {
      NewRowLast(rows, prior, i);
    }
    assert Links(all) == Links(rows) + Links(prior);
  }

  lemma NewRowLast(rows: seq<ReportRow>, prior: seq<ReportRow>, i: nat)
    requires i < |rows| && rows[i].links !in Links(prior) && rows[i].links !in Links(rows[i + 1..])
    ensures (rows + prior)[i] == rows[i] && rows[i].links !in Links((rows + prior)[i + 1..])
  {
    assert (rows + prior)[i + 1..] == rows[i + 1..] + prior;
  }

  // ---------------------------------------------------------------------
  // Ordering by date, most recent first

  /** Python's ordering of texts: code point by code point, a proper
      prefix first. */
  predicate TextLeq(a: string, b: string)
  {
    a == [] || (b != [] && (a[0] < b[0] || (a[0] == b[0] && TextLeq(a[1..], b[1..]))))
  }

  lemma {:induction false} TextLeqTotal(a: string, b: string)
    ensures TextLeq(a, b) || TextLeq(b, a)
  {
    if a != [] && b != [] && a[0] == b[0] {
      TextLeqTotal(a[1..], b[1..]);
    }
  }

  lemma {:induction false} TextLeqTrans(a: string, b: string, c: string)
    requires TextLeq(a, b) && TextLeq(b, c)
    ensures TextLeq(a, c)
  {
    if a != [] && a[0] == b[0] && b[0] == c[0] {
      TextLeqTrans(a[1..], b[1..], c[1..]);
    }
  }

  /** The sort key of a dated row: the date cell's text. */
  function DateKey(r: ReportRow): string
  {
    Show(r.date)
  }

  /** `r` may stand before `q` when sorting by date, most recent first: a
      missing date (None) is NA and goes last whatever the direction, and
      other dates compare as their text, the later first. */
  predicate GoesBefore(r: ReportRow, q: ReportRow)
  {
    q.date.Null? || (!r.date.Null? && TextLeq(DateKey(q), DateKey(r)))
  }

  lemma GoesBeforeTotal(r: ReportRow, q: ReportRow)
    ensures GoesBefore(r, q) || GoesBefore(q, r)
  {
    if !r.date.Null? && !q.date.Null? {
      TextLeqTotal(DateKey(r), DateKey(q));
    }
  }

  lemma GoesBeforeTrans(a: ReportRow, b: ReportRow, c: ReportRow)
    requires GoesBefore(a, b) && GoesBefore(b, c)
    ensures GoesBefore(a, c)
  {
    if !c.date.Null? {
      TextLeqTrans(DateKey(c), DateKey(b), DateKey(a));
    }
  }

  /** Most recent first, undated rows last: no row may not stand before a
      row after it. */
  predicate Descending(rows: seq<ReportRow>)
  {
    forall i, j :: 0 <= i < j < |rows| ==> GoesBefore(rows[i], rows[j])
  }

  /** `r` placed before the first row it may stand before. */
  function InsertByDate(r: ReportRow, rows: seq<ReportRow>): seq<ReportRow>
  {
    if rows == [] then [r]
    else if GoesBefore(r, rows[0]) then [r] + rows
    else [rows[0]] + InsertByDate(r, rows[1..])
  }

  /** `sort_values(by="Date of Incident", ascending=False)`, whose default
      `na_position="last"` puts undated rows at the end. */
  function SortByDate(rows: seq<ReportRow>): seq<ReportRow>
  {
    if rows == [] then [] else InsertByDate(rows[0], SortByDate(rows[1..]))
  }

  /** Inserting adds exactly the one row. */
  lemma {:induction false} InsertByDatePerm(r: ReportRow, rows: seq<ReportRow>)
    ensures multiset(InsertByDate(r, rows)) == multiset(rows) + multiset{r}
  {
    if rows != [] && !GoesBefore(r, rows[0]) {
      InsertByDatePerm(r, rows[1..]);
      assert rows == [rows[0]] + rows[1..];
    }
  }

  /** A row that may stand before every row of a descending list can go in
      front. */
  lemma ConsDescending(head: ReportRow, rows: seq<ReportRow>)
    requires Descending(rows)
    requires forall x | x in rows :: GoesBefore(head, x)
    ensures Descending([head] + rows)
  {
    var s := [head] + rows;
    forall i, j | 0 <= i < j < |s|
      ensures GoesBefore(s[i], s[j])
    {
      if i == 0 {
        assert s[j] in rows;
      } else {
        assert s[i] == rows[i - 1] && s[j] == rows[j - 1];
      }
    }
  }

  /** A row that may stand before the first row of a descending list may
      stand before all of them. */
  lemma HeadIsLatest(rows: seq<ReportRow>, r: ReportRow)
    requires Descending(rows) && rows != [] && GoesBefore(r, rows[0])
    ensures forall x | x in rows :: GoesBefore(r, x)
  {
    forall x | x in rows
      ensures GoesBefore(r, x)
    {
      var j :| 0 <= j < |rows| && rows[j] == x;
      if j > 0 {
        GoesBeforeTrans(r, rows[0], x);
      }
    }
  }

  /** Every row of the list after the insertion was in the list or is `r`. */
  lemma InsertedFrom(r: ReportRow, rows: seq<ReportRow>, x: ReportRow)
    requires x in InsertByDate(r, rows)
    ensures x == r || x in rows
  {
    InsertByDatePerm(r, rows);
    assert x in multiset(InsertByDate(r, rows));
    if x != r {
      assert x in multiset(rows);
    }
  }

  lemma {:induction false} InsertByDateSorted(r: ReportRow, rows: seq<ReportRow>)
    requires Descending(rows)
    ensures Descending(InsertByDate(r, rows))
    ensures multiset(InsertByDate(r, rows)) == multiset(rows) + multiset{r}
  {
    InsertByDatePerm(r, rows);
    if rows != [] {
      var head := rows[0];
      if GoesBefore(r, head) {
        HeadIsLatest(rows, r);
        ConsDescending(r, rows);
      } else {
        GoesBeforeTotal(head, r);
        var tail := rows[1..];
        assert Descending(tail);
        InsertByDateSorted(r, tail);
        var ins := InsertByDate(r, tail);
        forall x | x in ins
          ensures GoesBefore(head, x)
        {
          InsertedFrom(r, tail, x);
          if x != r {
            var j :| 0 <= j < |tail| && tail[j] == x;
            assert rows[j + 1] == x;
          }
        }
        ConsDescending(head, ins);
      }
    }
  }

  /** The sorted rows are the same rows, most recent first, and every
      undated row comes after every dated one. */
  lemma {:induction false} SortByDateSorted(rows: seq<ReportRow>)
    ensures Descending(SortByDate(rows))
    ensures multiset(SortByDate(rows)) == multiset(rows)
    ensures forall i, j :: 0 <= i < j < |SortByDate(rows)| && SortByDate(rows)[i].date.Null? ==>
      SortByDate(rows)[j].date.Null?
  {
    if rows != [] {
      SortByDateSorted(rows[1..]);
      InsertByDateSorted(rows[0], SortByDate(rows[1..]));
      assert rows == [rows[0]] + rows[1..];
    }
  }

  // ---------------------------------------------------------------------
  // Column widths

  function Min(a: int, b: int): int
  {
    if a <= b then a else b
  }

  /** The column `c` of the rows. */
  function Column(rows: seq<ReportRow>, c: nat): (cells: seq<Val>)
    requires c < |Headers|
    ensures |cells| == |rows| && forall i :: 0 <= i < |rows| ==> cells[i] == Cells(rows[i])[c]
  {
    seq(|rows|, i requires 0 <= i < |rows| => Cells(rows[i])[c])
  }

  /** The running maximum of `len(str(value))` over the non-empty cells,
      starting from `m`. */
  function Longest(m: int, cells: seq<Val>): int
  {
    if cells == [] then m
    else
      var before := Longest(m, cells[..|cells| - 1]);
      var v := cells[|cells| - 1];
      if Truthy(v) && |Show(v)| > before then |Show(v)| else before
  }

  /** A column's width: two more than its longest text (header included),
      capped at 50. */
  function Width(header: string, cells: seq<Val>): int
  {
    Min(Longest(|header|, cells) + 2, MaxColWidth)
  }

  lemma {:induction false} LongestIsMax(m: int, cells: seq<Val>)
    ensures Longest(m, cells) >= m
    ensures forall i :: 0 <= i < |cells| && Truthy(cells[i]) ==> Longest(m, cells) >= |Show(cells[i])|
  {
    LongestAtLeastStart(m, cells);
    forall i | 0 <= i < |cells| && Truthy(cells[i])
      ensures Longest(m, cells) >= |Show(cells[i])|
    {
      LongestCovers(m, cells, i);
    }
  }

  lemma {:induction false} LongestAtLeastStart(m: int, cells: seq<Val>)
    ensures Longest(m, cells) >= m
  {
    if cells != [] {
      LongestAtLeastStart(m, cells[..|cells| - 1]);
    }
  }

  /** The running maximum reaches every non-empty cell. */
  lemma {:induction false} LongestCovers(m: int, cells: seq<Val>, i: int)
    requires 0 <= i < |cells| && Truthy(cells[i])
    ensures Longest(m, cells) >= |Show(cells[i])|
  {
    var n := |cells| - 1;
    var prefix := cells[..n];
    var before := Longest(m, prefix);
    assert Longest(m, cells) >= before;
    if i < n {
      assert prefix[i] == cells[i];
      LongestCovers(m, prefix, i);
    }
  }

  lemma {:induction false} LongestAttained(m: int, cells: seq<Val>)
    ensures Longest(m, cells) == m || exists i :: 0 <= i < |cells| && Truthy(cells[i]) && Longest(m, cells) == |Show(cells[i])|
  {
    if cells != [] {
      var n := |cells| - 1;
      LongestAttained(m, cells[..n]);
      if Longest(m, cells) != Longest(m, cells[..n]) {
        assert Longest(m, cells) == |Show(cells[n])|;
      } else if Longest(m, cells) != m {
        var i :| 0 <= i < n && Truthy(cells[..n][i]) && Longest(m, cells[..n]) == |Show(cells[..n][i])|;
        assert cells[..n][i] == cells[i];
      }
    }
  }

  /** A width never exceeds 50, leaves room for the header and for every
      non-empty cell (up to the cap), and is either the cap or two more
      than the header or some cell. */
  lemma WidthBounds(header: string, cells: seq<Val>)
    ensures Width(header, cells) <= MaxColWidth
    ensures Width(header, cells) >= Min(|header| + 2, MaxColWidth)
    ensures forall i :: 0 <= i < |cells| && Truthy(cells[i]) ==> Width(header, cells) >= Min(|Show(cells[i])| + 2, MaxColWidth)
    ensures Width(header, cells) == MaxColWidth || Width(header, cells) == |header| + 2
      || exists i :: 0 <= i < |cells| && Truthy(cells[i]) && Width(header, cells) == |Show(cells[i])| + 2
  {
    LongestIsMax(|header|, cells);
    LongestAttained(|header|, cells);
  }

  /** The inner loop of lines 93-97: the running maximum of the lengths
      of the non-empty cells, starting from the header's length. */
  method LongestCell(start: int, cells: seq<Val>) returns (maxLength: int)
    ensures maxLength == Longest(start, cells)
  {
    maxLength := start;
    for i := 0 to |cells|
      invariant maxLength == Longest(start, cells[..i])
    {
      assert cells[..i + 1][..i] == cells[..i];
      var value := cells[i];
      if Truthy(value) {
        maxLength := if maxLength >= |Show(value)| then maxLength else |Show(value)|;
      }
    }
    assert cells[..|cells|] == cells;
  }

  /** The loops of lines 92-99: for each header, a running maximum over the
      column's cells, then the cap. */
  method ColumnWidths(rows: seq<ReportRow>) returns (widths: seq<int>)
    ensures |widths| == |Headers|
    ensures forall c :: 0 <= c < |Headers| ==> widths[c] == Width(Headers[c], Column(rows, c))
  {
    widths := [];
    for c := 0 to |Headers|
      invariant |widths| == c
      invariant forall d :: 0 <= d < c ==> widths[d] == Width(Headers[d], Column(rows, d))
    {
      var maxLength := LongestCell(|Headers[c]|, Column(rows, c));
      widths := widths + [Min(maxLength + 2, MaxColWidth)];
    }
  }

  // ---------------------------------------------------------------------
  // export_articles_to_excel

  /** What an export produces: nothing when there are no articles, or the
      report's rows in order and its column widths. */
  datatype Export = NothingToExport | Written(rows: seq<ReportRow>, widths: seq<int>)

  /** The rows of the report written: the new rows merged with the
      existing ones, most recent first. */
  function FinalRows(articles: seq<Dict>, existing: Option<seq<ReportRow>>, translate: (Val, Val) -> Val): Result<seq<ReportRow>, Exc>
  {
    match NewRows(articles, translate)
    case Err(e) => Err(e)
    case Ok(rows) => Ok(SortByDate(Combine(rows, existing)))
  }

  /** `export_articles_to_excel`: `articles` are the stored articles
      (`get_articles`), `existing` the rows of the report file when it
      exists. */
  method ExportArticlesToExcel(articles: seq<Dict>, existing: Option<seq<ReportRow>>, translate: (Val, Val) -> Val)
    returns (r: Result<Export, Exc>)
    ensures articles == [] ==> r == Ok(NothingToExport)
    ensures articles != [] && FinalRows(articles, existing, translate).Err? ==>
      r == Err(FinalRows(articles, existing, translate).error)
    ensures articles != [] && FinalRows(articles, existing, translate).Ok? ==>
      && r.Ok? && r.value.Written?
      && r.value.rows == FinalRows(articles, existing, translate).value
      && |r.value.widths| == |Headers|
      && forall c :: 0 <= c < |Headers| ==> r.value.widths[c] == Width(Headers[c], Column(r.value.rows, c))
  {
    if articles == [] {
      return Ok(NothingToExport);
    }
    var built := BuildRows(articles, translate);
    if built.Err? {
      return Err(built.error);
    }
    var combined := Combine(built.value, existing);
    var sorted := SortByDate(combined);
    var widths := ColumnWidths(sorted);
    r := Ok(Written(sorted, widths));
  }

  /** The report holds every row once per link when it was merged with an
      existing report, most recent first, and no column is wider than 50. */
  lemma ReportShape(articles: seq<Dict>, prior: seq<ReportRow>, translate: (Val, Val) -> Val)
    requires FinalRows(articles, Some(prior), translate).Ok?
    ensures var rows := FinalRows(articles, Some(prior), translate).value;
      && Descending(rows)
      && multiset(rows) == multiset(KeepLast(NewRows(articles, translate).value + prior))
      && forall c :: 0 <= c < |Headers| ==> Width(Headers[c], Column(rows, c)) <= MaxColWidth
  {
    var rows := FinalRows(articles, Some(prior), translate).value;
    SortByDateSorted(KeepLast(NewRows(articles, translate).value + prior));
    forall c | 0 <= c < |Headers|
      ensures Width(Headers[c], Column(rows, c)) <= MaxColWidth
    {
      WidthBounds(Headers[c], Column(rows, c));
    }
  }
}
