# HangarFireReporter core, modelled in Dafny

HangarFireReporter collects news about fires in aircraft hangars and keeps
them in a vector store. The pipeline has these stages:

- **Scraping.** Bing News and Google News are searched for every
  configured language and query. The results are de-duplicated by url.
- **Ingestion.** Each candidate article is embedded, and its three nearest
  stored articles are retrieved. A language model then judges the
  candidate: is it a valid hangar fire incident, and does it duplicate one
  of the neighbours? The candidate is then rejected, merged into the
  stored article it duplicates, or inserted as a new record tagged with
  the batch week.
- **Archive import.** Historical articles come from a Word document or a
  JSON export, and are tagged "doc".
- **Reporting.** The weekly Excel report lists every stored article that
  is not from the archive. It is merged with the previous report, sorted
  by date, and given capped column widths.

The project models six parts of the repository, one Dafny module each:

| module | file | models |
|---|---|---|
| `PyValues` (with `Wrappers`) | pyvalues.dfy | The Python values the code handles (None, bool, int, text, list), dictionaries as maps, and `dict.get`, truthiness, `str()`, `int()` and `str.strip`. Exceptions are `Result` errors. |
| `Store` | store.dfy | The `articles` table as a class over `map<int, Row>` with a serial id counter, plus `clean_database`, `doc_upload`, `get_articles` and `get_similar_articles` (src/db/__init__.py). |
| `Analyser` | analyser.dfy | `create_analysis_prompt` as a loop, `_analyze_article` with its re-raised errors, and `analyze_article`'s retrieval and index-to-id step (src/llm/hangarFireAnayser.py). |
| `Upload` | upload.dfy | `article_upload` (src/db/upload.py). It is a loop over the candidates that rejects, merges or inserts on the shared table, and it is proved against the functional specification `Ingest`. |
| `Serp` | serp.dfy | URL de-duplication, the old-article test, date parsing, the Bing paging loop and `scrape` (src/scrapers/scrape_serpapi.py). |
| `DocParser` | docparser.dfy | `split_doc`, `extract_details` with the seven regular expressions, and `doc_parse` (src/parser/doc.py). |
| `Exporter` | exporter.dfy | Row construction, the merge with an existing report, the date sort and the column widths of `export_articles_to_excel` (src/excel/article_excel_exporter.py). |

Foreign services are parameters of the operations that call them:

- the embedding service
- the store's similarity function
- the chat-completion call and the JSON decoder
- query and text translation
- `strptime`
- the Bing result pages
- the Google search

What the model proves about these operations therefore holds whatever
those services answer.

## Behaviour of note

The model follows the code as written in each of these cases.

- **Retrieval text.** The analyser embeds a Title/Location/Description/Content text (src/llm/hangarFireAnayser.py:122-125). The archive import embeds a Title/Location/Published At/Content text (src/db/__init__.py:46-49). The two texts differ.
- **Empty text.** The analyser does not check for an empty candidate text. The archive import checks, but the check can never fire, because its text always starts with "Title:" (`Store.DocTextNeverEmpty`).
- **Missing verdict fields.** A missing `is_valid` counts as false (src/db/upload.py:32). Missing enrichment fields default to "" or are not filled. Only a missing `duplicate_index` raises, as KeyError.
- **Empty store.** When the store returns no neighbours, the retrieval gives a bare `[]` that cannot be unpacked, so the analysis raises instead of treating the candidate as new (`Analyser.EmptyRetrievalRaises`).
- **Url list of a merged record.** The merge tests `article.get('url')` but appends `article.get('url', '')` (src/db/upload.py:35-36). A candidate without a url therefore appends "" on every merge, and raises TypeError against a url stored as text. The ingestion (`Upload.Act`, `Upload.Ingest`, `Upload.ProcessOne`) runs this merge. The intended merge is stated beside it (see Findings), and `Upload.MergeAgreesWithUrl` shows the two agree whenever the candidate has a url.
- **Url cell of the report.** The exporter tests `len(urls) > 3` before `isinstance(urls, list)` (src/excel/article_excel_exporter.py:37-43). A url held as text is cut to its first three characters, and a None or number url raises TypeError. The report rows (`Exporter.BuildRow`) use this cell. The intended cell is stated beside it (see Findings), and `Exporter.UrlCellsAgree` shows the two differ only on text urls longer than three characters.
- **Undated rows.** A record stored without a date has `publishedAt` None (src/db/upload.py:46). `sort_values(..., ascending=False)` places such rows after every dated row, so the model's descending order (`Exporter.GoesBefore`) puts them last.
- **Old Bing articles.** A Bing date ending in "y" whose prefix is not an integer makes `int()` raise ValueError. That ends the whole Bing search for the query, with no results (`Serp.IsOldArticle`, `Serp.BingResults`).
- **Configured languages.** `scrape` iterates over `config.LANGUAGES` (src/scrapers/scrape_serpapi.py:186), but the `Config` class in src/config.py:7-18 defines no such attribute, so as written `scrape` raises AttributeError before any search. The model takes the language list as the `languages` parameter of `Serp.Scrape`, as if the attribute held a list.

## Model

| member | source | states |
|---|---|---|
| Store.InsertRow | src/db/upload.py:57 | An insert stores the record under the next serial id, which was unused. The table grows by one and stays well formed. |
| Store.InsertAllShape | src/db/__init__.py:60 | A batch insert gives the k-th record id `nextId + k` and leaves every stored row unchanged. The table grows by exactly the batch size. |
| Store.UpdateRow | src/db/upload.py:41 | An update by id replaces that row only. No id appears or disappears. |
| Store.KeepNegativeIds | src/db/__init__.py:28 | `delete().gte("id", 0)` keeps exactly the rows with a negative id, unchanged. |
| Store.CleanEmptiesTable | src/db/__init__.py:20-28 | In a well-formed table every id is positive, so the bulk delete removes every row. |
| Store.ReportRowsExact | src/db/__init__.py:99 | A row is listed by the report query exactly when it is stored and its `collectedAt` is neither "doc" nor NULL. |
| Store.SimilarArticles | src/db/__init__.py:69-89 | Non-empty rows come back paired with the query embedding. The call raises exactly when there are no rows and there is an error. It gives a bare empty result exactly when there are neither. |
| Store.DocTextNeverEmpty | src/db/__init__.py:46-52 | The archive's combined text always starts with "Title:", so the emptiness guard never fires. |
| Store.DocFields | src/db/__init__.py:54-56 | An archive entry is tagged "doc". A text url becomes a one-element list, and any other url is kept. |
| Store.DocFieldsKeep | src/db/__init__.py:54-56 | Every other field of the archive entry is kept as it was, and no field is added except the "doc" tag. |
| Store.PrepareDocs | src/db/__init__.py:44-56 | The loop over the archive yields, in order, each article normalised with the embedding of its combined text. |
| Store.ArticleTable.Insert | src/db/upload.py:57 | The table after `insert` is `InsertRow` of the table before. The returned id was unused. |
| Store.ArticleTable.InsertBatch | src/db/__init__.py:60 | Inserting a batch one row at a time gives `InsertAll` of the table before. |
| Store.ArticleTable.SelectById | src/db/upload.py:34 | `select('*').eq('id', key)` gives the one row under an integer key that is present, and nothing otherwise. |
| Store.ArticleTable.UpdateById | src/db/upload.py:41 | The table after the update is `UpdateRow` of the table before. |
| Store.ArticleTable.CleanDatabase | src/db/__init__.py:20-28 | `clean_database` empties the table and keeps the id counter. |
| Store.ArticleTable.GetArticles | src/db/__init__.py:92-104 | The loop returns the report rows in id order. A row is in the result exactly when it is stored and its `collectedAt` is neither "doc" nor NULL. |
| Store.ArticleTable.DocUpload | src/db/__init__.py:31-66 | Input that is not a list raises ValueError and leaves the table unchanged. Otherwise the result is the insert reply's data, and an error reply raises. On an error reply the table is unchanged; otherwise every normalised record is inserted, in order. |
| Analyser.FieldRendering | src/llm/hangarFireAnayser.py:25-39 | A missing field renders as "", text renders as itself and None as "None". Rendering never raises. |
| Analyser.BlockHeader | src/llm/hangarFireAnayser.py:23-24 | Every neighbour block opens with "\nArticle n:\n". |
| Analyser.PromptNumbering | src/llm/hangarFireAnayser.py:22-40 | Neighbour k (0-based) appears as "Article k+1" right after the blocks of the neighbours before it, so a 1-based duplicate index names list position index-1. |
| Analyser.PromptFrame | src/llm/hangarFireAnayser.py:18-86 | The prompt starts with the opening text and ends with the new article followed by the requirements. |
| Analyser.BuildPrompt | src/llm/hangarFireAnayser.py:22-40 | The `+=` loop over the neighbours, followed by the new-article block and the closing text, builds exactly the layout: opening, blocks numbered from 1 in neighbour order, new article, closing text. |
| Analyser.CreateAnalysisPrompt | src/llm/hangarFireAnayser.py:14-86 | The prompt built is exactly the fixed preamble, the numbered neighbours, the new article and the fixed requirements. |
| Analyser.AnalyzeRaw | src/llm/hangarFireAnayser.py:88-115 | The verdict is the decoded, stripped completion. An API failure, missing content or undecodable text raises; there is never a default verdict. Success holds exactly when all three steps succeed. |
| Analyser.ResolveDuplicate | src/llm/hangarFireAnayser.py:131-135 | A positive index d adds the id of neighbour d-1. Any other index adds nothing. A missing index raises KeyError and a non-number raises TypeError. The embedding is returned unchanged. |
| Analyser.IndexPastNeighbours | src/llm/hangarFireAnayser.py:131-132 | An index larger than the neighbour count raises IndexError. |
| Analyser.AnalyzeArticle | src/llm/hangarFireAnayser.py:117-135 | A successful analysis asked the store for 3 neighbours of the combined Title/Location/Description/Content text and got at least one. It returns that text's embedding unchanged. |
| Analyser.EmptyRetrievalRaises | src/llm/hangarFireAnayser.py:127 | An empty retrieval makes the analysis fail rather than treating the article as new. |
| Analyser.AnalyzeUsesVerdict | src/llm/hangarFireAnayser.py:127-132 | With neighbours, the result is the index-to-id step applied to the model's verdict, or the model call's own error. |
| Upload.UrlContains | src/db/upload.py:35 | `in` on a stored url is list membership or a substring test. Anything else raises TypeError, in both directions. |
| Upload.MergeAsWrittenRepeats | src/db/upload.py:35-36 | As written, merging a candidate without a url appends "" on every merge, so the url list keeps growing. |
| Upload.MergeKeepsOtherFields | src/db/upload.py:34-41 | The merge as written can change only `url`, `airport_hangar_name` and `location`. Every other column is written back as read. |
| Upload.MergeUrlList | src/db/upload.py:35-36 | The merge as written keeps every old url, in order. When `article.get('url')` is in the list nothing changes. Otherwise `article.get('url', '')` is appended once, so a url-less candidate appends "" even when "" is present. |
| Upload.MergeFillsOnlyEmpty | src/db/upload.py:37-40 | In the merge as written, enrichment fields are filled only when the stored value is empty and the verdict's is not. A non-empty stored value is never overwritten. |
| Upload.FillIfEmptyIdempotent | src/db/upload.py:37-40 | Filling a field twice is the same as filling it once. |
| Upload.MergeIdempotent | src/db/upload.py:35-40 | For the intended merge, which tests and appends the same url, merging the same candidate with the same verdict a second time changes nothing. |
| Upload.MergeErrors | src/db/upload.py:34-36 | In the merge as written, a stored record without `url` raises KeyError. A text url with a candidate url that is not text raises TypeError (a missing candidate url included), and so does a None or number url. |
| Upload.MergeAgreesWithUrl | src/db/upload.py:35-36 | When the candidate has a `url` key, the merge as written and the intended merge give the same result. |
| Upload.MergeAsWrittenIdempotent | src/db/upload.py:35-40 | When the candidate has a `url` key, repeating a successful merge as written changes nothing. |
| Upload.PublishedDay | src/db/upload.py:46 | A falsy date becomes None. A text date is cut to its first 10 characters and kept whole when shorter. A number raises TypeError. |
| Upload.NewRecordFields | src/db/upload.py:43-54 | The new record has exactly the nine columns: url `[candidate url]`, the cut date, enrichment defaulting to "", the batch tag and the retrieval embedding. It fails only when the date cannot be sliced. |
| Upload.Ingest | src/db/upload.py:29-58 | The run, whose merges are the merge as written, keeps the table well formed. |
| Upload.RejectChangesNothing | src/db/upload.py:32 | A verdict whose `is_valid` is false or absent leaves the table unchanged and creates nothing. |
| Upload.PositiveIndexMerges | src/db/upload.py:33-41 | A positive duplicate index replaces the record under the verdict's id by the merge as written, keeping its embedding. It creates nothing and no other row changes. |
| Upload.OtherIndexInserts | src/db/upload.py:42-57 | A zero or negative index inserts the new record, tagged with the batch tag and carrying the retrieval embedding. |
| Upload.ActShape | src/db/upload.py:32-57 | One verdict creates at most one record. Without one, the ids are unchanged; with one, exactly that record is inserted. |
| Upload.StepShape | src/db/upload.py:31-57 | The same holds for one candidate, analysis included. |
| Upload.IngestIds | src/db/upload.py:29-58 | The identifier counter advances by one per returned record, and the new identifiers are exactly those skipped over. |
| Upload.IngestSize | src/db/upload.py:29-58 | The table grows by one row per returned record. |
| Upload.IngestTagged | src/db/upload.py:29-58 | Every returned record carries the batch tag. |
| Upload.ActKeepsRows | src/db/upload.py:32-57 | One verdict keeps every stored id, and each stored row changes at most in the url and enrichment fields. |
| Upload.IngestKeepsRows | src/db/upload.py:29-58 | A run keeps every stored id, and each stored row changes at most in the url and enrichment fields. |
| Upload.IngestStoresCreated | src/db/upload.py:29-58 | The k-th returned record sits under id `nextId + k`, up to what a later merge into it may rewrite. |
| Upload.IngestCreatesExactly | src/db/upload.py:29-58 | The k-th returned record is the one stored under id `nextId + k`, up to the url and enrichment fields a later merge into it may rewrite. The table gains exactly those ids, keeps every earlier id with its row changed at most in those fields, and grows by one row per returned record. Each returned record carries the batch tag. |
| Upload.IngestFirst | src/db/upload.py:30-57 | A run is its first step followed by the run on the rest, or it stops at that step's exception. |
| Upload.ArticleUpload | src/db/upload.py:22-58 | The final table and the result are those of `Ingest`, with the merge as written and tag "backfill" or the ISO week. |
| Upload.UploadLoop | src/db/upload.py:29-58 | The in-place loop over the shared table ends in `Ingest`'s table and returns its created records or its exception. |
| Upload.ProcessOne | src/db/upload.py:31-57 | One loop iteration on the shared table, testing `article.get('url')` and appending `article.get('url', '')`, does what `Step` says. An exception leaves the table untouched. |
| Serp.OldArticleCases | src/scrapers/scrape_serpapi.py:21-29 | An empty or missing date is old. "<n>y" is old exactly when n > 5. Non-empty text not ending in "y" is never old. |
| Serp.KeepFirstExact | src/scrapers/scrape_serpapi.py:31-42 | De-duplication keeps exactly the first article of each non-empty url. It is a subsequence of the input with distinct urls. |
| Serp.DedupIdempotent | src/scrapers/scrape_serpapi.py:37-41 | De-duplicating twice is de-duplicating once. |
| Serp.RemoveDuplicates | src/scrapers/scrape_serpapi.py:31-46 | The seen-set loop computes `Dedup`. It returns the input unchanged when a list url makes the set test raise. |
| Serp.FirstFormatFirst | src/scrapers/scrape_serpapi.py:74-88 | The result is today exactly when no absolute format accepts the text. Otherwise it is the date read by the first accepting format in list order. |
| Serp.MinutesSuffix | src/scrapers/scrape_serpapi.py:55-56 | Any text ending in "m" is today. |
| Serp.HoursSuffix | src/scrapers/scrape_serpapi.py:57-60 | Text ending in "h" (and not in "m") is the text before it read as an hour offset; today when that text is not an integer. |
| Serp.DaysSuffix | src/scrapers/scrape_serpapi.py:61-64 | Text ending in "d" (and not in "m" or "h") is the text before it read as a day offset; today when that text is not an integer. |
| Serp.MonthsSuffix | src/scrapers/scrape_serpapi.py:65-68 | Text ending in "mon" is the text before the suffix read as a month count, 30 days each; today when that text is not an integer. |
| Serp.YearsSuffix | src/scrapers/scrape_serpapi.py:69-72 | Text ending in "y" is the text before it read as a year count, 365 days each; today when that text is not an integer. |
| Serp.RelativeSuffixes | src/scrapers/scrape_serpapi.py:55-72 | All five relative suffixes, for every integer n. |
| Serp.ParseDateFallsBack | src/scrapers/scrape_serpapi.py:48-90 | An empty, missing or unrecognised date is today; the function never raises. |
| Serp.FreshPrefixShape | src/scrapers/scrape_serpapi.py:159-165 | A page's kept articles are a prefix of the page with no old article. Paging stops exactly at the first old one. |
| Serp.CollectShape | src/scrapers/scrape_serpapi.py:149-168 | The collected articles are a prefix of the concatenated pages and contain no old article. |
| Serp.CollectMovesOn | src/scrapers/scrape_serpapi.py:166-168 | Paging moves past a page only when it was full (10 items) and had no old article. |
| Serp.TakeRecent | src/scrapers/scrape_serpapi.py:159-165 | The inner loop keeps the articles before the first old one and reports whether one was met. A date exception propagates. |
| Serp.CollectBing | src/scrapers/scrape_serpapi.py:149-168 | The paging loop, with `first` advancing by 10 from 1, computes `Collect`. |
| Serp.BingResults | src/scrapers/scrape_serpapi.py:138-180 | An exception while paging gives no results. Otherwise there is one record per collected article. |
| Serp.SearchBingNews | src/scrapers/scrape_serpapi.py:138-180 | The search computes `BingResults`. |
| Serp.SearchLanguage | src/scrapers/scrape_serpapi.py:188-198 | The inner loop extends the results list, query by query, with the Bing then the Google results of the query translated into the language. |
| Serp.Scrape | src/scrapers/scrape_serpapi.py:182-203 | The result is `Dedup` of the Bing and Google results for every translated query in every language, in that order. |
| Serp.ScrapeDistinct | src/scrapers/scrape_serpapi.py:201 | Unless some url is a list, the scraped articles have non-empty, pairwise distinct urls and form a subsequence of what was gathered. |
| DocParser.SplitDoc | src/parser/doc.py:5-19 | The paragraph loop yields the non-empty sections between headings, in order. |
| DocParser.SectionsCount | src/parser/doc.py:11-18 | There is one section more than there are headings. |
| DocParser.SectionsConcat | src/parser/doc.py:9-18 | The sections put together are the body paragraphs' texts, each followed by "\n". |
| DocParser.NonEmptyShape | src/parser/doc.py:12-18 | Dropping empty chunks keeps the concatenation and removes every empty chunk. |
| DocParser.SplitDocShape | src/parser/doc.py:9-19 | No chunk is empty. The chunks concatenate to the body text. There are at most headings+1 chunks. |
| DocParser.HeadingTextIgnored | src/parser/doc.py:11-14 | Heading text never reaches a chunk: only heading positions matter. |
| DocParser.LineOf | src/parser/doc.py:24 | `(.*)` captures up to, not including, the first line break. |
| DocParser.TokenOf | src/parser/doc.py:29 | `(\S+)` captures the longest prefix without white space. |
| DocParser.SkipTabs | src/parser/doc.py:28 | `[\t]*` consumes exactly the leading tabs: every dropped character is a tab, and what is left does not start with one. |
| DocParser.NextVisible | src/parser/doc.py:24-30 | `\s*` stops at the first character that is not white space, or at the end of the text. |
| DocParser.TrimStartFrom | src/parser/doc.py:24-30 | Skipping the white space after a position leaves the text from the next visible character on. |
| DocParser.CapturableIsGroup | src/parser/doc.py:24-30 | A pattern's tail matches after its label exactly when its group can be read there: `(.*)` always can, `\s*(\S+)` needs a visible character, and `\s*\S+\s*([\s\S]+)` needs one more character after it. |
| DocParser.FirstMatch | src/parser/doc.py:36 | A match position found by `re.search` leaves room for the label. |
| DocParser.FirstMatchLeftmost | src/parser/doc.py:36 | `re.search` finds the leftmost match position, or reports that there is none anywhere. |
| DocParser.SearchAt | src/parser/doc.py:36-38 | Where the pattern first matches, `match.group(1)` is the group read after the label there. |
| DocParser.KeysDistinct | src/parser/doc.py:23-31 | The seven keys are distinct and each has its pattern. |
| DocParser.RecordShape | src/parser/doc.py:33-40 | Filling a dictionary key by key leaves each key with its own value. |
| DocParser.Details | src/parser/doc.py:21-42 | The record always has exactly the seven keys, each holding its pattern's extracted value. |
| DocParser.ExtractDetails | src/parser/doc.py:21-42 | The pattern loop builds `Details`. |
| DocParser.ExtractedStripped | src/parser/doc.py:38 | An extracted value neither starts nor ends with white space. |
| DocParser.AbsentLabel | src/parser/doc.py:39-40 | A label the chunk does not contain yields "". |
| DocParser.ExtractedOneLine | src/parser/doc.py:24-28 | Title, source, location, date and author are single-line values. |
| DocParser.ExtractedToken | src/parser/doc.py:29 | The url is one token without white space. It is empty exactly when the pattern matches nowhere. |
| DocParser.LabelledLine | src/parser/doc.py:24-38 | A chunk starting with a label, a value and a line break yields the stripped value. |
| DocParser.DocParse | src/parser/doc.py:45-61 | `doc_parse` keeps the records with a title, from the chunks of `split_doc`. |
| DocParser.TitledExact | src/parser/doc.py:57-60 | A record is kept exactly when it has a non-empty title, and no more records are kept than there are. |
| DocParser.TitledInOrder | src/parser/doc.py:57-60 | The kept records are a subsequence of the records: their order is kept. |
| DocParser.TitledCounts | src/parser/doc.py:57-60 | A record with a title is kept as many times as it occurs, and one without is never kept. |
| DocParser.DocParseArticles | src/parser/doc.py:55-61 | Every parsed article has the seven keys and a non-empty title. |
| Exporter.Cells | src/excel/article_excel_exporter.py:12-20 | A row has one cell per header. |
| Exporter.UrlCellAsWrittenCutsText | src/excel/article_excel_exporter.py:37-43 | As written, a text url is cut to its first three characters ("htt"). The corrected cell shows it whole. |
| Exporter.UrlCellShowsFirstThree | src/excel/article_excel_exporter.py:37-43 | In the intended cell, a url list shows at most its first three urls joined with ", ", and a text url is shown whole. |
| Exporter.UrlCellsAgree | src/excel/article_excel_exporter.py:37-43 | The cell as written and the intended cell agree except on a text url longer than three characters, which the cell as written cuts to three. |
| Exporter.BuildRowFields | src/excel/article_excel_exporter.py:36-58 | Language defaults to "en". The summary is the description, or the title when the description is empty, and is translated for non-English rows. "Origin Title" is the title only for non-English rows. The link cell is the url cell as written. |
| Exporter.BuildRowFails | src/excel/article_excel_exporter.py:36-43 | A row fails exactly when its url cell does: a url that is neither text nor a list, or a list with a non-text item among its first three, raises TypeError. |
| Exporter.NewRowsShape | src/excel/article_excel_exporter.py:34-60 | One row per article, in order, each with the url cell as written. The rows fail exactly when some article fails. |
| Exporter.BuildRows | src/excel/article_excel_exporter.py:34-60 | The row loop computes `NewRows`, whose url cells are the cell as written. |
| Exporter.KeepLastExact | src/excel/article_excel_exporter.py:68 | `keep="last"` keeps exactly the last row of each link, in order, with the same set of links and none repeated. |
| Exporter.ExistingRowsWin | src/excel/article_excel_exporter.py:64-69 | A kept row whose link is in the existing report is that report's row: the old row wins a clash. |
| Exporter.NewRowsKept | src/excel/article_excel_exporter.py:64-69 | A new row with a new link that is not repeated later is kept. The merge holds the links of both reports. |
| Exporter.InsertByDateSorted | src/excel/article_excel_exporter.py:74 | Inserting a row into a descending list keeps it descending (undated rows last) and adds exactly that row. |
| Exporter.GoesBeforeTotal | src/excel/article_excel_exporter.py:74 | Any two rows can be ordered by date. |
| Exporter.GoesBeforeTrans | src/excel/article_excel_exporter.py:74 | The date order is transitive. |
| Exporter.SortByDateSorted | src/excel/article_excel_exporter.py:74 | The sort gives the same rows, most recent date first, and every row without a date comes after all dated rows. |
| Exporter.LongestIsMax | src/excel/article_excel_exporter.py:93-97 | The running maximum is at least its start and at least every non-empty cell's length. |
| Exporter.LongestCovers | src/excel/article_excel_exporter.py:93-97 | The running maximum is at least the length of any given non-empty cell. |
| Exporter.LongestAtLeastStart | src/excel/article_excel_exporter.py:93-97 | The running maximum is at least its start. |
| Exporter.LongestAttained | src/excel/article_excel_exporter.py:93-97 | The running maximum is its start or the length of some non-empty cell. |
| Exporter.LongestCell | src/excel/article_excel_exporter.py:93-97 | The inner loop over a column's cells ends with the running maximum of the header length and the non-empty cells' lengths. |
| Exporter.WidthBounds | src/excel/article_excel_exporter.py:92-99 | A width is at most 50. It is at least header+2 and each non-empty cell's length+2, both capped at 50, and it equals one of these. |
| Exporter.ColumnWidths | src/excel/article_excel_exporter.py:92-99 | The width loops compute `Width` for each of the seven columns. |
| Exporter.ExportArticlesToExcel | src/excel/article_excel_exporter.py:26-99 | No articles means nothing is built or written. A row error, such as a url with no length, propagates. Otherwise the merged rows, sorted with undated rows last, are written with their computed widths. |
| Exporter.ReportShape | src/excel/article_excel_exporter.py:64-99 | A report merged with an existing one is sorted descending with undated rows last, holds the de-duplicated rows (url cells as written), and no column is wider than 50. |

## Left out

- Language-model judgement. The completion call is a parameter (`llm`) and its answer is an uninterpreted value; validity and duplication are whatever it says.
- Embeddings and nearest-neighbour ranking. Embeddings are opaque `seq<real>` values from a parameter. The store's `match_articles` ranking is a parameter (`rpc`) whose rows are taken as given; a bound on how many rows it returns is not assumed.
- Network and I/O are parameters or left out:
  - the Supabase client and its error replies on `update`, `select` and `get_articles`
  - SerpAPI requests (Bing pages and Google results are parameters)
  - reading the JSON archive (a `JsonFile` value)
  - reading the .docx file (a list of paragraphs)
  - reading and writing the Excel file (`existing` rows in, rows and widths out)
- `search_google_news` is not part of this model. Its result list, weekly date filter and record mapping are the `google` parameter of `Scrape`.
- Calendar arithmetic. The ISO week string is an input of `ArticleUpload`. `_parse_date` yields a `Stamp` (today, hours back, days back, or the date `strptime` read); rendering it as YYYY-MM-DD is a parameter.
- `timedelta` overflow for very large relative offsets is not modelled: any integer offset gives a stamp.
- Translation (`translate_query`, `translate_text`) is a parameter.
- Email sending, the entry point, the configuration, logging and the tqdm progress bar are not part of this model.
- Serp.Scrape: `config.LANGUAGES` is undefined in src/config.py, so the code as written raises AttributeError. The model assumes it holds a list of languages, passed as the `languages` parameter.
- openpyxl styling, header fills and the hyperlink rewriting of lines 101-120 are left out. Widths are computed from the values written, as `str()` of each cell.
- Exporter.SortByDate: pandas' default sort is not stable. The model is a stable insertion sort; what is proved (descending and a permutation) holds for any valid sort.
- Exporter.DateKey: dated rows are compared by their text, which is what pandas does for text columns; rows whose date is None come last (`Exporter.GoesBefore`). Excel's conversion of cells to dates or numbers on the round trip is not modelled, nor are NaN cells read back from the old report, nor the TypeError pandas raises when a date column mixes text and numbers.
- Float JSON values, and Python's `1 == True` equality in url membership and de-duplication, are not modelled: values are None, booleans, integers, text and lists.
- PyValues.ParseInt accepts ASCII digits only. Python's `int()` also accepts every other Unicode decimal digit; those are not modelled.
- PyValues.Repr always wraps text in single quotes and does not escape. Python's `repr` switches to double quotes for text containing `'` and escapes backslashes and control characters.
- Archive elements that are not dictionaries are not modelled: the archive is a list of dictionaries or not a list at all.
- DocParser.Search models Python regular expressions only for the seven fixed patterns of `extract_details`, including the backtracking of `[\s\S]+`.
- Serp.CollectBing: the Bing pages are a finite sequence, so paging always ends. Against a service that keeps returning full pages with no old article, the loop of src/scrapers/scrape_serpapi.py:152-168 would not end; that case is not modelled.
- Store.ArticleTable.GetArticles: the query of src/db/__init__.py:99-104 has no order clause, so the order of the rows is up to the store. The model returns them in id order.
- Store.ArticleTable.DocUpload has no branch for the empty-text guard of src/db/__init__.py:51-52, because that guard can never fire (Store.DocTextNeverEmpty).

## Findings

| source | as written | input that shows it | evidently intended | confidence | as-written member | corrected member |
|---|---|---|---|---|---|---|
| src/db/upload.py:35-36 | membership is tested for `article.get('url')` but `article.get('url', '')` is appended | a candidate with no `url` key merged twice into a record with url `[]`: the list becomes `[""]`, then `["", ""]` | test and append the same value, so a repeated merge changes nothing | not executed | Upload.MergeAsWrittenRepeats | Upload.MergeIdempotent |
| src/excel/article_excel_exporter.py:37-43 | `len(urls) > 3` is checked, and the slice taken, before `isinstance(urls, list)` | a stored url held as the text "https://a.example" gives the cell "htt" | keep the first three urls of a list and show a text url whole | not executed | Exporter.UrlCellAsWrittenCutsText | Exporter.UrlCellShowsFirstThree |

The pipeline members (`Upload.Act`, `Upload.Ingest`, `Upload.ProcessOne`, `Exporter.BuildRow` and the members above them) run the code as written. The corrected members state the intended behaviour, and `Upload.MergeAgreesWithUrl` and `Exporter.UrlCellsAgree` state exactly where each pair agrees.
