// The ingestion step of src/db/upload.py: each candidate article is
// analysed against its nearest stored neighbours and then rejected,
// merged into the neighbour the verdict names, or inserted as a new
// record tagged with the batch week.

module Upload {
  import opened Wrappers
  import opened PyValues
  import opened Store
  import opened Analyser

  /** The foreign services the ingestion depends on. */
  datatype Oracles = Oracles(
    embed: string -> Embedding,
    rpc: (Table, Embedding, int) -> RpcReply,
    llm: string -> ApiReply,
    parse: string -> Option<Decoded>)

  /** The batch tag: "backfill" for a back-fill run, otherwise the ISO
      year-week of the run date (computed by the caller). */
  function BatchTag(isBackfill: bool, isoWeek: string): string
  {
    if isBackfill then "backfill" else isoWeek
  }

  // ---------------------------------------------------------------------
  // Merging a candidate into a stored record

  /** `c in container` for a stored url value: list membership, or a
      substring test on a text; anything else raises TypeError. */
  function UrlContains(container: Val, c: Val): (r: Result<bool, Exc>)
    ensures container.List? ==> r == Ok(c in container.items)
    ensures container.Str? && c.Str? ==> r == Ok(IsSubstring(c.s, container.s))
    ensures r.Err? <==> !container.List? && !(container.Str? && c.Str?)
  {
    match container
    case List(xs) => Ok(c in xs)
    case Str(s) => if c.Str? then Ok(IsSubstring(c.s, s)) else Err(TypeError)
    case _ => Err(TypeError)
  }

  /** Sets `key` to the verdict's `source` value only when that value is
      truthy and the stored one is not. */
  function FillIfEmpty(fields: Dict, key: string, verdict: Dict, source: string): Dict
  {
    if Truthy(Get(verdict, source, Null)) && !Truthy(Get(fields, key, Null)) then fields[key := verdict[source]]
    else fields
  }

  /** The merge of lines 35-40: `checked` is the value tested for
      membership in the stored urls, `appended` the value appended when it
      is absent; then the two enrichment fields are back-filled. */
  function MergeWith(fields: Dict, checked: Val, appended: Val, verdict: Dict): Result<Dict, Exc>
  {
    match UrlContains(Get(fields, "url", List([])), checked)
    case Err(e) => Err(e)
    case Ok(present) =>
      if !present && "url" !in fields then Err(KeyError("url"))
      else if !present && !fields["url"].List? then Err(AttributeError)
      else
        var withUrl := if present then fields else fields["url" := List(fields["url"].items + [appended])];
        Ok(FillIfEmpty(FillIfEmpty(withUrl, "airport_hangar_name", verdict, "airport_hangar_name"),
                       "location", verdict, "country_region"))
  }

  /** The merge as written, and as the ingestion runs it: membership is
      tested for `article.get('url')` but `article.get('url', '')` is
      appended. */
  function MergeAsWritten(fields: Dict, article: Dict, verdict: Dict): Result<Dict, Exc>
  {
    MergeWith(fields, Get(article, "url", Null), Get(article, "url", Str("")), verdict)
  }

  /** The candidate url the merge works with: `article.get('url', '')`. */
  function CandidateUrl(article: Dict): Val
  {
    Get(article, "url", Str(""))
  }

  /** The merge as intended: one candidate value for both the test and the
      append. It agrees with the merge as written whenever the candidate
      has a url (MergeAgreesWithUrl). */
  function Merge(fields: Dict, article: Dict, verdict: Dict): Result<Dict, Exc>
  {
    MergeWith(fields, CandidateUrl(article), CandidateUrl(article), verdict)
  }

  /** A candidate without a url is never found among the stored urls, so
      every merge of it appends another empty text. */
  lemma MergeAsWrittenRepeats()
    ensures var f := map["url" := List([])];
      && MergeAsWritten(f, map[], map[]) == Ok(map["url" := List([Str("")])])
      && MergeAsWritten(map["url" := List([Str("")])], map[], map[]) == Ok(map["url" := List([Str(""), Str("")])])
  {
    var f := map["url" := List([])];
    assert UrlContains(List([]), Null) == Ok(false);
    assert [] + [Str("")] == [Str("")];
    assert Null !in [Str("")];
    assert f["url" := List([Str("")])] == map["url" := List([Str("")])];
    var g := map["url" := List([Str("")])];
    assert [Str("")] + [Str("")] == [Str(""), Str("")];
    assert g["url" := List([Str(""), Str("")])] == map["url" := List([Str(""), Str("")])];
  }

  /** Only the url list and the two enrichment fields can change; the id,
      the title, the tag and every other field are written back as read. */
  lemma MergeKeepsOtherFields(fields: Dict, article: Dict, verdict: Dict)
    ensures MergeAsWritten(fields, article, verdict).Ok? ==>
      var g := MergeAsWritten(fields, article, verdict).value;
      forall k :: k != "url" && k != "airport_hangar_name" && k != "location" ==>
        (k in g <==> k in fields) && (k in fields ==> g[k] == fields[k])
  {
  }

  /** After a merge the stored url list still holds every url it held, in
      the same order. When `article.get('url')` is among them nothing is
      appended; otherwise `article.get('url', '')` is appended once. */
  lemma MergeUrlList(fields: Dict, article: Dict, verdict: Dict)
    requires "url" in fields && fields["url"].List?
    ensures MergeAsWritten(fields, article, verdict).Ok?
    ensures var g := MergeAsWritten(fields, article, verdict).value;
      && "url" in g && g["url"].List?
      && fields["url"].items <= g["url"].items
      && (Get(article, "url", Null) in fields["url"].items ==> g["url"] == fields["url"])
      && (Get(article, "url", Null) !in fields["url"].items ==>
            g["url"].items == fields["url"].items + [CandidateUrl(article)])
  {
  }

  /** Enrichment is fill-only-if-empty: a non-empty stored value is never
      overwritten, an empty one takes the verdict's value when that is
      non-empty. */
  lemma MergeFillsOnlyEmpty(fields: Dict, article: Dict, verdict: Dict)
    ensures MergeAsWritten(fields, article, verdict).Ok? ==>
      var g := MergeAsWritten(fields, article, verdict).value;
      && (Truthy(Get(fields, "airport_hangar_name", Null)) ==> Get(g, "airport_hangar_name", Null) == Get(fields, "airport_hangar_name", Null))
      && (Truthy(Get(fields, "location", Null)) ==> Get(g, "location", Null) == Get(fields, "location", Null))
      && (!Truthy(Get(fields, "airport_hangar_name", Null)) && Truthy(Get(verdict, "airport_hangar_name", Null)) ==>
            Get(g, "airport_hangar_name", Null) == verdict["airport_hangar_name"])
      && (!Truthy(Get(fields, "location", Null)) && Truthy(Get(verdict, "country_region", Null)) ==>
            Get(g, "location", Null) == verdict["country_region"])
      && (!Truthy(Get(verdict, "airport_hangar_name", Null)) ==> Get(g, "airport_hangar_name", Null) == Get(fields, "airport_hangar_name", Null))
      && (!Truthy(Get(verdict, "country_region", Null)) ==> Get(g, "location", Null) == Get(fields, "location", Null))
  {
  }

  lemma FillIfEmptyIdempotent(fields: Dict, key: string, verdict: Dict, source: string)
    ensures FillIfEmpty(FillIfEmpty(fields, key, verdict, source), key, verdict, source) == FillIfEmpty(fields, key, verdict, source)
  {
  }

  /** Merging the same candidate with the same verdict a second time
      changes nothing. */
  lemma MergeIdempotent(fields: Dict, article: Dict, verdict: Dict)
    requires Merge(fields, article, verdict).Ok?
    ensures Merge(Merge(fields, article, verdict).value, article, verdict) == Merge(fields, article, verdict)
  {
    var u := CandidateUrl(article);
    var g := Merge(fields, article, verdict).value;
    var container := Get(fields, "url", List([]));
    var present := UrlContains(container, u).value;
    var withUrl := if present then fields else fields["url" := List(fields["url"].items + [u])];
    var h := FillIfEmpty(withUrl, "airport_hangar_name", verdict, "airport_hangar_name");
    assert g == FillIfEmpty(h, "location", verdict, "country_region");
    assert Get(g, "url", List([])) == Get(withUrl, "url", List([]));
    if present {
      assert UrlContains(Get(g, "url", List([])), u) == Ok(true);
    } else {
      assert g["url"] == List(fields["url"].items + [u]);
      assert u in g["url"].items;
      assert UrlContains(Get(g, "url", List([])), u) == Ok(true);
    }
    var h2 := FillIfEmpty(g, "airport_hangar_name", verdict, "airport_hangar_name");
    assert Get(h2, "location", Null) == Get(g, "location", Null);
    assert FillIfEmpty(h2, "location", verdict, "country_region") == g;
  }

  /** A candidate with a url is tested and appended as the same value, so
      the merge as written is the merge as intended. */
  lemma MergeAgreesWithUrl(fields: Dict, article: Dict, verdict: Dict)
    requires "url" in article
    ensures MergeAsWritten(fields, article, verdict) == Merge(fields, article, verdict)
  {
  }

  /** For a candidate with a url, merging it a second time with the same
      verdict changes nothing. */
  lemma MergeAsWrittenIdempotent(fields: Dict, article: Dict, verdict: Dict)
    requires "url" in article && MergeAsWritten(fields, article, verdict).Ok?
    ensures MergeAsWritten(MergeAsWritten(fields, article, verdict).value, article, verdict)
         == MergeAsWritten(fields, article, verdict)
  {
    MergeAgreesWithUrl(fields, article, verdict);
    MergeIdempotent(fields, article, verdict);
    MergeAgreesWithUrl(Merge(fields, article, verdict).value, article, verdict);
  }

  /** Errors of the merge as written: a stored record without a url column
      raises KeyError, a text url cannot be searched for a candidate url
      that is not text (a candidate without a url included), and a stored
      url that is neither text nor a list cannot be searched at all. */
  lemma MergeErrors(fields: Dict, article: Dict, verdict: Dict)
    ensures "url" !in fields ==> MergeAsWritten(fields, article, verdict) == Err(KeyError("url"))
    ensures "url" in fields && fields["url"].Str? && !Get(article, "url", Null).Str? ==>
      MergeAsWritten(fields, article, verdict) == Err(TypeError)
    ensures "url" in fields && (fields["url"].Null? || fields["url"].Int? || fields["url"].Bool?) ==>
      MergeAsWritten(fields, article, verdict) == Err(TypeError)
  {
  }

  // ---------------------------------------------------------------------
  // A new record

  /** `value[:10]` for a truthy published date; a falsy one becomes None. */
  function PublishedDay(p: Val): (r: Result<Val, Exc>)
    ensures !Truthy(p) ==> r == Ok(Null)
    ensures Truthy(p) && p.Str? ==> r.Ok? && r.value.Str? && |r.value.s| <= 10 && |r.value.s| <= |p.s|
                                    && p.s[..|r.value.s|] == r.value.s
                                    && (|p.s| >= 10 ==> |r.value.s| == 10) && (|p.s| < 10 ==> r.value.s == p.s)
    ensures Truthy(p) && (p.Int? || p.Bool?) ==> r == Err(TypeError)
  {
    if !Truthy(p) then Ok(Null)
    else match p
      case Str(s) => Ok(Str(if |s| <= 10 then s else s[..10]))
      case List(xs) => Ok(List(if |xs| <= 10 then xs else xs[..10]))
      case _ => Err(TypeError)
  }

  /** The record of lines 43-54 for a candidate judged new. */
  function NewRecord(article: Dict, verdict: Dict, embedding: Embedding, tag: string): Result<Row, Exc>
  {
    match PublishedDay(Get(article, "publishedAt", Null))
    case Err(e) => Err(e)
    case Ok(day) =>
      Ok(Row(map[
        "title" := Get(article, "title", Null),
        "source" := Get(article, "source", Null),
        "publishedAt" := day,
        "location" := Get(verdict, "country_region", Str("")),
        "airport_hangar_name" := Get(verdict, "airport_hangar_name", Str("")),
        "author" := Get(article, "author", Null),
        "url" := List([Get(article, "url", Null)]),
        "content" := Get(article, "content", Null),
        "collectedAt" := Str(tag)], Some(embedding)))
  }

  /** A new record has exactly the nine columns of the source's record: the
      candidate url as a one-element list, the published date cut to its
      first 10 characters (None when empty), the verdict's enrichment
      fields defaulting to "", the batch tag, and the retrieval embedding.
      Only a published date that cannot be sliced makes it fail. */
  lemma NewRecordFields(article: Dict, verdict: Dict, embedding: Embedding, tag: string)
    ensures NewRecord(article, verdict, embedding, tag).Ok? <==> PublishedDay(Get(article, "publishedAt", Null)).Ok?
    ensures NewRecord(article, verdict, embedding, tag).Ok? ==>
      var f := NewRecord(article, verdict, embedding, tag).value.fields;
      && f.Keys == {"title", "source", "publishedAt", "location", "airport_hangar_name", "author", "url", "content", "collectedAt"}
      && f["url"] == List([Get(article, "url", Null)])
      && f["publishedAt"] == PublishedDay(Get(article, "publishedAt", Null)).value
      && f["location"] == Get(verdict, "country_region", Str(""))
      && f["airport_hangar_name"] == Get(verdict, "airport_hangar_name", Str(""))
      && f["collectedAt"] == Str(tag)
      && f["title"] == Get(article, "title", Null)
      && NewRecord(article, verdict, embedding, tag).value.embedding == Some(embedding)
  {
  }

  // ---------------------------------------------------------------------
  // One candidate, and the whole batch

  /** `analysis_result.get("is_valid", False)` */
  predicate Accepted(verdict: Dict)
  {
    Truthy(Get(verdict, "is_valid", Bool(false)))
  }

  /** What one analysed candidate does to the table, given the verdict and
      the retrieval embedding: the new table and the records created (none
      or one). An exception leaves the table as it was. */
  function Act(t: Table, article: Dict, verdict: Dict, embedding: Embedding, tag: string): Result<(Table, seq<Row>), Exc>
    requires WellFormed(t)
  {
    if !Accepted(verdict) then Ok((t, []))
    else if "duplicate_index" !in verdict then Err(KeyError("duplicate_index"))
    else match IndexValue(verdict["duplicate_index"])
      case None => Err(TypeError)
      case Some(d) =>
        if d > 0 then
          if "id" !in verdict then Err(KeyError("id"))
          else if !(verdict["id"].Int? && verdict["id"].i in t.rows) then Err(IndexError)
          else
            var key := verdict["id"].i;
            var stored := t.rows[key];
            match MergeAsWritten(stored.fields, article, verdict)
            case Err(e) => Err(e)
            case Ok(merged) =>
              MergeKeepsOtherFields(stored.fields, article, verdict);
              Ok((UpdateRow(t, key, Row(merged, stored.embedding)), []))
        else
          match NewRecord(article, verdict, embedding, tag)
          case Err(e) => Err(e)
          case Ok(record) => Ok((InsertRow(t, record), [record]))
  }

  /** The analyser as the ingestion calls it: `analyze_article` over the
      run's services, applied to the table as it stands and a candidate. */
  function Analyzer(env: Oracles): (Table, Dict) -> Result<(Dict, Embedding), Exc>
  {
    (t: Table, a: Dict) => AnalyzeArticle(t, a, env.embed, env.rpc, env.llm, env.parse)
  }

  /** One candidate: analysed against the current table, then acted on. */
  function Step(t: Table, article: Dict, tag: string, analyse: (Table, Dict) -> Result<(Dict, Embedding), Exc>)
    : Result<(Table, seq<Row>), Exc>
    requires WellFormed(t)
  {
    match analyse(t, article)
    case Err(e) => Err(e)
    case Ok((verdict, embedding)) => Act(t, article, verdict, embedding, tag)
  }

  /** The result of a run: the final table, the records created, and the
      exception that stopped the run, if any. */
  datatype Outcome = Outcome(table: Table, created: seq<Row>, error: Option<Exc>)

  function Prepend(rs: seq<Row>, o: Outcome): Outcome
  {
    Outcome(o.table, rs + o.created, o.error)
  }

  /** The candidates processed in order; the first exception stops the
      run with the table as the earlier candidates left it. */
  function Ingest(t: Table, articles: seq<Dict>, tag: string, analyse: (Table, Dict) -> Result<(Dict, Embedding), Exc>): (o: Outcome)
    requires WellFormed(t)
    ensures WellFormed(o.table)
    decreases |articles|
  {
    if articles == [] then Outcome(t, [], None)
    else match Step(t, articles[0], tag, analyse)
      case Err(e) => Outcome(t, [], Some(e))
      case Ok((u, created)) => Prepend(created, Ingest(u, articles[1..], tag, analyse))
  }

  /** A rejected verdict (`is_valid` false or absent) leaves the table as it
      was and creates nothing. */
  lemma RejectChangesNothing(t: Table, article: Dict, verdict: Dict, embedding: Embedding, tag: string)
    requires WellFormed(t) && !Accepted(verdict)
    ensures Act(t, article, verdict, embedding, tag) == Ok((t, []))
  {
  }

  /** A positive duplicate index routes to the merge: the stored record
      under the verdict's id is replaced by the merge, its embedding kept,
      and nothing is created. */
  lemma PositiveIndexMerges(t: Table, article: Dict, verdict: Dict, embedding: Embedding, tag: string)
    requires WellFormed(t) && Accepted(verdict) && "duplicate_index" in verdict
    requires IndexValue(verdict["duplicate_index"]).Some? && IndexValue(verdict["duplicate_index"]).value > 0
    ensures Act(t, article, verdict, embedding, tag).Ok? ==>
      var s := Act(t, article, verdict, embedding, tag).value;
      && s.1 == []
      && "id" in verdict && verdict["id"].Int? && verdict["id"].i in t.rows
      && s.0.rows.Keys == t.rows.Keys && s.0.nextId == t.nextId
      && var stored := t.rows[verdict["id"].i];
      && MergeAsWritten(stored.fields, article, verdict).Ok?
      && s.0.rows[verdict["id"].i] == Row(MergeAsWritten(stored.fields, article, verdict).value, stored.embedding)
      && (forall id :: id in t.rows && id != verdict["id"].i ==> s.0.rows[id] == t.rows[id])
  {
  }

  /** A zero or negative duplicate index routes to an insert of the new
      record, which carries the batch tag and the retrieval embedding. */
  lemma OtherIndexInserts(t: Table, article: Dict, verdict: Dict, embedding: Embedding, tag: string)
    requires WellFormed(t) && Accepted(verdict) && "duplicate_index" in verdict
    requires IndexValue(verdict["duplicate_index"]).Some? && IndexValue(verdict["duplicate_index"]).value <= 0
    ensures Act(t, article, verdict, embedding, tag).Ok? ==>
      var s := Act(t, article, verdict, embedding, tag).value;
      && NewRecord(article, verdict, embedding, tag).Ok?
      && s.1 == [NewRecord(article, verdict, embedding, tag).value]
      && s.0 == InsertRow(t, s.1[0])
      && s.1[0].fields["collectedAt"] == Str(tag)
      && s.1[0].embedding == Some(embedding)
  {
    NewRecordFields(article, verdict, embedding, tag);
  }

  lemma ActShape(t: Table, article: Dict, verdict: Dict, embedding: Embedding, tag: string)
    requires WellFormed(t)
    ensures Act(t, article, verdict, embedding, tag).Ok? ==>
      var s := Act(t, article, verdict, embedding, tag).value;
      && |s.1| <= 1
      && (s.1 == [] ==> s.0.rows.Keys == t.rows.Keys && s.0.nextId == t.nextId)
      && (s.1 != [] ==> s.0 == InsertRow(t, s.1[0]) && "collectedAt" in s.1[0].fields && s.1[0].fields["collectedAt"] == Str(tag))
  {
    NewRecordFields(article, verdict, embedding, tag);
  }

  /** One candidate either leaves the identifiers as they were and creates
      nothing, or inserts exactly the one tagged record it creates. */
  lemma StepShape(t: Table, article: Dict, tag: string, analyse: (Table, Dict) -> Result<(Dict, Embedding), Exc>)
    requires WellFormed(t)
    ensures Step(t, article, tag, analyse).Ok? ==>
      var s := Step(t, article, tag, analyse).value;
      && |s.1| <= 1
      && (s.1 == [] ==> s.0.rows.Keys == t.rows.Keys && s.0.nextId == t.nextId)
      && (s.1 != [] ==> s.0 == InsertRow(t, s.1[0]) && "collectedAt" in s.1[0].fields && s.1[0].fields["collectedAt"] == Str(tag))
  {
    var a := analyse(t, article);
    if a.Ok? {
      ActShape(t, article, a.value.0, a.value.1, tag);
    }
  }

  /** A run advances the identifier counter by one per returned record and
      adds exactly the identifiers it skipped over. */
  lemma {:induction false} IngestIds(t: Table, articles: seq<Dict>, tag: string,
                                     analyse: (Table, Dict) -> Result<(Dict, Embedding), Exc>)
    requires WellFormed(t)
    ensures var o := Ingest(t, articles, tag, analyse);
      && o.table.nextId == t.nextId + |o.created|
      && (forall id :: id in o.table.rows <==> id in t.rows || t.nextId <= id < t.nextId + |o.created|)
    decreases |articles|
  {
    if articles != [] {
      StepShape(t, articles[0], tag, analyse);
      match Step(t, articles[0], tag, analyse)
      case Err(e) =>
      case Ok((u, created)) =>
        IngestIds(u, articles[1..], tag, analyse);
        assert Ingest(t, articles, tag, analyse) == Prepend(created, Ingest(u, articles[1..], tag, analyse));
        if created != [] {
          assert u.nextId == t.nextId + 1;
          assert forall id :: id in u.rows <==> id in t.rows || id == t.nextId;
        }
    }
  }

  /** A run grows the table by one row per returned record. */
  lemma {:induction false} IngestSize(t: Table, articles: seq<Dict>, tag: string,
                                      analyse: (Table, Dict) -> Result<(Dict, Embedding), Exc>)
    requires WellFormed(t)
    ensures var o := Ingest(t, articles, tag, analyse);
      |o.table.rows| == |t.rows| + |o.created|
    decreases |articles|
  {
    if articles != [] {
      StepShape(t, articles[0], tag, analyse);
      match Step(t, articles[0], tag, analyse)
      case Err(e) =>
      case Ok((u, created)) =>
        IngestSize(u, articles[1..], tag, analyse);
        assert Ingest(t, articles, tag, analyse) == Prepend(created, Ingest(u, articles[1..], tag, analyse));
        if created == [] {
          assert |u.rows| == |u.rows.Keys| == |t.rows.Keys| == |t.rows|;
        }
    }
  }

  /** Every record a run returns carries the batch tag. */
  lemma {:induction false} IngestTagged(t: Table, articles: seq<Dict>, tag: string,
                                        analyse: (Table, Dict) -> Result<(Dict, Embedding), Exc>)
    requires WellFormed(t)
    ensures var o := Ingest(t, articles, tag, analyse);
      forall r :: r in o.created ==> "collectedAt" in r.fields && r.fields["collectedAt"] == Str(tag)
    decreases |articles|
  {
    if articles != [] {
      StepShape(t, articles[0], tag, analyse);
      match Step(t, articles[0], tag, analyse)
      case Err(e) =>
      case Ok((u, created)) =>
        IngestTagged(u, articles[1..], tag, analyse);
        assert Ingest(t, articles, tag, analyse) == Prepend(created, Ingest(u, articles[1..], tag, analyse));
    }
  }

  /** The fields a merge may rewrite. */
  predicate MergeMayChange(key: string)
  {
    key == "url" || key == "airport_hangar_name" || key == "location"
  }

  /** `a` is `b` up to what a merge may rewrite: the same embedding, and
      the same value (or the same absence) in every other field. */
  ghost predicate SameUpToMerge(a: Row, b: Row)
  {
    && a.embedding == b.embedding
    && forall key :: !MergeMayChange(key) ==>
         (key in a.fields <==> key in b.fields) && (key in a.fields ==> a.fields[key] == b.fields[key])
  }

  /** Every row of `t` is still in `u`, changed at most in the fields a
      merge may rewrite. */
  ghost predicate KeepsRows(t: Table, u: Table)
  {
    forall id :: id in t.rows ==> id in u.rows && SameUpToMerge(u.rows[id], t.rows[id])
  }

  /** The k-th created record of `o` sits under identifier `first + k`, up
      to what a merge may rewrite. */
  ghost predicate StoresCreated(first: int, o: Outcome)
  {
    forall k :: 0 <= k < |o.created| ==> StoredAt(first, o, k)
  }

  ghost predicate StoredAt(first: int, o: Outcome, k: int)
    requires 0 <= k < |o.created|
  {
    first + k in o.table.rows && SameUpToMerge(o.table.rows[first + k], WithId(o.created[k], first + k))
  }

  /** One acted-on verdict keeps every stored identifier, and each stored
      row changes at most in the fields a merge may rewrite. */
  lemma ActKeepsRows(t: Table, article: Dict, verdict: Dict, embedding: Embedding, tag: string)
    requires WellFormed(t)
    ensures Act(t, article, verdict, embedding, tag).Ok? ==>
      KeepsRows(t, Act(t, article, verdict, embedding, tag).value.0)
  {
    if Act(t, article, verdict, embedding, tag).Ok? && Accepted(verdict) {
      var d := IndexValue(verdict["duplicate_index"]).value;
      if d > 0 {
        var key := verdict["id"].i;
        var stored := t.rows[key];
        MergeKeepsOtherFields(stored.fields, article, verdict);
      }
    }
  }

  lemma KeepsRowsTrans(t: Table, u: Table, v: Table)
    requires KeepsRows(t, u) && KeepsRows(u, v)
    ensures KeepsRows(t, v)
  {
    forall id | id in t.rows
      ensures id in v.rows && SameUpToMerge(v.rows[id], t.rows[id])
    {
      assert SameUpToMerge(u.rows[id], t.rows[id]);
      assert SameUpToMerge(v.rows[id], u.rows[id]);
    }
  }

  /** A run keeps every identifier the table held, and each of those rows
      changes at most in the fields a merge may rewrite. */
  lemma {:induction false} IngestKeepsRows(t: Table, articles: seq<Dict>, tag: string,
                                           analyse: (Table, Dict) -> Result<(Dict, Embedding), Exc>)
    requires WellFormed(t)
    ensures KeepsRows(t, Ingest(t, articles, tag, analyse).table)
    decreases |articles|
  {
    if articles != [] {
      match analyse(t, articles[0])
      case Err(e) =>
      case Ok((verdict, embedding)) =>
        ActKeepsRows(t, articles[0], verdict, embedding, tag);
        match Step(t, articles[0], tag, analyse)
        case Err(e) =>
        case Ok((u, created)) =>
          IngestKeepsRows(u, articles[1..], tag, analyse);
          assert Ingest(t, articles, tag, analyse).table == Ingest(u, articles[1..], tag, analyse).table;
          KeepsRowsTrans(t, u, Ingest(u, articles[1..], tag, analyse).table);
    }
  }

  /** Inserting `r` under `t`'s next identifier, then running on, places
      `r` first among the created records. */
  lemma StoresCreatedAfterInsert(t: Table, u: Table, r: Row, rest: Outcome)
    requires u.nextId == t.nextId + 1 && t.nextId in u.rows && u.rows[t.nextId] == WithId(r, t.nextId)
    requires StoresCreated(u.nextId, rest) && KeepsRows(u, rest.table)
    ensures StoresCreated(t.nextId, Prepend([r], rest))
  {
    var o := Prepend([r], rest);
    forall k | 0 <= k < |o.created|
      ensures StoredAt(t.nextId, o, k)
    {
      if k == 0 {
        assert o.created[0] == r && o.table == rest.table;
        assert SameUpToMerge(rest.table.rows[t.nextId], u.rows[t.nextId]);
      } else {
        assert StoredAt(u.nextId, rest, k - 1);
        assert o.created[k] == rest.created[k - 1];
        assert t.nextId + k == u.nextId + (k - 1);
      }
    }
  }

  /** The k-th record a run returns is the one stored under identifier
      `nextId + k`, up to what a later merge into it may rewrite. */
  lemma {:induction false} IngestStoresCreated(t: Table, articles: seq<Dict>, tag: string,
                                               analyse: (Table, Dict) -> Result<(Dict, Embedding), Exc>)
    requires WellFormed(t)
    ensures StoresCreated(t.nextId, Ingest(t, articles, tag, analyse))
    decreases |articles|
  {
    if articles != [] {
      StepShape(t, articles[0], tag, analyse);
      match Step(t, articles[0], tag, analyse)
      case Err(e) =>
      case Ok((u, created)) =>
        IngestStoresCreated(u, articles[1..], tag, analyse);
        var rest := Ingest(u, articles[1..], tag, analyse);
        assert Ingest(t, articles, tag, analyse) == Prepend(created, rest);
        if created == [] {
          assert Prepend(created, rest) == rest;
        } else {
          IngestKeepsRows(u, articles[1..], tag, analyse);
          assert created == [created[0]];
          StoresCreatedAfterInsert(t, u, created[0], rest);
        }
    }
  }

  /** The records a run returns are the ones it inserted, in input order:
      the k-th sits under identifier `nextId + k` (up to a later merge into
      it), the table gains exactly those identifiers and keeps every
      earlier one, and each record carries the batch tag. */
  lemma IngestCreatesExactly(t: Table, articles: seq<Dict>, tag: string,
                             analyse: (Table, Dict) -> Result<(Dict, Embedding), Exc>)
    requires WellFormed(t)
    ensures var o := Ingest(t, articles, tag, analyse);
      && o.table.nextId == t.nextId + |o.created|
      && (forall id :: id in o.table.rows <==> id in t.rows || t.nextId <= id < t.nextId + |o.created|)
      && |o.table.rows| == |t.rows| + |o.created|
      && (forall r :: r in o.created ==> "collectedAt" in r.fields && r.fields["collectedAt"] == Str(tag))
      && StoresCreated(t.nextId, o)
      && KeepsRows(t, o.table)
  {
    IngestIds(t, articles, tag, analyse);
    IngestSize(t, articles, tag, analyse);
    IngestTagged(t, articles, tag, analyse);
    IngestStoresCreated(t, articles, tag, analyse);
    IngestKeepsRows(t, articles, tag, analyse);
  }

  /** The run on a non-empty list is its first step followed by the run
      on the rest, or stops at that step's exception. */
  lemma IngestFirst(t: Table, articles: seq<Dict>, tag: string, analyse: (Table, Dict) -> Result<(Dict, Embedding), Exc>)
    requires WellFormed(t) && articles != []
    ensures var s := Step(t, articles[0], tag, analyse);
      && (s.Err? ==> Ingest(t, articles, tag, analyse) == Outcome(t, [], Some(s.error)))
      && (s.Ok? ==> WellFormed(s.value.0)
                    && Ingest(t, articles, tag, analyse) == Prepend(s.value.1, Ingest(s.value.0, articles[1..], tag, analyse)))
  {
    StepShape(t, articles[0], tag, analyse);
  }

  /** `article_upload`: the batch tag, then the loop of lines 30-57 with
      the analyser over the run's services. */
  method ArticleUpload(db: ArticleTable, articles: seq<Dict>, isBackfill: bool, isoWeek: string, env: Oracles)
    returns (result: Result<seq<Row>, Exc>)
    requires db.Valid()
    modifies db
    ensures db.Valid()
    ensures var o := Ingest(old(db.Snapshot()), articles, BatchTag(isBackfill, isoWeek), Analyzer(env));
      && db.Snapshot() == o.table
      && (o.error.None? ==> result == Ok(o.created))
      && (o.error.Some? ==> result == Err(o.error.value))
  {
    result := UploadLoop(db, articles, BatchTag(isBackfill, isoWeek), Analyzer(env));
  }

  /** The loop of lines 30-57 over a shared table. The returned list is the
      records created; an exception is passed on after the earlier
      candidates have taken effect. */
  method UploadLoop(db: ArticleTable, articles: seq<Dict>, tag: string,
                    analyse: (Table, Dict) -> Result<(Dict, Embedding), Exc>)
    returns (result: Result<seq<Row>, Exc>)
    requires db.Valid()
    modifies db
    ensures db.Valid()
    ensures var o := Ingest(old(db.Snapshot()), articles, tag, analyse);
      && db.Snapshot() == o.table
      && (o.error.None? ==> result == Ok(o.created))
      && (o.error.Some? ==> result == Err(o.error.value))
  {
    ghost var t0 := db.Snapshot();
    var created: seq<Row> := [];
    for i := 0 to |articles|
      invariant db.Valid()
      invariant Ingest(t0, articles, tag, analyse) == Prepend(created, Ingest(db.Snapshot(), articles[i..], tag, analyse))
    {
      ghost var before := db.Snapshot();
      IngestFirst(before, articles[i..], tag, analyse);
      assert articles[i..][0] == articles[i] && articles[i..][1..] == articles[i + 1..];
      var outcome := ProcessOne(db, articles[i], tag, analyse);
      if outcome.Err? {
        return Err(outcome.error);
      }
      assert Ingest(before, articles[i..], tag, analyse)
          == Prepend(outcome.value, Ingest(db.Snapshot(), articles[i + 1..], tag, analyse));
      created := created + outcome.value;
    }
    assert articles[|articles|..] == [];
    assert Ingest(db.Snapshot(), [], tag, analyse) == Outcome(db.Snapshot(), [], None);
    assert created + [] == created;
    result := Ok(created);
  }

  /** The body of the loop for one candidate, on the shared table. */
  method ProcessOne(db: ArticleTable, article: Dict, tag: string, analyse: (Table, Dict) -> Result<(Dict, Embedding), Exc>)
    returns (r: Result<seq<Row>, Exc>)
    requires db.Valid()
    modifies db
    ensures db.Valid()
    ensures var s := Step(old(db.Snapshot()), article, tag, analyse);
      && (s.Err? ==> r == Err(s.error) && db.Snapshot() == old(db.Snapshot()))
      && (s.Ok? ==> r == Ok(s.value.1) && db.Snapshot() == s.value.0)
  {
    var analysis := analyse(db.Snapshot(), article);
    if analysis.Err? {
      return Err(analysis.error);
    }
    var (verdict, embedding) := analysis.value;
    if !Accepted(verdict) {
      return Ok([]);
    }
    if "duplicate_index" !in verdict {
      return Err(KeyError("duplicate_index"));
    }
    var d := IndexValue(verdict["duplicate_index"]);
    if d.None? {
      return Err(TypeError);
    }
    if d.value > 0 {
      if "id" !in verdict {
        return Err(KeyError("id"));
      }
      var found := db.SelectById(verdict["id"]);
      if found == [] {
        return Err(IndexError);
      }
      var original := found[0].fields;
      var fields := original;
      var contains := UrlContains(Get(fields, "url", List([])), Get(article, "url", Null));
      if contains.Err? {
        return Err(contains.error);
      }
      if !contains.value {
        if "url" !in fields {
          return Err(KeyError("url"));
        }
        if !fields["url"].List? {
          return Err(AttributeError);
        }
        fields := fields["url" := List(fields["url"].items + [Get(article, "url", Str(""))])];
      }
      if Truthy(Get(verdict, "airport_hangar_name", Null)) && !Truthy(Get(fields, "airport_hangar_name", Null)) {
        fields := fields["airport_hangar_name" := verdict["airport_hangar_name"]];
      }
      if Truthy(Get(verdict, "country_region", Null)) && !Truthy(Get(fields, "location", Null)) {
        fields := fields["location" := verdict["country_region"]];
      }
      assert MergeAsWritten(original, article, verdict) == Ok(fields);
      MergeKeepsOtherFields(original, article, verdict);
      db.UpdateById(verdict["id"].i, Row(fields, found[0].embedding));
      r := Ok([]);
    } else {
      var record := NewRecord(article, verdict, embedding, tag);
      if record.Err? {
        return Err(record.error);
      }
      var _ := db.Insert(record.value);
      r := Ok([record.value]);
    }
  }
}
