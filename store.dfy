// The `articles` table of the vector store and the operations of
// src/db/__init__.py over it: bulk delete, archive import, the report
// query and the similarity lookup.

module Store {
  import opened Wrappers
  import opened PyValues

  /** A stored row: its JSON / text columns, and its embedding column. */
  datatype Row = Row(fields: Dict, embedding: Option<Embedding>)

  /** The contents of the table and the next identifier the store's serial
      column will hand out. */
  datatype Table = Table(rows: map<int, Row>, nextId: int)

  /** Every row sits under the identifier held in its own `id` column, and
      identifiers come from the serial counter, which starts at 1. */
  predicate WellFormed(t: Table)
  {
    && 1 <= t.nextId
    && forall id :: id in t.rows ==> 1 <= id < t.nextId && Get(t.rows[id].fields, "id", Null) == Int(id)
  }

  /** The row as stored under identifier `id`. */
  function WithId(r: Row, id: int): Row
  {
    Row(r.fields["id" := Int(id)], r.embedding)
  }

  /** Inserting a row: the store assigns it the next serial identifier. */
  function InsertRow(t: Table, r: Row): (u: Table)
    requires WellFormed(t)
    ensures WellFormed(u)
    ensures u.nextId == t.nextId + 1 && t.nextId !in t.rows
    ensures u.rows == t.rows[t.nextId := WithId(r, t.nextId)]
    ensures |u.rows| == |t.rows| + 1
  {
    Table(t.rows[t.nextId := WithId(r, t.nextId)], t.nextId + 1)
  }

  /** Inserting rows one after the other, in order. */
  function InsertAll(t: Table, rs: seq<Row>): (u: Table)
    requires WellFormed(t)
    ensures WellFormed(u) && u.nextId == t.nextId + |rs|
  {
    if rs == [] then t else InsertRow(InsertAll(t, rs[..|rs| - 1]), rs[|rs| - 1])
  }

  lemma {:induction false} InsertAllKeys(t: Table, rs: seq<Row>)
    requires WellFormed(t)
    ensures forall id :: id in InsertAll(t, rs).rows <==> id in t.rows || t.nextId <= id < t.nextId + |rs|
  {
    if rs != [] {
      InsertAllKeys(t, rs[..|rs| - 1]);
    }
  }

  /** Rows already in `t` keep their identifiers and values in `u`. */
  predicate KeepsRows(t: Table, u: Table)
  {
    forall id :: id in t.rows ==> id in u.rows && u.rows[id] == t.rows[id]
  }

  /** The k-th of `rs` sits in `u` under identifier `t.nextId + k`. */
  predicate PlacesRows(t: Table, rs: seq<Row>, u: Table)
  {
    forall k :: 0 <= k < |rs| ==> Placed(u, t.nextId + k, rs[k])
  }

  /** Row `r` is stored in `u` under identifier `id`. */
  predicate Placed(u: Table, id: int, r: Row)
  {
    id in u.rows && u.rows[id] == WithId(r, id)
  }

  lemma {:induction false} InsertAllKeeps(t: Table, rs: seq<Row>)
    requires WellFormed(t)
    ensures KeepsRows(t, InsertAll(t, rs))
  {
    if rs != [] {
      var before := InsertAll(t, rs[..|rs| - 1]);
      InsertAllKeeps(t, rs[..|rs| - 1]);
      forall id | id in t.rows
        ensures id in InsertAll(t, rs).rows && InsertAll(t, rs).rows[id] == t.rows[id]
      {
        assert id < t.nextId <= before.nextId;
      }
    }
  }

  lemma {:induction false} InsertAllPlaces(t: Table, rs: seq<Row>)
    requires WellFormed(t)
    ensures PlacesRows(t, rs, InsertAll(t, rs))
  {
    if rs != [] {
      var n := |rs| - 1;
      var prefix := rs[..n];
      InsertAllPlaces(t, prefix);
      var before := InsertAll(t, prefix);
      var after := InsertAll(t, rs);
      assert after.rows == before.rows[before.nextId := WithId(rs[n], before.nextId)];
      assert before.nextId == t.nextId + n;
      forall k | 0 <= k < |rs|
        ensures Placed(after, t.nextId + k, rs[k])
      {
        if k < n {
          assert prefix[k] == rs[k];
          assert Placed(before, t.nextId + k, prefix[k]);
        }
      }
    }
  }

  lemma {:induction false} InsertAllSize(t: Table, rs: seq<Row>)
    requires WellFormed(t)
    ensures |InsertAll(t, rs).rows| == |t.rows| + |rs|
  {
    if rs != [] {
      InsertAllSize(t, rs[..|rs| - 1]);
    }
  }

  /** The k-th inserted row gets identifier `t.nextId + k`; nothing already
      stored changes; the table grows by exactly the number of rows. */
  lemma InsertAllShape(t: Table, rs: seq<Row>)
    requires WellFormed(t)
    ensures var u := InsertAll(t, rs);
      && WellFormed(u)
      && u.nextId == t.nextId + |rs|
      && |u.rows| == |t.rows| + |rs|
      && (forall id :: id in u.rows <==> id in t.rows || t.nextId <= id < t.nextId + |rs|)
      && KeepsRows(t, u)
      && PlacesRows(t, rs, u)
  {
    InsertAllKeys(t, rs);
    InsertAllKeeps(t, rs);
    InsertAllPlaces(t, rs);
    InsertAllSize(t, rs);
  }

  /** Replacing the row stored under `key` by `r`, which carries the same
      identifier: no row appears or disappears. */
  function UpdateRow(t: Table, key: int, r: Row): (u: Table)
    requires WellFormed(t) && key in t.rows && Get(r.fields, "id", Null) == Int(key)
    ensures WellFormed(u) && u.nextId == t.nextId
    ensures u.rows.Keys == t.rows.Keys && |u.rows| == |t.rows|
    ensures u.rows[key] == r && forall id :: id in t.rows && id != key ==> u.rows[id] == t.rows[id]
  {
    assert t.rows[key := r].Keys == t.rows.Keys;
    Table(t.rows[key := r], t.nextId)
  }

  /** `delete().gte("id", 0)`: the rows that survive are those with a
      negative identifier. */
  function KeepNegativeIds(rows: map<int, Row>): (r: map<int, Row>)
    ensures forall id :: id in r <==> id in rows && id < 0
    ensures forall id :: id in r ==> r[id] == rows[id]
  {
    map id | id in rows && id < 0 :: rows[id]
  }

  /** In a well-formed table every identifier is positive, so the bulk delete
      empties it. */
  lemma CleanEmptiesTable(t: Table)
    requires WellFormed(t)
    ensures KeepNegativeIds(t.rows) == map[]
  {
    assert KeepNegativeIds(t.rows).Keys == {};
  }

  /** The filter of the report query: `neq('collectedAt', 'doc')` is an SQL
      comparison, so a row whose tag is NULL is not returned either. */
  predicate IsReportRow(r: Row)
  {
    var tag := Get(r.fields, "collectedAt", Null);
    tag != Null && tag != Str("doc")
  }

  /** The rows with identifiers in [lo, hi) that pass the report filter, in
      identifier order. */
  function ReportRows(rows: map<int, Row>, lo: int, hi: int): seq<Row>
    decreases hi - lo
  {
    if hi <= lo then []
    else if hi - 1 in rows && IsReportRow(rows[hi - 1]) then ReportRows(rows, lo, hi - 1) + [rows[hi - 1]]
    else ReportRows(rows, lo, hi - 1)
  }

  /** A row is listed by the report query exactly when it is stored under an
      identifier in range and is not tagged "doc" (nor untagged). */
  lemma {:induction false} ReportRowsExact(rows: map<int, Row>, lo: int, hi: int, r: Row)
    ensures r in ReportRows(rows, lo, hi) <==> exists id :: lo <= id < hi && id in rows && rows[id] == r && IsReportRow(r)
    decreases hi - lo
  {
    if hi > lo {
      ReportRowsExact(rows, lo, hi - 1, r);
      if r in ReportRows(rows, lo, hi) && !(r in ReportRows(rows, lo, hi - 1)) {
        assert rows[hi - 1] == r;
      }
    }
  }

  /** What the store-side similarity function `match_articles` answers:
      its rows (as dictionaries) and its error field. The ranking itself
      is the store's. */
  datatype RpcReply = RpcReply(data: seq<Dict>, error: Val)

  /** What `get_similar_articles` returns when it does not raise: the pair
      (rows, embedding), or a bare empty list. */
  datatype Similar = Neighbours(rows: seq<Dict>, embedding: Embedding) | BareEmpty

  /** `get_similar_articles(query, limit)`: the query is embedded, the store
      is asked for `limit` neighbours; non-empty data comes back paired with
      the query embedding, an error with no data raises, and no data and no
      error returns a bare empty list. */
  function SimilarArticles(t: Table, query: string, limit: int, embed: string -> Embedding,
                           rpc: (Table, Embedding, int) -> RpcReply): (r: Result<Similar, Exc>)
    ensures r.Ok? && r.value.Neighbours? ==>
      r.value.rows == rpc(t, embed(query), limit).data && r.value.rows != [] && r.value.embedding == embed(query)
    ensures r.Err? <==> rpc(t, embed(query), limit).data == [] && Truthy(rpc(t, embed(query), limit).error)
    ensures r == Ok(BareEmpty) <==> rpc(t, embed(query), limit).data == [] && !Truthy(rpc(t, embed(query), limit).error)
  {
    var emb := embed(query);
    var reply := rpc(t, emb, limit);
    if reply.data != [] then Ok(Neighbours(reply.data, emb))
    else if Truthy(reply.error) then Err(StoreError(Show(reply.error)))
    else Ok(BareEmpty)
  }

  // ---------------------------------------------------------------------
  // Import of the historical archive

  /** The parsed archive file: a JSON list of article objects, or anything
      else. */
  datatype JsonFile = ListOf(articles: seq<Dict>) | NotAList

  /** What the client's insert call hands back: its response object, or a
      plain dictionary with `error` and optional `data` entries. */
  datatype InsertReply = ResponseObject | DictReply(error: Val, data: Option<seq<Dict>>)

  /** The text the archive import embeds: Title / Location / Published At /
      Content, newline-joined and stripped. */
  function DocCombinedText(a: Dict): string
  {
    Strip("Title: " + Show(Get(a, "title", Str(""))) + "\nLocation: " + Show(Get(a, "location", Str("")))
          + "\nPublished At: " + Show(Get(a, "publishedAt", Str("")))
          + "\nContent: " + Show(Get(a, "content", Str(""))))
  }

  /** The embedded text always starts with "Title:", so the import's
      emptiness guard can never fire: an all-empty article is embedded
      too. */
  lemma DocTextNeverEmpty(a: Dict)
    ensures StartsWith(DocCombinedText(a), "Title:")
    ensures DocCombinedText(a) != ""
  {
    var s := "Title: " + Show(Get(a, "title", Str(""))) + "\nLocation: " + Show(Get(a, "location", Str("")))
             + "\nPublished At: " + Show(Get(a, "publishedAt", Str("")))
             + "\nContent: " + Show(Get(a, "content", Str("")));
    assert s[..6] == "Title:";
    assert !IsSpace(s[0]) && !IsSpace(s[5]);
    var t := TrimStart(s);
    assert t == s;
    var r := TrimEnd(t);
    assert |r| > 5;
    assert r[..6] == s[..6];
  }

  /** The fields of one archive article as the import stores them: the
      tag "doc" added and a text url wrapped into a one-element list. */
  function DocFields(a: Dict): (f: Dict)
    ensures "collectedAt" in f && f["collectedAt"] == Str("doc")
    ensures Get(a, "url", Null).Str? ==> Get(f, "url", Null) == List([Get(a, "url", Null)])
    ensures !Get(a, "url", Null).Str? ==> Get(f, "url", Null) == Get(a, "url", Null)
  {
    var f := (a - {"embedding"})["collectedAt" := Str("doc")];
    var url := Get(a, "url", Null);
    if url.Str? then f["url" := List([url])] else f
  }

  /** The stored fields keep every other field of the archive entry and
      add no field except the tag. */
  lemma DocFieldsKeep(a: Dict)
    ensures forall k :: k in a && k != "collectedAt" && k != "url" && k != "embedding" ==>
      k in DocFields(a) && DocFields(a)[k] == a[k]
    ensures forall k :: k in DocFields(a) ==> k in a || k == "collectedAt"
  {
  }

  /** The embedding the import computes for an archive article: the
      embedding of its combined text. */
  function DocEmbedding(embed: string -> Embedding): Dict -> Embedding
  {
    a => embed(DocCombinedText(a))
  }

  /** One archive article as the import stores it, with the embedding
      `embedOf` gives it. */
  function DocRecord(a: Dict, embedOf: Dict -> Embedding): Row
  {
    Row(DocFields(a), Some(embedOf(a)))
  }

  function DocRecords(articles: seq<Dict>, embedOf: Dict -> Embedding): (rs: seq<Row>)
    ensures |rs| == |articles| && forall k :: 0 <= k < |articles| ==> rs[k] == DocRecord(articles[k], embedOf)
  {
    seq(|articles|, k requires 0 <= k < |articles| => DocRecord(articles[k], embedOf))
  }

  /** The loop of `doc_upload` over the archive: each article is
      normalised in turn. */
  method PrepareDocs(articles: seq<Dict>, embedOf: Dict -> Embedding) returns (prepared: seq<Row>)
    ensures prepared == DocRecords(articles, embedOf)
  {
    prepared := [];
    for i := 0 to |articles|
      invariant |prepared| == i
      invariant forall k :: 0 <= k < i ==> prepared[k] == DocRecord(articles[k], embedOf)
    {
      prepared := prepared + [DocRecord(articles[i], embedOf)];
    }
  }

  /** The value `doc_upload` returns for the insert reply. */
  function InsertResult(reply: InsertReply): Result<seq<Dict>, Exc>
  {
    match reply
    case ResponseObject => Ok([])
    case DictReply(error, data) =>
      if Truthy(error) then Err(StoreError(Show(error)))
      else match data
        case Some(rows) => Ok(rows)
        case None => Ok([])
  }

  /** The `articles` table, the store's shared mutable state. */
  class ArticleTable {
    var rows: map<int, Row>
    var nextId: int

    function Snapshot(): Table
      reads this
    {
      Table(rows, nextId)
    }

    predicate Valid()
      reads this
    {
      WellFormed(Snapshot())
    }

    constructor ()
      ensures Valid() && rows == map[]
    {
      rows := map[];
      nextId := 1;
    }

    /** `insert(record)`: returns the identifier the store assigned. */
    method Insert(r: Row) returns (id: int)
      requires Valid()
      modifies this
      ensures Valid()
      ensures id == old(nextId) && id !in old(rows)
      ensures Snapshot() == InsertRow(old(Snapshot()), r)
    {
      id := nextId;
      rows := rows[id := WithId(r, id)];
      nextId := nextId + 1;
    }

    /** Inserts the rows in order, as one batch. */
    method InsertBatch(rs: seq<Row>)
      requires Valid()
      modifies this
      ensures Valid()
      ensures Snapshot() == InsertAll(old(Snapshot()), rs)
    {
      ghost var t0 := Snapshot();
      for i := 0 to |rs|
        invariant Valid()
        invariant Snapshot() == InsertAll(t0, rs[..i])
      {
        assert rs[..i + 1][..i] == rs[..i];
        var _ := Insert(rs[i]);
      }
      assert rs[..|rs|] == rs;
    }

    /** `select('*').eq('id', key)`: the matching rows. */
    method SelectById(key: Val) returns (found: seq<Row>)
      requires Valid()
      ensures key.Int? && key.i in rows ==> found == [rows[key.i]]
      ensures !(key.Int? && key.i in rows) ==> found == []
    {
      if key.Int? && key.i in rows {
        found := [rows[key.i]];
      } else {
        found := [];
      }
    }

    /** `update(record).eq('id', key)`: the row with that identifier is
        replaced; the record carries the identifier it was read with. */
    method UpdateById(key: int, r: Row)
      requires Valid() && key in rows && Get(r.fields, "id", Null) == Int(key)
      modifies this
      ensures Valid()
      ensures Snapshot() == UpdateRow(old(Snapshot()), key, r)
    {
      rows := rows[key := r];
    }

    /** `clean_database`: deletes every row whose identifier is at least 0,
        which in a well-formed table is every row. */
    method CleanDatabase()
      requires Valid()
      modifies this
      ensures Valid()
      ensures rows == KeepNegativeIds(old(rows)) && rows == map[]
      ensures nextId == old(nextId)
    {
      CleanEmptiesTable(Snapshot());
      rows := KeepNegativeIds(rows);
    }

    /** `get_articles`: every row not tagged "doc", in identifier order. */
    method GetArticles() returns (result: seq<Row>)
      requires Valid()
      ensures result == ReportRows(rows, 1, nextId)
      ensures forall r :: r in result <==> exists id :: id in rows && rows[id] == r && IsReportRow(r)
    {
      result := [];
      var id := 1;
      while id < nextId
        invariant 1 <= id <= nextId
        invariant result == ReportRows(rows, 1, id)
      {
        if id in rows && IsReportRow(rows[id]) {
          result := result + [rows[id]];
        }
        id := id + 1;
      }
      forall r
        ensures r in result <==> exists id :: id in rows && rows[id] == r && IsReportRow(r)
      {
        ReportRowsExact(rows, 1, nextId, r);
      }
    }

    /** `doc_upload`: a file that is not a JSON list raises ValueError before
        anything is embedded or stored; otherwise every article is
        normalised (see DocRecord) and the whole batch is inserted in
        order. A reply carrying an error means the store rejected the
        batch: the table is left as it was and the error is raised. The
        source's guard against an empty combined text never fires
        (DocTextNeverEmpty), so it has no branch here. */
    method DocUpload(file: JsonFile, embed: string -> Embedding, reply: InsertReply)
      returns (result: Result<seq<Dict>, Exc>)
      requires Valid()
      modifies this
      ensures Valid()
      ensures file.NotAList? ==> result == Err(ValueError) && Snapshot() == old(Snapshot())
      ensures file.ListOf? ==> result == InsertResult(reply)
      ensures file.ListOf? && result.Err? ==> Snapshot() == old(Snapshot())
      ensures file.ListOf? && result.Ok? ==>
        Snapshot() == InsertAll(old(Snapshot()), DocRecords(file.articles, DocEmbedding(embed)))
    {
      if file.NotAList? {
        return Err(ValueError);
      }
      var prepared := PrepareDocs(file.articles, DocEmbedding(embed));
      result := InsertResult(reply);
      if result.Ok? {
        InsertBatch(prepared);
      }
    }
  }
}
