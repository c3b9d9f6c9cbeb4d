// The incident analyser of src/llm/hangarFireAnayser.py: the numbered
// comparison prompt, the decoding of the language model's answer, and the
// mapping of the answer's positional duplicate index to a stored id.

module Analyser {
  import opened Wrappers
  import opened PyValues
  import opened Store

  /** What the chat-completion call yields: a failure (any exception raised
      by the client), or a first choice whose message content may be None. */
  datatype ApiReply = ApiFailure | Completion(content: Option<string>)

  /** What `json.loads` produced from the answer text: an object, or some
      other JSON value. */
  datatype Decoded = Object(fields: Dict) | NonObject(value: Val)

  /** `{article.get(key, '')}` inside an f-string: a missing key renders as
      the empty text, a present value as its `str()`. */
  function Field(a: Dict, key: string): string
  {
    Show(Get(a, key, Str("")))
  }

  /** A field of the prompt never fails to render: a missing key gives the
      empty text, a text value itself, an explicit null "None". */
  lemma FieldRendering(a: Dict, key: string)
    ensures key !in a ==> Field(a, key) == ""
    ensures key in a && a[key].Str? ==> Field(a, key) == a[key].s
    ensures key in a && a[key] == Null ==> Field(a, key) == "None"
  {
  }

  /** The retrieval text of `analyze_article`: Title / Location /
      Description / Content, newline-joined and stripped. */
  function CombinedText(a: Dict): string
  {
    Strip("Title: " + Field(a, "title") + "\nLocation: " + Field(a, "location")
          + "\nDescription: " + Field(a, "description") + "\nContent: " + Field(a, "content"))
  }

  /** The opening of the prompt. */
  const Preamble: string :=
      "You are an expert analyst specializing in aviation hangar fire incidents. Your task is to analyze a new article and provide structured information about it.\n"
      + "\n"
      + "EXISTING ARTICLES FOR COMPARISON:\n"

  /** The closing instructions of the prompt, with the requested JSON shape. */
  const Requirements: string :=
      "\n"
      + "ANALYSIS REQUIREMENTS:\n"
      + "\n"
      + "1. **is_valid** (boolean):\n"
      + "   Include ONLY incidents that meet ALL of the following criteria:\n"
      + "   \U{2022} Occurred in ACTIVE aircraft hangars (MRO, commercial, or military aviation)\n"
      + "   \U{2022} Fire originated in OR affected the hangar structure or operations\n"
      + "   \U{2022} Direct involvement of aircraft is noted, OR facility functions support aviation activity\n"
      + "   \U{2022} Includes incidents involving malfunctioning or accidental discharge of foam fire suppression systems (e.g., AFFF, High Expansion foam, fire retardant foam) that directly impacts the facility or aircraft\n"
      + "   \n"
      + "   EXCLUDE:\n"
      + "   \U{2022} Fires in repurposed or historic hangars (museums, galleries, event spaces)\n"
      + "   \U{2022} Fires in storage-only buildings with no aircraft activity\n"
      + "   \U{2022} Non-fire-related incidents (false alarms, power outages, maintenance issues)\n"
      + "   \U{2022} Events related to accidental discharge if it does not involve aircraft or the suppression system causing a fire-related incident\n"
      + "   \n"
      + "   True only if the article describes a valid aviation hangar fire incident or accidental discharge event involving a malfunction of fire suppression systems.\n"
      + "\n"
      + "2. **duplicate_index** (integer 0-3):\n"
      + "   Compare the new article with the 3 existing articles:\n"
      + "   \U{2022} Return 0 if this is a NEW incident\n"
      + "   \U{2022} Return 1-3 if it matches an existing article (same incident, location, date)\n"
      + "   \U{2022} Consider articles the same if they describe the same fire event, even with different details\n"
      + "\n"
      + "3. **airport_hangar_name** (string):\n"
      + "   \U{2022} Extract the specific name of the airport, airfield, or hangar facility\n"
      + "   \U{2022} Include official designations, codes, or proper names\n"
      + "   \U{2022} Return empty string if not specified\n"
      + "\n"
      + "4. **country_region** (string):\n"
      + "   \U{2022} Extract the country where the incident occurred\n"
      + "   \U{2022} If country not clear, provide the region/state/province\n"
      + "   \U{2022} Use standard country names (e.g., \"United States\", \"United Kingdom\")\n"
      + "\n"
      + "RESPONSE FORMAT:\n"
      + "Return ONLY a valid JSON object with this exact structure:\n"
      + "{\n"
      + "    \"is_valid\": boolean,\n"
      + "    \"duplicate_index\": integer (0-3),\n"
      + "    \"airport_hangar_name\": \"string\",\n"
      + "    \"country_region\": \"string\"\n"
      + "}\n"
      + "\n"
      + "Be thorough in your analysis and ensure accuracy in classification."

  /** The six article lines shared by a neighbour and the new article. */
  function ArticleLines(a: Dict): string
  {
    Concat(["Title: ", Field(a, "title"), "\nArticle Date: ", Field(a, "publishedAt"),
            "\nArticle Links: ", Field(a, "url"), "\nLocation: ", Field(a, "location"),
            "\nDescription: ", Field(a, "description"), "\nContent: ", Field(a, "content"), "\n"])
  }

  /** The block listing stored neighbour number `n`. */
  function NeighbourBlock(n: int, a: Dict): string
  {
    "\nArticle " + ShowInt(n) + ":\n" + ArticleLines(a)
  }

  /** The block presenting the article under analysis. */
  function NewArticleBlock(a: Dict): string
  {
    "\nNEW ARTICLE TO ANALYZE:\n" + ArticleLines(a)
  }

  /** The blocks of the neighbours `ns`, numbered from `start` on. */
  function Blocks(ns: seq<Dict>, start: int): (bs: seq<string>)
    ensures |bs| == |ns|
    ensures forall k :: 0 <= k < |ns| ==> bs[k] == NeighbourBlock(start + k, ns[k])
  {
    seq(|ns|, k requires 0 <= k < |ns| => NeighbourBlock(start + k, ns[k]))
  }

  /** The neighbour listing of the prompt. */
  function Listing(ns: seq<Dict>): string
  {
    Concat(Blocks(ns, 1))
  }

  /** A prompt laid out as the analyser lays it out, between an opening
      text `pre` and closing instructions `post`. */
  function Layout(pre: string, ns: seq<Dict>, a: Dict, post: string): string
  {
    pre + Listing(ns) + NewArticleBlock(a) + post
  }

  /** The whole prompt for neighbours `ns` and new article `a`. */
  function Prompt(ns: seq<Dict>, a: Dict): string
  {
    Layout(Preamble, ns, a, Requirements)
  }

  lemma OccursBetween(x: string, y: string, z: string)
    ensures OccursAt(x + y + z, y, |x|)
  {
    assert (x + y + z)[|x|..|x| + |y|] == y;
  }

  lemma OccursStart(s: string, p: string, q: string, i: nat)
    requires OccursAt(s, p, i) && StartsWith(p, q)
    ensures OccursAt(s, q, i)
  {
    assert s[i..i + |q|] == s[i..i + |p|][..|q|];
  }

  /** Every neighbour block opens with its "Article n:" line. */
  lemma BlockHeader(n: int, a: Dict)
    ensures StartsWith(NeighbourBlock(n, a), "\nArticle " + ShowInt(n) + ":\n")
  {
    var head := "\nArticle " + ShowInt(n) + ":\n";
    assert NeighbourBlock(n, a) == head + ArticleLines(a);
    assert (head + ArticleLines(a))[..|head|] == head;
  }

  lemma BlocksPrefix(ns: seq<Dict>, k: nat)
    requires k <= |ns|
    ensures Blocks(ns[..k], 1) == Blocks(ns, 1)[..k]
  {
  }

  /** The listing is the blocks before neighbour `k`, its block, and the
      blocks after it. */
  lemma ListingAround(ns: seq<Dict>, k: nat)
    requires k < |ns|
    ensures Listing(ns) == Listing(ns[..k]) + NeighbourBlock(k + 1, ns[k]) + Concat(Blocks(ns, 1)[k + 1..])
  {
    var bs := Blocks(ns, 1);
    ConcatSplit(bs, k);
    BlocksPrefix(ns, k);
    assert bs[k..][1..] == bs[k + 1..];
    assert Concat(bs[k..]) == bs[k] + Concat(bs[k + 1..]);
  }

  lemma Regroup(p: string, l: string, b: string, r: string, n: string, q: string)
    ensures p + (l + b + r) + n + q == (p + l) + b + (r + n + q)
  {
  }

  lemma BlockInLayout(pre: string, ns: seq<Dict>, a: Dict, post: string, k: nat)
    requires k < |ns|
    ensures OccursAt(Layout(pre, ns, a, post), NeighbourBlock(k + 1, ns[k]), |pre| + |Listing(ns[..k])|)
  {
    ListingAround(ns, k);
    var before := pre + Listing(ns[..k]);
    var block := NeighbourBlock(k + 1, ns[k]);
    var after := Concat(Blocks(ns, 1)[k + 1..]);
    Regroup(pre, Listing(ns[..k]), block, after, NewArticleBlock(a), post);
    OccursBetween(before, block, after + NewArticleBlock(a) + post);
  }

  /** Neighbour `k` (0-based) is listed as "Article k+1", right after the
      opening text and the blocks of the neighbours before it, so the
      model's 1-based duplicate index names the neighbour at position
      index-1. */
  lemma PromptNumbering(pre: string, ns: seq<Dict>, a: Dict, post: string, k: nat)
    requires k < |ns|
    ensures var p := Layout(pre, ns, a, post);
      var at := |pre| + |Listing(ns[..k])|;
      && OccursAt(p, NeighbourBlock(k + 1, ns[k]), at)
      && OccursAt(p, "\nArticle " + ShowInt(k + 1) + ":\n", at)
  {
    BlockInLayout(pre, ns, a, post, k);
    BlockHeader(k + 1, ns[k]);
    OccursStart(Layout(pre, ns, a, post), NeighbourBlock(k + 1, ns[k]), "\nArticle " + ShowInt(k + 1) + ":\n",
                |pre| + |Listing(ns[..k])|);
  }

  /** The prompt opens with the opening text and closes with the new
      article followed by the instructions, whatever the fields hold. */
  lemma PromptFrame(pre: string, ns: seq<Dict>, a: Dict, post: string)
    ensures StartsWith(Layout(pre, ns, a, post), pre)
    ensures EndsWith(Layout(pre, ns, a, post), NewArticleBlock(a) + post)
  {
    var p := Layout(pre, ns, a, post);
    var tail := NewArticleBlock(a) + post;
    assert p == pre + Listing(ns) + tail;
    assert p[..|pre|] == pre;
    assert p[|p| - |tail|..] == tail;
  }

  /** The loop of `create_analysis_prompt` over any opening and closing
      text: the opening, one `+=` per numbered neighbour, then the new
      article and the closing text. */
  method BuildPrompt(pre: string, ns: seq<Dict>, a: Dict, post: string) returns (prompt: string)
    ensures prompt == Layout(pre, ns, a, post)
  {
    var bs := Blocks(ns, 1);
    prompt := pre;
    for i := 0 to |ns|
      invariant prompt == pre + Concat(bs[..i])
    {
      ConcatAppend(bs[..i], bs[i]);
      assert bs[..i + 1] == bs[..i] + [bs[i]];
      prompt := prompt + NeighbourBlock(i + 1, ns[i]);
    }
    assert bs[..|ns|] == bs;
    prompt := prompt + NewArticleBlock(a);
    prompt := prompt + post;
  }

  /** `create_analysis_prompt`: the fixed preamble and requirements around
      the numbered neighbours and the new article. */
  method CreateAnalysisPrompt(ns: seq<Dict>, a: Dict) returns (prompt: string)
    ensures prompt == Prompt(ns, a)
  {
    prompt := BuildPrompt(Preamble, ns, a, Requirements);
  }

  /** `_analyze_article`: the completion for the prompt, stripped and
      decoded. A client failure, a missing message content and undecodable
      text are all raised again; nothing is replaced by a default verdict. */
  function AnalyzeRaw(ns: seq<Dict>, a: Dict, llm: string -> ApiReply,
                      parse: string -> Option<Decoded>): (r: Result<Decoded, Exc>)
    ensures r.Ok? <==> llm(Prompt(ns, a)).Completion? && llm(Prompt(ns, a)).content.Some?
                       && parse(Strip(llm(Prompt(ns, a)).content.value)).Some?
    ensures r.Ok? ==> r.value == parse(Strip(llm(Prompt(ns, a)).content.value)).value
    ensures llm(Prompt(ns, a)) == ApiFailure ==> r == Err(ApiError)
  {
    match llm(Prompt(ns, a))
    case ApiFailure => Err(ApiError)
    case Completion(None) => Err(AttributeError)
    case Completion(Some(text)) =>
      match parse(Strip(text))
      case None => Err(JsonDecodeError)
      case Some(d) => Ok(d)
  }

  /** `value > 0` and `value - 1` for a JSON value: a boolean counts as 0 or
      1, an integer as itself; any other value cannot be compared with 0. */
  function IndexValue(v: Val): Option<int>
  {
    match v
    case Int(i) => Some(i)
    case Bool(b) => Some(if b then 1 else 0)
    case _ => None
  }

  /** The index-to-id step of `analyze_article`: a positive duplicate index
      d adds the id of neighbour d-1 to the verdict; the verdict and the
      query embedding are returned as a pair. */
  function ResolveDuplicate(ns: seq<Dict>, query: Embedding, verdict: Decoded): (r: Result<(Dict, Embedding), Exc>)
    ensures verdict.NonObject? ==> r == Err(TypeError)
    ensures verdict.Object? && "duplicate_index" !in verdict.fields ==> r == Err(KeyError("duplicate_index"))
    ensures verdict.Object? && "duplicate_index" in verdict.fields && IndexValue(verdict.fields["duplicate_index"]).None?
            ==> r == Err(TypeError)
    ensures r.Ok? ==> r.value.1 == query
    ensures r.Ok? ==> verdict.Object? && "duplicate_index" in verdict.fields
    ensures r.Ok? ==> var d := IndexValue(verdict.fields["duplicate_index"]);
      && d.Some?
      && (d.value > 0 ==> d.value - 1 < |ns| && r.value.0 == verdict.fields["id" := Get(ns[d.value - 1], "id", Null)])
      && (d.value <= 0 ==> r.value.0 == verdict.fields)
  {
    match verdict
    case NonObject(_) => Err(TypeError)
    case Object(v) =>
      if "duplicate_index" !in v then Err(KeyError("duplicate_index"))
      else match IndexValue(v["duplicate_index"])
        case None => Err(TypeError)
        case Some(d) =>
          if d <= 0 then Ok((v, query))
          else if d - 1 < |ns| then Ok((v["id" := Get(ns[d - 1], "id", Null)], query))
          else Err(IndexError)
  }

  /** A duplicate index past the end of the neighbour list raises
      IndexError instead of falling back to "new incident". */
  lemma IndexPastNeighbours(ns: seq<Dict>, query: Embedding, v: Dict)
    requires "duplicate_index" in v && IndexValue(v["duplicate_index"]).Some?
    requires IndexValue(v["duplicate_index"]).value > |ns|
    ensures ResolveDuplicate(ns, query, Object(v)) == Err(IndexError)
  {
  }

  /** `analyze_article`: retrieval of at most 3 neighbours for the combined
      text, the model's verdict about them, and the index-to-id step. */
  function AnalyzeArticle(t: Table, a: Dict, embed: string -> Embedding, rpc: (Table, Embedding, int) -> RpcReply,
                          llm: string -> ApiReply, parse: string -> Option<Decoded>): (r: Result<(Dict, Embedding), Exc>)
    ensures r.Ok? ==> r.value.1 == embed(CombinedText(a))
    ensures r.Ok? ==> rpc(t, embed(CombinedText(a)), 3).data != []
  {
    match SimilarArticles(t, CombinedText(a), 3, embed, rpc)
    case Err(e) => Err(e)
    case Ok(BareEmpty) => Err(ValueError)
    case Ok(Neighbours(ns, q)) =>
      match AnalyzeRaw(ns, a, llm, parse)
      case Err(e) => Err(e)
      case Ok(verdict) => ResolveDuplicate(ns, q, verdict)
  }

  /** An empty store answer (no rows, no error) cannot be unpacked into a
      pair: the analyser raises instead of treating the article as new. */
  lemma EmptyRetrievalRaises(t: Table, a: Dict, embed: string -> Embedding, rpc: (Table, Embedding, int) -> RpcReply,
                             llm: string -> ApiReply, parse: string -> Option<Decoded>)
    requires rpc(t, embed(CombinedText(a)), 3).data == []
    ensures AnalyzeArticle(t, a, embed, rpc, llm, parse).Err?
  {
  }

  /** The verdict is the model's decoded answer about the retrieved
      neighbours, and a failure of the model call or of the decoding is
      what the analyser raises. */
  lemma AnalyzeUsesVerdict(t: Table, a: Dict, embed: string -> Embedding, rpc: (Table, Embedding, int) -> RpcReply,
                           llm: string -> ApiReply, parse: string -> Option<Decoded>)
    requires rpc(t, embed(CombinedText(a)), 3).data != []
    ensures var ns := rpc(t, embed(CombinedText(a)), 3).data;
      var raw := AnalyzeRaw(ns, a, llm, parse);
      && (raw.Err? ==> AnalyzeArticle(t, a, embed, rpc, llm, parse) == Err(raw.error))
      && (raw.Ok? ==> AnalyzeArticle(t, a, embed, rpc, llm, parse) == ResolveDuplicate(ns, embed(CombinedText(a)), raw.value))
  {
  }
}
