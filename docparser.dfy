// The archive parser of src/parser/doc.py: a Word document is cut into
// chunks at its heading paragraphs, each chunk is searched for the
// labelled fields of an archived article, and the chunks with a title
// become article records. Reading the .docx file is left to the caller,
// who supplies the document's paragraphs.

module DocParser {
  import opened Wrappers
  import opened PyValues

  // ---------------------------------------------------------------------
  // split_doc

  /** One paragraph of the document: the name of its style and its text. */
  datatype Paragraph = Paragraph(style: string, text: string)

  /** A paragraph whose style name starts with "Heading". */
  predicate IsHeading(p: Paragraph)
  {
    StartsWith(p.style, "Heading")
  }

  /** The number of heading paragraphs. */
  function Headings(ps: seq<Paragraph>): nat
  {
    if ps == [] then 0
    else Headings(ps[..|ps| - 1]) + (if IsHeading(ps[|ps| - 1]) then 1 else 0)
  }

  /** Every body paragraph's text followed by a line break, in document
      order. */
  function Body(ps: seq<Paragraph>): string
  {
    if ps == [] then ""
    else Body(ps[..|ps| - 1]) + (if IsHeading(ps[|ps| - 1]) then "" else ps[|ps| - 1].text + "\n")
  }

  /** The text between consecutive headings (and before the first and after
      the last), empty sections included: one more section than there are
      headings. */
  function Sections(ps: seq<Paragraph>): (s: seq<string>)
    ensures |s| >= 1
  {
    if ps == [] then [""]
    else
      var s := Sections(ps[..|ps| - 1]);
      var p := ps[|ps| - 1];
      if IsHeading(p) then s + [""] else s[..|s| - 1] + [s[|s| - 1] + p.text + "\n"]
  }

  /** The non-empty texts of `xs`, in order. */
  function NonEmpty(xs: seq<string>): seq<string>
  {
    if xs == [] then []
    else NonEmpty(xs[..|xs| - 1]) + (if xs[|xs| - 1] != "" then [xs[|xs| - 1]] else [])
  }

  /** `split_doc`: one pass over the paragraphs, a heading closing the chunk
      in progress when it holds text, a body paragraph appending its text
      and a line break. */
  method SplitDoc(ps: seq<Paragraph>) returns (chunks: seq<string>)
    ensures chunks == NonEmpty(Sections(ps))
  {
    chunks := [];
    var content := "";
    for i := 0 to |ps|
      invariant var s := Sections(ps[..i]); chunks == NonEmpty(s[..|s| - 1]) && content == s[|s| - 1]
    {
      assert ps[..i + 1][..i] == ps[..i];
      ghost var s := Sections(ps[..i]);
      if IsHeading(ps[i]) {
        assert (s + [""])[..|s|] == s;
        if content != "" {
          chunks := chunks + [content];
          content := "";
        }
      } else {
        assert (s[..|s| - 1] + [content + ps[i].text + "\n"])[..|s| - 1] == s[..|s| - 1];
        content := content + ps[i].text + "\n";
      }
    }
    assert ps[..|ps|] == ps;
    ghost var s := Sections(ps);
    assert s[..|s| - 1] + [s[|s| - 1]] == s;
    if content != "" {
      chunks := chunks + [content];
    }
  }

  lemma {:induction false} SectionsCount(ps: seq<Paragraph>)
    ensures |Sections(ps)| == Headings(ps) + 1
  {
    if ps != [] {
      SectionsCount(ps[..|ps| - 1]);
    }
  }

  lemma {:induction false} SectionsConcat(ps: seq<Paragraph>)
    ensures Concat(Sections(ps)) == Body(ps)
  {
    if ps != [] {
      var init := ps[..|ps| - 1];
      var s := Sections(init);
      var p := ps[|ps| - 1];
      SectionsConcat(init);
      if IsHeading(p) {
        ConcatAppend(s, "");
      } else {
        var n := |s| - 1;
        ConcatAppend(s[..n], s[n] + p.text + "\n");
        ConcatAppend(s[..n], s[n]);
        assert s[..n] + [s[n]] == s;
      }
    }
  }

  lemma {:induction false} NonEmptyShape(xs: seq<string>)
    ensures forall c :: c in NonEmpty(xs) ==> c != ""
    ensures |NonEmpty(xs)| <= |xs|
    ensures Concat(NonEmpty(xs)) == Concat(xs)
  {
    if xs != [] {
      var n := |xs| - 1;
      NonEmptyShape(xs[..n]);
      assert xs[..n] + [xs[n]] == xs;
      ConcatAppend(xs[..n], xs[n]);
      if xs[n] != "" {
        ConcatAppend(NonEmpty(xs[..n]), xs[n]);
      } else {
        assert NonEmpty(xs) == NonEmpty(xs[..n]);
      }
    }
  }

  /** What `split_doc` promises: no chunk is empty, the chunks put together
      are the body text of the document, and there is at most one chunk
      more than there are headings. */
  lemma SplitDocShape(ps: seq<Paragraph>)
    ensures forall c :: c in NonEmpty(Sections(ps)) ==> c != ""
    ensures Concat(NonEmpty(Sections(ps))) == Body(ps)
    ensures |NonEmpty(Sections(ps))| <= Headings(ps) + 1
  {
    NonEmptyShape(Sections(ps));
    SectionsConcat(ps);
    SectionsCount(ps);
  }

  /** Headings only separate chunks: two documents that differ only in the
      text of their headings split into the same chunks. */
  lemma {:induction false} HeadingTextIgnored(ps: seq<Paragraph>, qs: seq<Paragraph>)
    requires |ps| == |qs|
    requires forall i :: 0 <= i < |ps| ==> ps[i].style == qs[i].style
    requires forall i :: 0 <= i < |ps| && !IsHeading(ps[i]) ==> ps[i].text == qs[i].text
    ensures Sections(ps) == Sections(qs)
  {
    if ps != [] {
      HeadingTextIgnored(ps[..|ps| - 1], qs[..|qs| - 1]);
    }
  }

  // ---------------------------------------------------------------------
  // extract_details: the seven regular expressions

  /** The part of each pattern after its literal label:
      RestOfLine `\s*(.*)`, TabsThenLine `[\t]*(.*)`, Token `\s*(\S+)` and
      Remainder `\s*\S+\s*([\s\S]+)`. */
  datatype Tail = RestOfLine | TabsThenLine | Token | Remainder

  /** A pattern: a literal label and what follows it. */
  datatype Pattern = Pattern(anchor: string, tail: Tail)

  /** The text up to its first line break: what `(.*)` captures, since `.`
      matches anything but a line break. */
  function LineOf(s: string): (r: string)
    ensures r <= s && '\n' !in r
    ensures |r| < |s| ==> s[|r|] == '\n'
  {
    if s == [] || s[0] == '\n' then [] else [s[0]] + LineOf(s[1..])
  }

  /** The longest prefix without white space: what `(\S+)` captures when it
      is not empty. */
  function TokenOf(s: string): (r: string)
    ensures r <= s && forall k :: 0 <= k < |r| ==> !IsSpace(r[k])
    ensures |r| < |s| ==> IsSpace(s[|r|])
  {
    if s == [] || IsSpace(s[0]) then [] else [s[0]] + TokenOf(s[1..])
  }

  /** The text after its leading tabs: what `[\t]*` leaves. */
  function SkipTabs(s: string): (r: string)
    ensures |r| <= |s| && r == s[|s| - |r|..]
    ensures forall k :: 0 <= k < |s| - |r| ==> s[k] == '\t'
    ensures r == [] || r[0] != '\t'
  {
    if s != [] && s[0] == '\t' then SkipTabs(s[1..]) else s
  }

  /** The group captured when `tail` is matched against the text `after`
      that follows the label, or None when it cannot match there. The
      greedy `\s*` takes all leading white space (line breaks included);
      in Remainder, when nothing is left for `[\s\S]+`, the engine
      backtracks: the last character of the trailing white space, or else
      the last character of a token of two or more characters, is
      captured. */
  function Group(tail: Tail, after: string): Option<string>
  {
    match tail
    case RestOfLine => Some(LineOf(TrimStart(after)))
    case TabsThenLine => Some(LineOf(SkipTabs(after)))
    case Token =>
      var tok := TokenOf(TrimStart(after));
      if tok == [] then None else Some(tok)
    case Remainder =>
      var t := TrimStart(after);
      var tok := TokenOf(t);
      var u := t[|tok|..];
      var rest := TrimStart(u);
      if tok == [] then None
      else if rest != [] then Some(rest)
      else if u != [] then Some(u[|u| - 1..])
      else if |tok| >= 2 then Some(tok[|tok| - 1..])
      else None
  }

  /** The first position from `k` on that holds a character other than
      white space, or the length of `s` when there is none. */
  function NextVisible(s: string, k: nat): (r: nat)
    requires k <= |s|
    ensures k <= r <= |s| && (r < |s| ==> !IsSpace(s[r]))
    ensures forall m :: k <= m < r ==> IsSpace(s[m])
    decreases |s| - k
  {
    if k < |s| && IsSpace(s[k]) then NextVisible(s, k + 1) else k
  }

  /** Whether `tail` can match the text from position `k` on: the line
      patterns always can, `\s*(\S+)` needs a character other than white
      space, and `\s*\S+\s*([\s\S]+)` needs at least one more character
      after the first such one. */
  predicate Capturable(tail: Tail, s: string, k: nat)
    requires k <= |s|
  {
    match tail
    case RestOfLine => true
    case TabsThenLine => true
    case Token => NextVisible(s, k) < |s|
    case Remainder => NextVisible(s, k) + 2 <= |s|
  }

  /** Stripping the white space in front of the text from `k` on leaves the
      text from the next visible character on. */
  lemma TrimStartFrom(s: string, k: nat)
    requires k <= |s|
    ensures TrimStart(s[k..]) == s[NextVisible(s, k)..]
  {
    var t := s[k..];
    var r := TrimStart(t);
    var p := NextVisible(s, k);
    var q := k + (|t| - |r|);
    assert p == q;
    assert r == t[|t| - |r|..];
  }

  /** A pattern's tail can be matched from `k` on exactly when the group it
      captures there exists. */
  lemma CapturableIsGroup(tail: Tail, s: string, k: nat)
    requires k <= |s|
    ensures Capturable(tail, s, k) <==> Group(tail, s[k..]).Some?
  {
    var p := NextVisible(s, k);
    TrimStartFrom(s, k);
    var t := s[p..];
    if tail == Token || tail == Remainder {
      var tok := TokenOf(t);
      if p < |s| {
        assert t[0] == s[p];
        assert tok != [];
        if tail == Remainder && p + 2 <= |s| && |tok| < 2 {
          assert |t[|tok|..]| > 0;
        }
      } else {
        assert t == [];
      }
    }
  }

  /** The pattern matches with its label at position `j`. */
  predicate MatchesAt(s: string, pat: Pattern, j: nat)
  {
    OccursAt(s, pat.anchor, j) && Capturable(pat.tail, s, j + |pat.anchor|)
  }

  /** Where `re.search` finds the pattern, scanning from position `j`:
      the leftmost position where it matches, or nothing when it matches
      nowhere. A position found leaves room for the label. */
  function FirstMatch(s: string, pat: Pattern, j: nat): (r: Option<nat>)
    ensures r.Some? ==> j <= r.value && r.value + |pat.anchor| <= |s|
    decreases |s| + 1 - j
  {
    if j > |s| then None
    else if MatchesAt(s, pat, j) then Some(j)
    else FirstMatch(s, pat, j + 1)
  }

  /** The scan finds the leftmost position from `j` on where the pattern
      matches, or reports that it matches nowhere from `j` on. */
  lemma {:induction false} FirstMatchLeftmost(s: string, pat: Pattern, j: nat)
    ensures FirstMatch(s, pat, j).Some? ==> MatchesAt(s, pat, FirstMatch(s, pat, j).value)
    ensures FirstMatch(s, pat, j).Some? ==> forall i: nat :: j <= i < FirstMatch(s, pat, j).value ==> !MatchesAt(s, pat, i)
    ensures FirstMatch(s, pat, j).None? ==> forall i: nat :: j <= i <= |s| ==> !MatchesAt(s, pat, i)
    decreases |s| + 1 - j
  {
    if j <= |s| && !MatchesAt(s, pat, j) {
      FirstMatchLeftmost(s, pat, j + 1);
    }
  }

  /** `re.search(pattern, s).group(1)`, or None when there is no match. */
  function Search(s: string, pat: Pattern): Option<string>
  {
    match FirstMatch(s, pat, 0)
    case None => None
    case Some(i) => Group(pat.tail, s[i + |pat.anchor|..])
  }

  /** The seven keys `extract_details` fills, in order, and their patterns. */
  const Keys: seq<string> := ["title", "source", "location", "publishedAt", "author", "url", "content"]

  const Patterns: seq<Pattern> := [
    Pattern("Article Title:", RestOfLine),
    Pattern("Publication name:", RestOfLine),
    Pattern("Accident Location:", RestOfLine),
    Pattern("Article Date:", RestOfLine),
    Pattern("Author:", TabsThenLine),
    Pattern("Article Link:", Token),
    Pattern("Article Link:", Remainder)
  ]

  const DetailKeys: set<string> := {"title", "source", "location", "publishedAt", "author", "url", "content"}

  lemma KeysDistinct()
    ensures |Keys| == |Patterns|
    ensures forall i, j :: 0 <= i < j < |Keys| ==> Keys[i] != Keys[j]
  {
  }

  /** One field: the stripped group, or "" when the pattern does not match. */
  function Extracted(content: string, pat: Pattern): string
  {
    match Search(content, pat)
    case Some(g) => Strip(g)
    case None => ""
  }

  /** The dictionary built by storing `values[i]` under `keys[i]`, one
      after the other. */
  function Record(keys: seq<string>, values: seq<Val>): Dict
    requires |keys| == |values|
  {
    if keys == [] then map[]
    else Record(keys[..|keys| - 1], values[..|keys| - 1])[keys[|keys| - 1] := values[|keys| - 1]]
  }

  /** With distinct keys, every key ends up holding its own value. */
  lemma {:induction false} RecordShape(keys: seq<string>, values: seq<Val>)
    requires |keys| == |values|
    requires forall i, j :: 0 <= i < j < |keys| ==> keys[i] != keys[j]
    ensures Record(keys, values).Keys == set k | 0 <= k < |keys| :: keys[k]
    ensures forall k :: 0 <= k < |keys| ==> Record(keys, values)[keys[k]] == values[k]
  {
    if keys != [] {
      var n := |keys| - 1;
      RecordShape(keys[..n], values[..n]);
    }
  }

  /** Storing one more key and value extends the dictionary built so far. */
  lemma RecordStep(keys: seq<string>, values: seq<Val>, i: nat)
    requires |keys| == |values| && i < |keys|
    ensures Record(keys[..i + 1], values[..i + 1]) == Record(keys[..i], values[..i])[keys[i] := values[i]]
  {
    assert keys[..i + 1][..i] == keys[..i] && values[..i + 1][..i] == values[..i];
  }

  /** The seven keys, as a set. */
  lemma KeySet()
    ensures (set k | 0 <= k < |Keys| :: Keys[k]) == DetailKeys
  {
    var s := set k | 0 <= k < |Keys| :: Keys[k];
    assert Keys[0] in s && Keys[1] in s && Keys[2] in s && Keys[3] in s;
    assert Keys[4] in s && Keys[5] in s && Keys[6] in s;
    forall x | x in s
      ensures x in DetailKeys
    {
      var k :| 0 <= k < |Keys| && Keys[k] == x;
      assert k == 0 || k == 1 || k == 2 || k == 3 || k == 4 || k == 5 || k == 6;
    }
  }

  /** The value found for each pattern. */
  function Values(content: string): (vs: seq<Val>)
    ensures |vs| == |Patterns| && forall k :: 0 <= k < |Patterns| ==> vs[k] == Str(Extracted(content, Patterns[k]))
  {
    seq(|Patterns|, k requires 0 <= k < |Patterns| => Str(Extracted(content, Patterns[k])))
  }

  /** The record `extract_details` returns: every one of the seven keys is
      present whatever the chunk holds, each mapped to the stripped group
      of its pattern, or to "" when the pattern does not match. */
  function Details(content: string): (d: Dict)
    ensures d.Keys == DetailKeys
    ensures forall k :: 0 <= k < |Keys| ==> d[Keys[k]] == Str(Extracted(content, Patterns[k]))
  {
    KeysDistinct();
    RecordShape(Keys, Values(content));
    KeySet();
    Record(Keys, Values(content))
  }

  /** `extract_details`: one pass over the patterns, storing each match's
      stripped group, or "" when the pattern does not match. */
  method ExtractDetails(content: string) returns (details: Dict)
    ensures details == Details(content)
  {
    details := map[];
    ghost var values := Values(content);
    for i := 0 to |Keys|
      invariant details == Record(Keys[..i], values[..i])
    {
      RecordStep(Keys, values, i);
      var m := Search(content, Patterns[i]);
      var value := if m.Some? then Str(Strip(m.value)) else Str("");
      assert value == values[i];
      details := details[Keys[i] := value];
    }
    assert Keys[..|Keys|] == Keys && values[..|Keys|] == values;
  }

  /** A found value starts and ends with something other than white space. */
  lemma ExtractedStripped(content: string, pat: Pattern)
    ensures var v := Extracted(content, pat); v == [] || (!IsSpace(v[0]) && !IsSpace(v[|v| - 1]))
  {
    match Search(content, pat)
    case Some(g) => StripIsStripped(g);
    case None =>
  }

  /** A label the chunk does not contain yields "". */
  lemma AbsentLabel(content: string, pat: Pattern)
    requires !IsSubstring(pat.anchor, content)
    ensures Extracted(content, pat) == ""
  {
    FirstMatchLeftmost(content, pat, 0);
  }

  /** A text without line breaks strips to one without. */
  lemma StripKeepsOutBreaks(s: string)
    requires '\n' !in s
    ensures '\n' !in Strip(s)
  {
    var t := TrimStart(s);
    assert forall c :: c in t ==> c in s;
    var r := TrimEnd(t);
    assert forall c :: c in r ==> c in t;
  }

  /** The single-line patterns (title, source, location, date, author)
      yield text without a line break. */
  lemma ExtractedOneLine(content: string, pat: Pattern)
    requires pat.tail == RestOfLine || pat.tail == TabsThenLine
    ensures '\n' !in Extracted(content, pat)
  {
    if FirstMatch(content, pat, 0).Some? {
      var i := FirstMatch(content, pat, 0).value;
      SearchAt(content, pat, i);
      var g := Group(pat.tail, content[i + |pat.anchor|..]).value;
      assert '\n' !in g;
      StripKeepsOutBreaks(g);
    }
  }

  /** The url pattern yields one token: no white space, and empty only when
      the pattern matches nowhere. */
  lemma ExtractedToken(content: string, pat: Pattern)
    requires pat.tail == Token
    ensures forall c :: c in Extracted(content, pat) ==> !IsSpace(c)
    ensures Extracted(content, pat) == "" <==> Search(content, pat).None?
  {
    match FirstMatch(content, pat, 0)
    case None =>
      assert Search(content, pat) == None;
    case Some(i) =>
      var tok := ExtractedTokenAt(content, pat, i);
      forall c | c in tok
        ensures !IsSpace(c)
      {
        var k :| 0 <= k < |tok| && tok[k] == c;
      }
  }

  /** Where the pattern first matches, `re.search` yields the group read
      after the label there. */
  lemma SearchAt(content: string, pat: Pattern, i: nat)
    requires FirstMatch(content, pat, 0) == Some(i)
    ensures Search(content, pat) == Group(pat.tail, content[i + |pat.anchor|..])
  {
  }

  /** Where the scan stops, the pattern's tail can be matched after the
      label. */
  lemma FoundCapturable(content: string, pat: Pattern, i: nat)
    requires FirstMatch(content, pat, 0) == Some(i)
    ensures Capturable(pat.tail, content, i + |pat.anchor|)
  {
    FirstMatchLeftmost(content, pat, 0);
  }

  /** Where the url pattern first matches, the extracted value is the
      non-empty token after the label. */
  lemma ExtractedTokenAt(content: string, pat: Pattern, i: nat) returns (tok: string)
    requires pat.tail == Token && FirstMatch(content, pat, 0) == Some(i)
    ensures tok != "" && Search(content, pat).Some?
    ensures Extracted(content, pat) == tok && forall k :: 0 <= k < |tok| ==> !IsSpace(tok[k])
  {
    FoundCapturable(content, pat, i);
    CapturableIsGroup(pat.tail, content, i + |pat.anchor|);
    SearchAt(content, pat, i);
    var t := TrimStart(content[i + |pat.anchor|..]);
    tok := TokenOf(t);
    assert Search(content, pat) == Some(tok);
    TokenUnpadded(t);
  }

  /** A token is its own stripped form. */
  lemma TokenUnpadded(s: string)
    ensures Strip(TokenOf(s)) == TokenOf(s)
  {
    var tok := TokenOf(s);
    if tok != [] {
      assert !IsSpace(tok[0]) && !IsSpace(tok[|tok| - 1]);
    }
    StripOfUnpadded(tok);
  }

  lemma {:induction false} TrimStartAppend(a: string, b: string)
    requires TrimStart(a) != []
    ensures TrimStart(a + b) == TrimStart(a) + b
  {
    assert (a + b)[0] == a[0];
    if IsSpace(a[0]) {
      assert TrimStart(a) == TrimStart(a[1..]);
      assert (a + b)[1..] == a[1..] + b;
      TrimStartAppend(a[1..], b);
    } else {
      assert TrimStart(a) == a && TrimStart(a + b) == a + b;
    }
  }

  lemma {:induction false} LineOfAppend(a: string, b: string)
    requires '\n' !in a
    ensures LineOf(a + ("\n" + b)) == a
  {
    if a != [] {
      assert (a + ("\n" + b))[1..] == a[1..] + ("\n" + b);
      LineOfAppend(a[1..], b);
    }
  }

  lemma StripOfTrimmed(v: string)
    ensures Strip(TrimStart(v)) == Strip(v)
  {
    var t := TrimStart(v);
    assert TrimStart(t) == t;
  }

  /** A chunk that opens with a single-line label, followed by a value
      with some visible text and a line break, yields that value, stripped. */
  lemma LabelledLine(anchor: string, v: string, rest: string)
    requires '\n' !in v && Strip(v) != ""
    ensures Extracted(anchor + v + "\n" + rest, Pattern(anchor, RestOfLine)) == Strip(v)
  {
    var pat := Pattern(anchor, RestOfLine);
    var after := v + ("\n" + rest);
    var s := anchor + after;
    assert s == anchor + v + "\n" + rest;
    assert s[|anchor|..] == after;
    assert MatchesAt(s, pat, 0);
    assert Search(s, pat) == Some(LineOf(TrimStart(after)));
    TrimStartAppend(v, "\n" + rest);
    var t := TrimStart(v);
    assert '\n' !in t by {
      assert forall c :: c in t ==> c in v;
    }
    LineOfAppend(t, rest);
    StripOfTrimmed(v);
  }

  // ---------------------------------------------------------------------
  // doc_parse

  /** The records with a non-empty title, in order. */
  function Titled(rs: seq<Dict>): seq<Dict>
  {
    if rs == [] then []
    else Titled(rs[..|rs| - 1]) + (if Truthy(Get(rs[|rs| - 1], "title", Null)) then [rs[|rs| - 1]] else [])
  }

  /** The record of every chunk. */
  function AllDetails(chunks: seq<string>): (rs: seq<Dict>)
    ensures |rs| == |chunks| && forall i :: 0 <= i < |chunks| ==> rs[i] == Details(chunks[i])
  {
    seq(|chunks|, i requires 0 <= i < |chunks| => Details(chunks[i]))
  }

  /** `doc_parse`: split the document, extract every chunk, keep the records
      with a title. */
  method DocParse(ps: seq<Paragraph>) returns (articles: seq<Dict>)
    ensures articles == Titled(AllDetails(NonEmpty(Sections(ps))))
  {
    var chunks := SplitDoc(ps);
    articles := [];
    for i := 0 to |chunks|
      invariant articles == Titled(AllDetails(chunks[..i]))
    {
      var article := ExtractDetails(chunks[i]);
      assert AllDetails(chunks[..i + 1])[..i] == AllDetails(chunks[..i]);
      if Truthy(Get(article, "title", Null)) {
        articles := articles + [article];
      }
    }
    assert chunks[..|chunks|] == chunks;
  }

  /** The kept records are exactly the records with a non-empty title, in
      order: each kept one has a title and comes from the input, and every
      record with a title is kept. */
  lemma {:induction false} TitledExact(rs: seq<Dict>)
    ensures forall r :: r in Titled(rs) ==> r in rs && Truthy(Get(r, "title", Null))
    ensures forall r :: r in rs && Truthy(Get(r, "title", Null)) ==> r in Titled(rs)
    ensures |Titled(rs)| <= |rs|
  {
    if rs != [] {
      var n := |rs| - 1;
      TitledExact(rs[..n]);
      assert rs == rs[..n] + [rs[n]];
    }
  }

  /** The kept records keep their input order. */
  lemma {:induction false} TitledInOrder(rs: seq<Dict>)
    ensures IsSubseq(Titled(rs), rs)
  {
    if rs != [] {
      var n := |rs| - 1;
      var t := Titled(rs[..n]);
      TitledInOrder(rs[..n]);
      if Truthy(Get(rs[n], "title", Null)) {
        var a := t + [rs[n]];
        assert Titled(rs) == a;
        assert a[..|a| - 1] == t;
        assert IsSubseq(a[..|a| - 1], rs[..n]);
      } else {
        assert Titled(rs) == t + [] == t;
        assert IsSubseq(t, rs[..n]);
      }
    }
  }

  /** Each record with a title is kept as often as it occurs; one without
      is dropped. */
  lemma {:induction false} TitledCounts(rs: seq<Dict>)
    ensures forall r :: multiset(Titled(rs))[r] == if Truthy(Get(r, "title", Null)) then multiset(rs)[r] else 0
  {
    if rs != [] {
      var n := |rs| - 1;
      var t := Titled(rs[..n]);
      TitledCounts(rs[..n]);
      assert rs == rs[..n] + [rs[n]];
      assert multiset(rs) == multiset(rs[..n]) + multiset{rs[n]};
      var last := if Truthy(Get(rs[n], "title", Null)) then [rs[n]] else [];
      assert Titled(rs) == t + last;
      assert multiset(Titled(rs)) == multiset(t) + multiset(last);
    }
  }

  /** Every parsed article has all seven keys and a non-empty title. */
  lemma DocParseArticles(ps: seq<Paragraph>)
    ensures forall a :: a in Titled(AllDetails(NonEmpty(Sections(ps)))) ==>
      a.Keys == DetailKeys && a["title"] != Str("")
  {
    var rs := AllDetails(NonEmpty(Sections(ps)));
    TitledExact(rs);
    forall a | a in Titled(rs)
      ensures a.Keys == DetailKeys && a["title"] != Str("")
    {
      var i :| 0 <= i < |rs| && rs[i] == a;
    }
  }
}
