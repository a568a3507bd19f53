/** `deepResearch` of src/lib/search-engine.ts: a capped web search, content
    extraction from the top results, key findings and a summary. */
module Research {

  import opened Common
  import opened Text
  import opened Search
  import opened Extract

  datatype ResearchResult = ResearchResult(
    query: string,
    summary: string,
    sources: seq<SearchResult>,
    keyFindings: seq<string>,
    timestamp: string)

  /** Why research fails: the search fails, or a result without a source label
      has a URL that does not parse when the summary needs its hostname. */
  datatype ResearchError = SearchFailed(cause: SearchError) | HostnameFailed

  /** `new URL(url).hostname`, with `None` when the URL does not parse. */
  type Hostnames = string -> Option<string>

  const MinDepth: nat := 1

  const MaxDepth: nat := 5

  /** How many search results each unit of depth asks for. */
  const ResultsPerDepth: nat := 3

  const MinSentenceLength: nat := 50

  const MaxFindingLength: nat := 200

  const MaxFindings: nat := 5

  /** `Math.min(Math.max(depth, 1), 5)`. */
  function SearchDepth(depth: int): (d: nat)
    ensures MinDepth <= d <= MaxDepth
    ensures MinDepth <= depth <= MaxDepth ==> d == depth
    ensures depth < MinDepth ==> d == MinDepth
    ensures depth > MaxDepth ==> d == MaxDepth
  {
    Min(Max(depth, MinDepth), MaxDepth)
  }

  /** What extracting each of the top results yields, in search order (the
      requests run concurrently, but each outcome depends only on its URL). */
  function Attempts(top: seq<SearchResult>, fetch: Fetcher): (r: seq<Option<ExtractedContent>>)
    ensures |r| == |top|
  {
    seq(|top|, i requires 0 <= i < |top| => ExtractOutcome(top[i].url, fetch))
  }

  /** The extractions that succeeded, in search order. */
  function Survivors(top: seq<SearchResult>, fetch: Fetcher): seq<ExtractedContent> {
    Somes(Attempts(top, fetch))
  }

  /** `s.trim().length > 50`: what `sentences.find(...)` looks for. */
  predicate Meaningful(s: string) {
    |Trim(s)| > MinSentenceLength
  }

  /** `content.split(/[.!?]+/)`. */
  function Sentences(content: string): seq<string> {
    SplitOnRuns(content, IsSentenceEnd)
  }

  /** The key finding one extracted text contributes: its first sentence longer
      than 50 characters once trimmed, trimmed and cut to 200 characters. */
  function FindingOf(content: string): Option<string> {
    var sentences := Sentences(content);
    match FirstIndex(sentences, Meaningful)
    case None => None
    case Some(i) => Some(Take(Trim(sentences[i]), MaxFindingLength))
  }

  function FindingOfText(text: ExtractedContent): Option<string> {
    FindingOf(text.content)
  }

  /** The key finding of each text, in order, `None` where a text has none. */
  function Findings(valid: seq<ExtractedContent>): (r: seq<Option<string>>)
    ensures |r| == |valid|
  {
    Map(valid, FindingOfText)
  }

  lemma FindingsSnoc(valid: seq<ExtractedContent>, i: nat)
    requires i < |valid|
    ensures Findings(valid[..i + 1]) == Findings(valid[..i]) + [FindingOf(valid[i].content)]
  {
    MapSnoc(valid, FindingOfText, i);
  }

  /** The `k`-th entry is the finding of the `k`-th text. */
  lemma FindingsAt(valid: seq<ExtractedContent>, k: nat)
    requires k < |valid|
    ensures Findings(valid)[k] == FindingOf(valid[k].content)
  {
    MapAt(valid, FindingOfText, k);
  }

  /** The `forEach` that pushes each text's key finding. */
  method CollectKeyFindings(valid: seq<ExtractedContent>) returns (keyFindings: seq<string>)
    ensures keyFindings == Somes(Findings(valid))
  {
    keyFindings := [];
    var i := 0;
    while i < |valid|
      invariant i <= |valid|
      invariant keyFindings == Somes(Findings(valid[..i]))
    {
      var sentences := Sentences(valid[i].content);
      var meaningful := FirstIndex(sentences, Meaningful);
      FindingsSnoc(valid, i);
      SomesSnoc(Findings(valid[..i]), FindingOf(valid[i].content));
      if meaningful.Some? {
        keyFindings := keyFindings + [Take(Trim(sentences[meaningful.value]), MaxFindingLength)];
      }
      i := i + 1;
    }
    assert valid[..|valid|] == valid;
  }

  /** `keyFindings.slice(0, 5)`. */
  function KeyFindings(valid: seq<ExtractedContent>): seq<string> {
    Take(Somes(Findings(valid)), MaxFindings)
  }

  /** `r.source || new URL(r.url).hostname`. */
  function Label(r: SearchResult, hostname: Hostnames): Option<string> {
    if r.source != [] then Some(r.source) else hostname(r.url)
  }

  /** The labels of all top results, or `None` when one of them cannot be
      computed. */
  function Labels(top: seq<SearchResult>, hostname: Hostnames): (r: Option<seq<string>>)
    ensures r.Some? <==> forall i :: 0 <= i < |top| ==> Label(top[i], hostname).Some?
    ensures r.Some? ==> |r.value| == |top| && forall i :: 0 <= i < |top| ==> r.value[i] == Label(top[i], hostname).value
    decreases |top|
  {
    if top == [] then Some([])
    else
      match Label(top[0], hostname)
      case None => None
      case Some(head) =>
        match Labels(top[1..], hostname)
        case None =>
          assert forall i :: 1 <= i < |top| ==> top[i] == top[1..][i - 1];
          None
        case Some(rest) =>
          assert forall i :: 1 <= i < |top| ==> top[i] == top[1..][i - 1];
          Some([head] + rest)
  }

  /** The sum of the word counts. */
  function TotalWords(valid: seq<ExtractedContent>): nat
    decreases |valid|
  {
    if valid == [] then 0 else TotalWords(valid[..|valid| - 1]) + valid[|valid| - 1].metadata.wordCount
  }

  function CompletedSummary(query: string, sources: nat, words: nat, labels: seq<string>): string {
    "Research completed for \"" + query + "\". Analyzed " + DecimalString(sources)
    + " sources with a total of " + DecimalString(words)
    + " words. Key topics covered include information from " + Join(labels, ", ") + "."
  }

  function NoContentSummary(query: string, results: nat): string {
    "Research for \"" + query + "\" found " + DecimalString(results)
    + " results but could not extract detailed content."
  }

  /** The summary: the completed template when some extraction succeeded (which
      needs every top result's label), and otherwise the template that reports
      the number of search results. */
  function Summary(query: string, results: seq<SearchResult>, top: seq<SearchResult>, valid: seq<ExtractedContent>,
                   hostname: Hostnames): Option<string>
  {
    if |valid| > 0 then
      match Labels(top, hostname)
      case None => None
      case Some(labels) => Some(CompletedSummary(query, |valid|, TotalWords(valid), labels))
    else Some(NoContentSummary(query, |results|))
  }

  /** Everything after the search, given its results. */
  function Compose(query: string, results: seq<SearchResult>, d: nat, fetch: Fetcher, hostname: Hostnames, now: string)
    : Result<ResearchResult, ResearchError>
  {
    var top := Take(results, d);
    var valid := Survivors(top, fetch);
    match Summary(query, results, top, valid, hostname)
    case None => Err(HostnameFailed)
    case Some(summary) => Ok(ResearchResult(query, summary, results, KeyFindings(valid), now))
  }

  /** The outcome of `deepResearch(query, depth)` at time `now`. */
  function ResearchOutcome(query: string, depth: int, engine: SearchEngine, fetch: Fetcher, hostname: Hostnames,
                           now: string): Result<ResearchResult, ResearchError>
  {
    var d := SearchDepth(depth);
    match SearchOutcome(query, ResultsPerDepth * d, engine)
    case Err(e) => Err(SearchFailed(e))
    case Ok(results) => Compose(query, results, d, fetch, hostname, now)
  }

  /** `deepResearch`: the search, the extractions, the key findings and the
      summary, with the clock reading passed in as `now`. */
  method DeepResearch(query: string, depth: int, engine: SearchEngine, fetch: Fetcher, hostname: Hostnames,
                      now: string) returns (r: Result<ResearchResult, ResearchError>)
    ensures r == ResearchOutcome(query, depth, engine, fetch, hostname, now)
  {
    var d := SearchDepth(depth);
    var search := WebSearch(query, ResultsPerDepth * d, engine);
    if search.Err? {
      return Err(SearchFailed(search.error));
    }
    var results := search.value;
    var top := Take(results, d);
    var valid := Survivors(top, fetch);
    var keyFindings := CollectKeyFindings(valid);
    var summary := Summary(query, results, top, valid, hostname);
    if summary.None? {
      return Err(HostnameFailed);
    }
    return Ok(ResearchResult(query, summary.value, results, Take(keyFindings, MaxFindings), now));
  }

  // Properties of the research outcome.

  /** The sources are the whole search result list, asked for with a cap of three
      results per unit of clamped depth. */
  lemma SourcesAreSearchResults(query: string, depth: int, engine: SearchEngine, fetch: Fetcher, hostname: Hostnames,
                                now: string)
    requires ResearchOutcome(query, depth, engine, fetch, hostname, now).Ok?
    ensures SearchOutcome(query, ResultsPerDepth * SearchDepth(depth), engine).Ok?
    ensures ResearchOutcome(query, depth, engine, fetch, hostname, now).value.sources ==
              SearchOutcome(query, ResultsPerDepth * SearchDepth(depth), engine).value
    ensures |ResearchOutcome(query, depth, engine, fetch, hostname, now).value.sources| <= ResultsPerDepth * SearchDepth(depth)
    ensures ResearchOutcome(query, depth, engine, fetch, hostname, now).value.query == query
    ensures ResearchOutcome(query, depth, engine, fetch, hostname, now).value.timestamp == now
  {
    var d := SearchDepth(depth);
    assert SearchOutcome(query, ResultsPerDepth * d, engine).Ok?;
  }

  /** Research fails with the search's own error when the search fails, and
      otherwise fails exactly as composing its results does. */
  lemma ResearchFailsWithSearch(query: string, depth: int, engine: SearchEngine, fetch: Fetcher, hostname: Hostnames,
                                now: string)
    ensures SearchOutcome(query, ResultsPerDepth * SearchDepth(depth), engine).Err? ==>
              ResearchOutcome(query, depth, engine, fetch, hostname, now) ==
                Err(SearchFailed(SearchOutcome(query, ResultsPerDepth * SearchDepth(depth), engine).error))
    ensures SearchOutcome(query, ResultsPerDepth * SearchDepth(depth), engine).Ok? ==>
              ResearchOutcome(query, depth, engine, fetch, hostname, now) ==
                Compose(query, SearchOutcome(query, ResultsPerDepth * SearchDepth(depth), engine).value,
                        SearchDepth(depth), fetch, hostname, now)
  {
  }

  /** Given the search results, research fails exactly when some extraction
      succeeded and a top result's label cannot be computed: failed extractions
      never make it fail. */
  lemma ComposeFailsIff(query: string, results: seq<SearchResult>, d: nat, fetch: Fetcher, hostname: Hostnames,
                        now: string)
    ensures Compose(query, results, d, fetch, hostname, now).Err? <==>
              |Survivors(Take(results, d), fetch)| > 0
              && exists i :: 0 <= i < Min(|results|, d) && Label(results[i], hostname).None?
  {
    var top := Take(results, d);
    SummaryFails(query, results, top, Survivors(top, fetch), hostname);
    assert forall i :: 0 <= i < |top| ==> top[i] == results[i];
  }

  lemma SummaryFails(query: string, results: seq<SearchResult>, top: seq<SearchResult>, valid: seq<ExtractedContent>,
                     hostname: Hostnames)
    ensures Summary(query, results, top, valid, hostname).None? <==>
              |valid| > 0 && exists i :: 0 <= i < |top| && Label(top[i], hostname).None?
  {
  }

  /** When no extraction succeeds, research still succeeds, with no key findings
      and the summary that reports how many search results there were; the
      hostnames are not consulted. */
  lemma NothingExtracted(query: string, results: seq<SearchResult>, d: nat, fetch: Fetcher, hostname: Hostnames,
                         other: Hostnames, now: string)
    requires Survivors(Take(results, d), fetch) == []
    ensures Compose(query, results, d, fetch, hostname, now) ==
              Ok(ResearchResult(query, NoContentSummary(query, |results|), results, [], now))
    ensures Compose(query, results, d, fetch, other, now) == Compose(query, results, d, fetch, hostname, now)
  {
    assert Findings([]) == [];
  }

  /** Only the first `searchDepth` results are fetched: pages behind the other
      URLs cannot change the outcome. */
  lemma OnlyTopResultsFetched(query: string, results: seq<SearchResult>, d: nat, fetch: Fetcher, other: Fetcher,
                              hostname: Hostnames, now: string)
    requires forall i :: 0 <= i < Min(|results|, d) ==> fetch(results[i].url) == other(results[i].url)
    ensures Compose(query, results, d, fetch, hostname, now) == Compose(query, results, d, other, hostname, now)
  {
    var top := Take(results, d);
    assert forall i :: 0 <= i < |top| ==> top[i] == results[i];
    assert Attempts(top, fetch) == Attempts(top, other);
  }

  /** The surviving extractions come from at most `searchDepth` results, in
      search order: each is the extraction of a top result at a strictly
      increasing position, and every successful extraction is kept. */
  lemma SurvivorsInOrder(top: seq<SearchResult>, fetch: Fetcher) returns (idx: seq<nat>)
    ensures |idx| == |Survivors(top, fetch)| <= |top|
    ensures forall j :: 0 <= j < |idx| ==>
              idx[j] < |top| && ExtractOutcome(top[idx[j]].url, fetch) == Some(Survivors(top, fetch)[j])
    ensures forall j, k :: 0 <= j < k < |idx| ==> idx[j] < idx[k]
    ensures forall i :: 0 <= i < |top| && ExtractOutcome(top[i].url, fetch).Some? ==> i in idx
  {
    idx := SomesOrigin(Attempts(top, fetch));
  }

  /** Each character of a trimmed string comes from the string. */
  lemma TrimChars(s: string, p: char -> bool)
    requires forall i :: 0 <= i < |s| ==> !p(s[i])
    ensures forall i :: 0 <= i < |Trim(s)| ==> !p(Trim(s)[i])
  {
    var start := TrimIsSlice(s);
    assert forall i :: 0 <= i < |Trim(s)| ==> Trim(s)[i] == s[start + i];
  }

  /** A key finding is longer than 50 and at most 200 characters, holds no
      sentence-ending punctuation and does not start with whitespace. */
  predicate GoodFinding(f: string) {
    MinSentenceLength < |f| <= MaxFindingLength
    && (forall i :: 0 <= i < |f| ==> !IsSentenceEnd(f[i]))
    && !IsWhitespace(f[0])
  }

  /** A sentence long enough and free of sentence-ending punctuation, trimmed and
      cut, is a good finding. */
  lemma GoodCut(sentence: string)
    requires Meaningful(sentence)
    requires forall i :: 0 <= i < |sentence| ==> !IsSentenceEnd(sentence[i])
    ensures GoodFinding(Take(Trim(sentence), MaxFindingLength))
  {
    var t := Trim(sentence);
    TrimChars(sentence, IsSentenceEnd);
    TrimIsTrimmed(sentence);
    var f := Take(t, MaxFindingLength);
    assert forall i :: 0 <= i < |f| ==> f[i] == t[i];
  }

  /** Every key finding is good, and a text yields none exactly when none of its
      sentences is long enough. */
  lemma FindingShape(content: string)
    ensures FindingOf(content).None? <==> forall j :: 0 <= j < |Sentences(content)| ==> !Meaningful(Sentences(content)[j])
    ensures FindingOf(content).Some? ==> GoodFinding(FindingOf(content).value)
  {
    var sentences := Sentences(content);
    var found := FirstIndex(sentences, Meaningful);
    if found.Some? {
      GoodCut(sentences[found.value]);
    }
  }

  /** A key finding is text of its content: it occurs in the content, contiguous
      and unaltered, at position `start`. */
  lemma FindingIsText(content: string, f: string) returns (start: nat)
    requires FindingOf(content) == Some(f)
    ensures start + |f| <= |content| && content[start..start + |f|] == f
  {
    var i := FindingSentence(content);
    start := CutSentenceIsSlice(content, i, f);
  }

  /** The key finding is the `i`-th sentence, trimmed and cut. */
  lemma FindingSentence(content: string) returns (i: nat)
    requires FindingOf(content).Some?
    ensures i < |Sentences(content)|
    ensures FindingOf(content).value == Take(Trim(Sentences(content)[i]), MaxFindingLength)
  {
    i := FirstIndex(Sentences(content), Meaningful).value;
  }

  /** Each sentence, trimmed and cut, is a slice of the content. */
  lemma CutSentenceIsSlice(content: string, i: nat, f: string) returns (start: nat)
    requires i < |Sentences(content)|
    requires f == Take(Trim(Sentences(content)[i]), MaxFindingLength)
    ensures start + |f| <= |content| && content[start..start + |f|] == f
  {
    var outer := SentenceIsSlice(content, i);
    var inner := CutIsSlice(Sentences(content)[i], f);
    start := SliceWithin(content, outer, Sentences(content)[i], inner, f);
  }

  /** Each sentence is a slice of the content. */
  lemma SentenceIsSlice(content: string, i: nat) returns (start: nat)
    requires i < |Sentences(content)|
    ensures var sentence := Sentences(content)[i];
      start + |sentence| <= |content| && content[start..start + |sentence|] == sentence
  {
    var starts := SplitPiecesAreSlices(content, IsSentenceEnd);
    PlacedAt(content, IsSentenceEnd, Sentences(content), starts, i);
    start := starts[i];
  }

  /** A sentence trimmed and cut is a slice of the sentence. */
  lemma CutIsSlice(sentence: string, f: string) returns (start: nat)
    requires f == Take(Trim(sentence), MaxFindingLength)
    ensures start + |f| <= |sentence| && sentence[start..start + |f|] == f
  {
    start := TrimIsSlice(sentence);
    SliceOfSlice(sentence, start, 0, |f|);
  }

  /** A slice of a slice of `s` is a slice of `s`. */
  lemma SliceWithin(s: string, outer: nat, piece: string, inner: nat, f: string) returns (start: nat)
    requires outer + |piece| <= |s| && s[outer..outer + |piece|] == piece
    requires inner + |f| <= |piece| && piece[inner..inner + |f|] == f
    ensures start + |f| <= |s| && s[start..start + |f|] == f
  {
    start := outer + inner;
    SliceOfSlice(s, outer, inner, |f|);
  }

  /** At most five findings, each good. */
  lemma KeyFindingsGood(valid: seq<ExtractedContent>)
    ensures |KeyFindings(valid)| <= MaxFindings
    ensures forall j :: 0 <= j < |KeyFindings(valid)| ==> GoodFinding(KeyFindings(valid)[j])
  {
    var findings := Findings(valid);
    forall i | 0 <= i < |findings| && findings[i].Some? ensures GoodFinding(findings[i].value) {
      FindingsAt(valid, i);
      FindingShape(valid[i].content);
    }
    SomesKeep(findings, GoodFinding);
  }

  /** The findings come from different texts, in the order of the texts: the
      j-th is the finding of the text at a strictly increasing position.  They
      are the first five texts that have a finding: a text with a finding is
      left out only when five findings from earlier texts were kept. */
  lemma KeyFindingsInOrder(valid: seq<ExtractedContent>) returns (idx: seq<nat>)
    ensures |idx| == |KeyFindings(valid)| == Min(|Somes(Findings(valid))|, MaxFindings)
    ensures forall j :: 0 <= j < |idx| ==> idx[j] < |valid| && FindingOf(valid[idx[j]].content) == Some(KeyFindings(valid)[j])
    ensures forall j, k :: 0 <= j < k < |idx| ==> idx[j] < idx[k]
    ensures forall i :: 0 <= i < |valid| && FindingOf(valid[i].content).Some? && i !in idx ==>
              |idx| == MaxFindings && idx[MaxFindings - 1] < i
  {
    idx := TakeSomesOrigin(Findings(valid), MaxFindings);
    forall j | 0 <= j < |idx|
      ensures idx[j] < |valid| && FindingOf(valid[idx[j]].content) == Some(KeyFindings(valid)[j])
    {
      FindingsAt(valid, idx[j]);
    }
    forall i | 0 <= i < |valid| && FindingOf(valid[i].content).Some?
      ensures i in idx || (|idx| == MaxFindings && idx[MaxFindings - 1] < i)
    {
      FindingsAt(valid, i);
    }
  }

  /** Every extracted text counts at least one word, so the completed summary
      never reports fewer words than sources. */
  lemma {:induction false} WordsAtLeastSources(top: seq<SearchResult>, fetch: Fetcher)
    ensures TotalWords(Survivors(top, fetch)) >= |Survivors(top, fetch)|
  {
    var valid := Survivors(top, fetch);
    var idx := SurvivorsInOrder(top, fetch);
    forall j | 0 <= j < |valid| ensures valid[j].metadata.wordCount >= 1 {
      var page := fetch(top[idx[j]].url).document;
      ExtractedShape(top[idx[j]].url, page);
    }
    TotalWordsAtLeast(valid);
  }

  lemma {:induction false} TotalWordsAtLeast(valid: seq<ExtractedContent>)
    requires forall j :: 0 <= j < |valid| ==> valid[j].metadata.wordCount >= 1
    ensures TotalWords(valid) >= |valid|
    decreases |valid|
  {
    if valid != [] {
      TotalWordsAtLeast(valid[..|valid| - 1]);
    }
  }
}
