/** `webSearch`, `newsSearch` and `academicSearch` of src/lib/search-engine.ts:
    query the DuckDuckGo HTML endpoint and map its `.result` nodes to search
    results, unwrapping DuckDuckGo's redirect links. */
module Search {

  import opened Common
  import opened Text
  import opened Uri

  /** One `.result` node, as the HTML parser hands it over: the text and `href` of
      its `.result__title a` anchor (no `href` when the anchor or the attribute is
      missing), the text of `.result__snippet` and of `.result__url`. */
  datatype ResultNode = ResultNode(titleText: string, href: Option<string>, snippetText: string, urlText: string)

  datatype SearchResult = SearchResult(title: string, url: string, snippet: string, source: string)

  /** Why a search fails: the HTTP request (transport, timeout, non-2xx status) or
      `decodeURIComponent` throwing on a redirect link. */
  datatype SearchError = RequestFailed | MalformedRedirect

  /** The search provider, as seen through one GET per request URL. */
  type SearchEngine = string -> Fetch<seq<ResultNode>>

  const SearchEndpoint: string := "https://html.duckduckgo.com/html/?q="

  /** The query parameter of a DuckDuckGo redirect link that carries the target. */
  const Marker: string := "uddg="

  const NewsSuffix: string := " news latest"

  const AcademicSuffix: string := " research paper study"

  function SearchUrl(query: string): string {
    SearchEndpoint + EncodeURIComponent(query)
  }

  /** The query can be read back from the request URL, so different queries
      request different pages. */
  lemma SearchUrlRecoversQuery(query: string)
    ensures SearchUrl(query)[..|SearchEndpoint|] == SearchEndpoint
    ensures DecodeURIComponent(SearchUrl(query)[|SearchEndpoint|..]) == Some(query)
  {
    assert SearchUrl(query)[|SearchEndpoint|..] == EncodeURIComponent(query);
    DecodeEncode(query);
  }

  lemma SearchUrlInjective(q1: string, q2: string)
    ensures SearchUrl(q1) == SearchUrl(q2) ==> q1 == q2
  {
    SearchUrlRecoversQuery(q1);
    SearchUrlRecoversQuery(q2);
  }

  /** `s.includes('uddg=')`. */
  predicate HasMarker(s: string)
    decreases |s|
  {
    |s| >= 5 && (s[..5] == Marker || HasMarker(s[1..]))
  }

  /** The longest prefix without `&`: what `[^&]+` consumes. */
  function UntilAmpersand(s: string): (r: string)
    ensures |r| <= |s| && r == s[..|r|]
    ensures forall i :: 0 <= i < |r| ==> r[i] != '&'
    ensures |r| < |s| ==> s[|r|] == '&'
    decreases |s|
  {
    if s == [] || s[0] == '&' then [] else [s[0]] + UntilAmpersand(s[1..])
  }

  lemma {:induction false} UntilAmpersandStops(e: string, tail: string)
    requires forall i :: 0 <= i < |e| ==> e[i] != '&'
    requires tail == [] || tail[0] == '&'
    ensures UntilAmpersand(e + tail) == e
    decreases |e|
  {
    if e == [] {
      assert e + tail == tail;
    } else {
      assert (e + tail)[1..] == e[1..] + tail;
      UntilAmpersandStops(e[1..], tail);
    }
  }

  /** The capture of `s.match(/uddg=([^&]+)/)`: the leftmost `uddg=` followed by
      at least one character other than `&`, and the run of such characters. */
  function RedirectTarget(s: string): (r: Option<string>)
    ensures r.Some? ==> r.value != [] && HasMarker(s)
    ensures r.Some? ==> forall i :: 0 <= i < |r.value| ==> r.value[i] != '&'
    decreases |s|
  {
    if |s| < 6 then None
    else if s[..5] == Marker && s[5] != '&' then Some(UntilAmpersand(s[5..]))
    else RedirectTarget(s[1..])
  }

  /** The link a search result points to. */
  function UnwrapRedirect(href: string): (r: Result<string, SearchError>)
    ensures !HasMarker(href) ==> r == Ok(href)
    ensures r.Err? ==> r.error == MalformedRedirect
  {
    if !HasMarker(href) then Ok(href)
    else match RedirectTarget(href)
      case None => Ok(href)
      case Some(encoded) =>
        match DecodeURIComponent(encoded)
        case None => Err(MalformedRedirect)
        case Some(target) => Ok(target)
  }

  lemma {:induction false} MarkerAfterPrefix(p: string, x: string)
    ensures HasMarker(p + Marker + x)
    decreases |p|
  {
    var s := p + Marker + x;
    if p == [] {
      assert s[..5] == Marker;
    } else {
      assert s[1..] == p[1..] + Marker + x;
      MarkerAfterPrefix(p[1..], x);
    }
  }

  /** When the prefix holds no `uddg=`, the regular expression matches at the
      `uddg=` that follows it (no occurrence can straddle the boundary, because
      `=` is the last character of the marker). */
  lemma {:induction false} TargetAfterPlainPrefix(p: string, x: string)
    requires !HasMarker(p) && x != [] && x[0] != '&'
    ensures RedirectTarget(p + Marker + x) == Some(UntilAmpersand(x))
    decreases |p|
  {
    var s := p + Marker + x;
    if p == [] {
      assert s[..5] == Marker && s[5..] == x;
    } else {
      if |p| >= 5 {
        assert s[..5] == p[..5];
      } else {
        assert s[4] == Marker[4 - |p|];
      }
      assert s[1..] == p[1..] + Marker + x;
      TargetAfterPlainPrefix(p[1..], x);
    }
  }

  /** A link whose first `uddg=` is followed by a non-empty run without `&`, and
      then by the end of the link or by further parameters, unwraps to the
      decoding of that run, and fails when the decoding throws. */
  lemma UnwrapTarget(p: string, x: string, tail: string)
    requires !HasMarker(p) && x != []
    requires forall i :: 0 <= i < |x| ==> x[i] != '&'
    requires tail == [] || tail[0] == '&'
    ensures UnwrapRedirect(p + Marker + x + tail) ==
              match DecodeURIComponent(x)
              case None => Err(MalformedRedirect)
              case Some(target) => Ok(target)
  {
    var y := x + tail;
    assert p + Marker + x + tail == p + Marker + y;
    assert y[0] == x[0];
    MarkerAfterPrefix(p, y);
    TargetAfterPlainPrefix(p, y);
    UntilAmpersandStops(x, tail);
  }

  /** A redirect link `p + "uddg=" + encodeURIComponent(u)`, optionally followed by
      further parameters, unwraps to exactly `u`. */
  lemma UnwrapRoundTrip(p: string, u: string, tail: string)
    requires !HasMarker(p) && u != []
    requires tail == [] || tail[0] == '&'
    ensures UnwrapRedirect(p + Marker + EncodeURIComponent(u) + tail) == Ok(u)
  {
    EncodeHasNoAmpersand(u);
    DecodeEncode(u);
    UnwrapTarget(p, EncodeURIComponent(u), tail);
  }

  /** With nothing after the first `uddg=`, `[^&]+` cannot match there; when no
      other marker follows, the link passes through unchanged. */
  lemma UnwrapEmptyTarget(p: string)
    requires !HasMarker(p)
    ensures UnwrapRedirect(p + Marker) == Ok(p + Marker)
  {
    MarkerAfterPrefix(p, []);
    assert p + Marker + [] == p + Marker;
    NoTargetAtEnd(p);
  }

  lemma {:induction false} NoTargetAtEnd(p: string)
    requires !HasMarker(p)
    ensures RedirectTarget(p + Marker) == None
    decreases |p|
  {
    var s := p + Marker;
    if p != [] {
      if |p| >= 5 {
        assert s[..5] == p[..5];
      } else {
        assert s[4] == Marker[4 - |p|];
      }
      assert s[1..] == p[1..] + Marker;
      NoTargetAtEnd(p[1..]);
    }
  }

  /** An empty target does not stop the search for a match: when the first
      `uddg=` is followed by `&`, the link unwraps to what a later `uddg=`
      carries (`p + "uddg=&uddg=zz"` unwraps to `zz`). */
  lemma UnwrapSkipsEmptyTarget(p: string, x: string, tail: string)
    requires !HasMarker(p) && x != []
    requires forall i :: 0 <= i < |x| ==> x[i] != '&'
    requires tail == [] || tail[0] == '&'
    ensures UnwrapRedirect(p + Marker + "&" + (Marker + x + tail)) ==
              match DecodeURIComponent(x)
              case None => Err(MalformedRedirect)
              case Some(target) => Ok(target)
  {
    TargetBehindEmpty(p, x, tail);
  }

  /** The general form: after a marker-free prefix, a `uddg=` directly followed
      by `&` is passed over, so the link unwraps as the rest `w` does when `w`
      holds a match, and passes through unchanged when it does not.  Applied
      repeatedly it covers any number of empty targets in a row. */
  lemma UnwrapPastEmpty(p: string, w: string)
    requires !HasMarker(p)
    ensures RedirectTarget(w).Some? ==> UnwrapRedirect(p + Marker + "&" + w) == UnwrapRedirect(w)
    ensures RedirectTarget(w).None? ==>
              UnwrapRedirect(p + Marker + "&" + w) == Ok(p + Marker + "&" + w)
  {
    MarkerAfterPrefix(p, "&" + w);
    assert p + Marker + "&" + w == p + Marker + ("&" + w);
    TargetPastEmpty(p, w);
  }

  lemma TargetBehindEmpty(p: string, x: string, tail: string)
    requires !HasMarker(p) && x != []
    requires forall i :: 0 <= i < |x| ==> x[i] != '&'
    requires tail == [] || tail[0] == '&'
    ensures HasMarker(p + Marker + "&" + (Marker + x + tail))
    ensures RedirectTarget(p + Marker + "&" + (Marker + x + tail)) == Some(x)
  {
    var w := Marker + x + tail;
    MarkerAfterPrefix(p, "&" + w);
    assert p + Marker + "&" + w == p + Marker + ("&" + w);
    TargetPastEmpty(p, w);
    TargetAtStart(x, tail);
  }

  /** A marker at the very start captures the run behind it. */
  lemma TargetAtStart(x: string, tail: string)
    requires x != [] && forall i :: 0 <= i < |x| ==> x[i] != '&'
    requires tail == [] || tail[0] == '&'
    ensures RedirectTarget(Marker + x + tail) == Some(x)
  {
    var s := Marker + x + tail;
    assert s[..5] == Marker && s[5] == x[0];
    assert s[5..] == x + tail;
    UntilAmpersandStops(x, tail);
  }

  /** A `uddg=` followed by `&` after a marker-free prefix is passed over. */
  lemma {:induction false} TargetPastEmpty(p: string, w: string)
    requires !HasMarker(p)
    ensures RedirectTarget(p + Marker + "&" + w) == RedirectTarget(w)
    decreases |p|
  {
    var s := p + Marker + "&" + w;
    if p == [] {
      assert s[..5] == Marker && s[5] == '&';
      assert s[1..] == "ddg=&" + w;
      TargetSkipsPlain("ddg=&", w);
    } else {
      if |p| >= 5 {
        assert s[..5] == p[..5];
      } else {
        assert s[4] == Marker[4 - |p|];
      }
      assert s[1..] == p[1..] + Marker + "&" + w;
      TargetPastEmpty(p[1..], w);
    }
  }

  /** No match starts inside a stretch without `u`. */
  lemma {:induction false} TargetSkipsPlain(q: string, w: string)
    requires forall i :: 0 <= i < |q| ==> q[i] != 'u'
    ensures RedirectTarget(q + w) == RedirectTarget(w)
    decreases |q|
  {
    var s := q + w;
    if q == [] {
      assert s == w;
    } else if |s| >= 6 {
      assert s[0] == q[0] && s[..5][0] == s[0];
      assert s[1..] == q[1..] + w;
      TargetSkipsPlain(q[1..], w);
    }
  }

  /** A redirect target that does not decode makes the unwrapping fail. */
  lemma UnwrapUndecodable(p: string, x: string, tail: string)
    requires !HasMarker(p) && x != []
    requires forall i :: 0 <= i < |x| ==> x[i] != '&'
    requires tail == [] || tail[0] == '&'
    requires DecodeURIComponent(x) == None
    ensures UnwrapRedirect(p + Marker + x + tail) == Err(MalformedRedirect)
  {
    UnwrapTarget(p, x, tail);
  }

  /** A redirect target with a `%` not followed by two hexadecimal digits, after
      any decodable start and before any further parameters, makes the
      unwrapping, and with it the whole search, fail. */
  lemma UnwrapRejectsBadEscape(p: string, plain: string, rest: string, tail: string)
    requires !HasMarker(p)
    requires DecodeURIComponent(plain).Some?
    requires forall i :: 0 <= i < |plain| ==> plain[i] != '&'
    requires forall i :: 0 <= i < |rest| ==> rest[i] != '&'
    requires !(|rest| >= 2 && IsHexDigit(rest[0]) && IsHexDigit(rest[1]))
    requires tail == [] || tail[0] == '&'
    ensures UnwrapRedirect(p + Marker + (plain + "%" + rest) + tail) == Err(MalformedRedirect)
  {
    var x := plain + "%" + rest;
    forall i | 0 <= i < |x|
      ensures x[i] != '&'
    {
      if i < |plain| {
        assert x[i] == plain[i];
      } else if i > |plain| {
        assert x[i] == rest[i - |plain| - 1];
      }
    }
    DecodeRejectsBadEscape(plain, rest);
    UnwrapUndecodable(p, x, tail);
  }

  /** A redirect target with an escaped octet that cannot start a UTF-8 sequence,
      after any decodable start, makes the unwrapping fail too. */
  lemma UnwrapRejectsBadLead(p: string, plain: string, b: Byte, rest: string, tail: string)
    requires !HasMarker(p)
    requires DecodeURIComponent(plain).Some?
    requires forall i :: 0 <= i < |plain| ==> plain[i] != '&'
    requires forall i :: 0 <= i < |rest| ==> rest[i] != '&'
    requires 0x80 <= b < 0xC0 || b >= 0xF8
    requires tail == [] || tail[0] == '&'
    ensures UnwrapRedirect(p + Marker + (plain + Escape(b) + rest) + tail) == Err(MalformedRedirect)
  {
    var e := Escape(b);
    var x := plain + e + rest;
    forall i | 0 <= i < |x|
      ensures x[i] != '&'
    {
      if i < |plain| {
        assert x[i] == plain[i];
      } else if i < |plain| + 3 {
        assert x[i] == e[i - |plain|];
      } else {
        assert x[i] == rest[i - |plain| - 3];
      }
    }
    DecodeRejectsBadLead(plain, b, rest);
    UnwrapUndecodable(p, x, tail);
  }

  /** `titleEl.attr('href') || ''`. */
  function Href(node: ResultNode): string {
    match node.href
    case None => []
    case Some(h) => h
  }

  /** A search result as the source promises it: a non-empty title without
      surrounding whitespace, and a non-empty URL. */
  predicate WellFormed(r: SearchResult) {
    r.title != [] && IsTrimmed(r.title) && r.url != []
  }

  /** What one `.result` node contributes: an error when its redirect link is
      malformed (checked before the title), nothing when the title or the link is
      empty, and otherwise a result. */
  function NodeEntry(node: ResultNode): (r: Result<Option<SearchResult>, SearchError>)
    ensures r.Err? <==> UnwrapRedirect(Href(node)).Err?
    ensures r.Ok? ==> (r.value.None? <==> Trim(node.titleText) == [] || UnwrapRedirect(Href(node)).value == [])
    ensures r.Ok? && r.value.Some? ==> WellFormed(r.value.value)
    ensures r.Ok? && r.value.Some? ==>
              r.value.value == SearchResult(Trim(node.titleText), UnwrapRedirect(Href(node)).value,
                                            Trim(node.snippetText), Trim(node.urlText))
  {
    var title := Trim(node.titleText);
    var snippet := Trim(node.snippetText);
    var source := Trim(node.urlText);
    TrimIsTrimmed(node.titleText);
    match UnwrapRedirect(Href(node))
    case Err(e) => Err(e)
    case Ok(actualUrl) =>
      if title != [] && actualUrl != [] then Ok(Some(SearchResult(title, actualUrl, snippet, source)))
      else Ok(None)
  }

  /** The entry of every node, in document order. */
  function Entries(nodes: seq<ResultNode>): (r: seq<Result<Option<SearchResult>, SearchError>>)
    ensures |r| == |nodes|
  {
    Map(nodes, NodeEntry)
  }

  /** How many `.result` nodes the loop looks at: it stops at the first index
      that reaches `maxResults`. */
  function Cap(maxResults: int, count: nat): (k: nat)
    ensures k <= count && k <= Max(maxResults, 0)
    ensures k == count || k == Max(maxResults, 0)
  {
    if maxResults <= 0 then 0 else Min(maxResults, count)
  }

  /** The results of a parsed search page: the entries of the first
      `maxResults` nodes, failing on the first malformed redirect link. */
  function PageResults(nodes: seq<ResultNode>, maxResults: int): (r: Result<seq<SearchResult>, SearchError>)
    ensures r.Ok? ==> |r.value| <= Min(Max(maxResults, 0), |nodes|)
  {
    Gather(Entries(nodes)[..Cap(maxResults, |nodes|)])
  }

  /** The outcome of `webSearch(query, maxResults)`. */
  function SearchOutcome(query: string, maxResults: int, engine: SearchEngine): Result<seq<SearchResult>, SearchError> {
    match engine(SearchUrl(query))
    case Failed => Err(RequestFailed)
    case Loaded(nodes) => PageResults(nodes, maxResults)
  }

  /** `webSearch`: one GET of the search page, then the `.result` loop. */
  method WebSearch(query: string, maxResults: int, engine: SearchEngine)
    returns (r: Result<seq<SearchResult>, SearchError>)
    ensures r == SearchOutcome(query, maxResults, engine)
  {
    var response := engine(SearchUrl(query));
    if response.Failed? {
      return Err(RequestFailed);
    }
    var nodes := response.document;
    r := EachResult(nodes, NodeEntry, maxResults);
  }

  /** The `.result` loop of `webSearch`, over any per-node `step`: walks the nodes
      in document order, stops at the first node whose index reaches `maxResults`,
      pushes what each step yields and fails on the first step that fails. */
  method EachResult<X, V, E>(nodes: seq<X>, step: X -> Result<Option<V>, E>, maxResults: int)
    returns (r: Result<seq<V>, E>)
    ensures r == Gather(Map(nodes, step)[..Cap(maxResults, |nodes|)])
  {
    ghost var es := Map(nodes, step);
    ghost var cap := Cap(maxResults, |nodes|);
    var results: seq<V> := [];
    var index := 0;
    while index < |nodes|
      invariant index <= cap
      invariant Gather(es[..index]) == Ok(results)
    {
      if index >= maxResults {
        break;
      }
      var entry := step(nodes[index]);
      assert es[..index + 1] == es[..index] + [entry];
      GatherSnoc(es[..index], entry);
      if entry.Err? {
        assert es[..cap][..index + 1] == es[..index + 1];
        GatherErrPersists(es[..cap], index + 1);
        return Err(entry.error);
      }
      if entry.value.Some? {
        results := results + [entry.value.value];
      }
      index := index + 1;
    }
    return Ok(results);
  }

  /** `newsSearch`: a web search for the query with " news latest" appended. */
  method NewsSearch(query: string, maxResults: int, engine: SearchEngine)
    returns (r: Result<seq<SearchResult>, SearchError>)
    ensures r == SearchOutcome(query + NewsSuffix, maxResults, engine)
  {
    r := WebSearch(query + NewsSuffix, maxResults, engine);
  }

  /** `academicSearch`: a web search for the query with " research paper study" appended. */
  method AcademicSearch(query: string, maxResults: int, engine: SearchEngine)
    returns (r: Result<seq<SearchResult>, SearchError>)
    ensures r == SearchOutcome(query + AcademicSuffix, maxResults, engine)
  {
    r := WebSearch(query + AcademicSuffix, maxResults, engine);
  }

  // Properties of a search page's results.

  /** The search fails exactly when one of the first `maxResults` nodes has a
      malformed redirect link; an empty page is an ordinary, empty result. */
  lemma ResultsFailIff(nodes: seq<ResultNode>, maxResults: int)
    ensures PageResults(nodes, maxResults).Err? <==>
              exists i :: 0 <= i < Cap(maxResults, |nodes|) && UnwrapRedirect(Href(nodes[i])).Err?
    ensures PageResults([], maxResults) == Ok([])
  {
    var prefix := Entries(nodes)[..Cap(maxResults, |nodes|)];
    GatherMeaning(prefix);
    assert forall i :: 0 <= i < |prefix| ==> prefix[i] == NodeEntry(nodes[i]);
    assert Entries([])[..Cap(maxResults, 0)] == [];
  }

  /** The results come from the first `maxResults` nodes in document order: each
      result is the entry of a node at a strictly increasing position below the
      cap, and every node that yields an entry is represented. */
  lemma ResultsInDocumentOrder(nodes: seq<ResultNode>, maxResults: int) returns (idx: seq<nat>)
    requires PageResults(nodes, maxResults).Ok?
    ensures |idx| == |PageResults(nodes, maxResults).value|
    ensures forall j :: 0 <= j < |idx| ==>
              idx[j] < Cap(maxResults, |nodes|) && NodeEntry(nodes[idx[j]]) == Ok(Some(PageResults(nodes, maxResults).value[j]))
    ensures forall j, k :: 0 <= j < k < |idx| ==> idx[j] < idx[k]
    ensures forall i :: 0 <= i < Cap(maxResults, |nodes|) && NodeEntry(nodes[i]).Ok? && NodeEntry(nodes[i]).value.Some? ==> i in idx
  {
    var prefix := Entries(nodes)[..Cap(maxResults, |nodes|)];
    GatherMeaning(prefix);
    idx := SomesOrigin(Present(prefix));
    forall j | 0 <= j < |idx|
      ensures NodeEntry(nodes[idx[j]]) == Ok(Some(PageResults(nodes, maxResults).value[j]))
    {
      assert prefix[idx[j]] == NodeEntry(nodes[idx[j]]);
    }
    forall i | 0 <= i < Cap(maxResults, |nodes|) && NodeEntry(nodes[i]).Ok? && NodeEntry(nodes[i]).value.Some?
      ensures i in idx
    {
      assert prefix[i] == NodeEntry(nodes[i]);
      assert Present(prefix)[i].Some?;
    }
  }

  /** Each result is built from its node: the trimmed title, the unwrapped link,
      the trimmed snippet and the trimmed source label. */
  lemma ResultsCarryNodeFields(nodes: seq<ResultNode>, maxResults: int) returns (idx: seq<nat>)
    requires PageResults(nodes, maxResults).Ok?
    ensures |idx| == |PageResults(nodes, maxResults).value|
    ensures forall j, k :: 0 <= j < k < |idx| ==> idx[j] < idx[k]
    ensures forall j :: 0 <= j < |idx| ==>
              idx[j] < Cap(maxResults, |nodes|) &&
              var r, node := PageResults(nodes, maxResults).value[j], nodes[idx[j]];
              r.title == Trim(node.titleText) &&
              UnwrapRedirect(Href(node)) == Ok(r.url) &&
              r.snippet == Trim(node.snippetText) && r.source == Trim(node.urlText)
  {
    idx := ResultsInDocumentOrder(nodes, maxResults);
  }

  /** A node whose link is a DuckDuckGo redirect to `u` and whose title is not
      blank yields a result pointing at exactly `u`. */
  lemma RedirectNodeEntry(node: ResultNode, p: string, u: string, tail: string)
    requires node.href == Some(p + Marker + EncodeURIComponent(u) + tail)
    requires !HasMarker(p) && u != [] && (tail == [] || tail[0] == '&')
    requires Trim(node.titleText) != []
    ensures NodeEntry(node) == Ok(Some(SearchResult(Trim(node.titleText), u, Trim(node.snippetText), Trim(node.urlText))))
  {
    UnwrapRoundTrip(p, u, tail);
  }

  /** Every result has a non-empty trimmed title and a non-empty URL. */
  lemma ResultsWellFormed(nodes: seq<ResultNode>, maxResults: int)
    ensures PageResults(nodes, maxResults).Ok? ==>
              forall j :: 0 <= j < |PageResults(nodes, maxResults).value| ==> WellFormed(PageResults(nodes, maxResults).value[j])
  {
    if PageResults(nodes, maxResults).Ok? {
      var idx := ResultsInDocumentOrder(nodes, maxResults);
      forall j | 0 <= j < |idx| ensures WellFormed(PageResults(nodes, maxResults).value[j]) {
        assert NodeEntry(nodes[idx[j]]) == Ok(Some(PageResults(nodes, maxResults).value[j]));
      }
    }
  }

  /** Nodes after the first `maxResults` are never looked at. */
  lemma ResultsIgnoreLaterNodes(nodes: seq<ResultNode>, later: seq<ResultNode>, maxResults: int)
    requires |nodes| >= maxResults
    ensures PageResults(nodes + later, maxResults) == PageResults(nodes, maxResults)
  {
    var k := Cap(maxResults, |nodes|);
    assert Cap(maxResults, |nodes + later|) == k;
    assert Entries(nodes + later)[..k] == Entries(nodes)[..k];
  }

  /** A dropped node still uses up one of the `maxResults` slots: the cap counts
      nodes, not results. */
  lemma DroppedNodeUsesSlot(node: ResultNode, nodes: seq<ResultNode>, maxResults: int)
    requires maxResults >= 1 && NodeEntry(node) == Ok(None)
    ensures PageResults([node] + nodes, maxResults) == PageResults(nodes, maxResults - 1)
  {
    var k := Cap(maxResults - 1, |nodes|);
    var es := Entries(nodes);
    calc {
      PageResults([node] + nodes, maxResults);
      { assert Cap(maxResults, |[node] + nodes|) == k + 1; }
      Gather(Entries([node] + nodes)[..k + 1]);
      { EntriesCons(node, nodes); }
      Gather(([NodeEntry(node)] + es)[..k + 1]);
      { TakeCons(NodeEntry(node), es, k); }
      Gather([Ok(None)] + es[..k]);
      { GatherSkipsNone(es[..k]); }
      PageResults(nodes, maxResults - 1);
    }
  }

  lemma EntriesCons(node: ResultNode, nodes: seq<ResultNode>)
    ensures Entries([node] + nodes) == [NodeEntry(node)] + Entries(nodes)
  {
    MapCons(node, nodes, NodeEntry);
  }

  /** When every node in range yields an entry, the search returns exactly
      `min(maxResults, nodes)` results, the i-th from the i-th node (five good
      nodes and a cap of three give those first three). */
  lemma ResultsOfGoodPage(nodes: seq<ResultNode>, maxResults: int)
    requires forall i :: 0 <= i < Cap(maxResults, |nodes|) ==> NodeEntry(nodes[i]).Ok? && NodeEntry(nodes[i]).value.Some?
    ensures PageResults(nodes, maxResults).Ok?
    ensures |PageResults(nodes, maxResults).value| == Cap(maxResults, |nodes|)
    ensures forall i :: 0 <= i < Cap(maxResults, |nodes|) ==> Some(PageResults(nodes, maxResults).value[i]) == NodeEntry(nodes[i]).value
  {
    var prefix := Entries(nodes)[..Cap(maxResults, |nodes|)];
    forall i | 0 <= i < |prefix|
      ensures prefix[i].Ok? && prefix[i].value.Some?
    {
      assert prefix[i] == NodeEntry(nodes[i]);
    }
    GatherAllPresent(prefix);
    assert PageResults(nodes, maxResults) == Gather(prefix);
    forall i | 0 <= i < |prefix|
      ensures Some(PageResults(nodes, maxResults).value[i]) == NodeEntry(nodes[i]).value
    {
      assert prefix[i] == NodeEntry(nodes[i]);
    }
  }
}
