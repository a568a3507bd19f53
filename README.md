# A verified model of the deep-search engine core

This project models `src/lib/search-engine.ts` of the deep-search MCP server. That file is the string-and-list logic that sits between the HTTP requests and the results handed to the MCP tools. It has four parts:

- **Web search.** `webSearch` sends one GET to DuckDuckGo's HTML endpoint with the query percent-encoded. It walks the `.result` nodes in document order, with a cap on the node index. Each field is trimmed, and DuckDuckGo redirect links are unwrapped. The `uddg=` parameter is percent-decoded as in section 2.1 of RFC 3986, with UTF-8 as `decodeURIComponent` does it. Nodes without a title or a link are dropped. A malformed escape makes the whole search fail.
- **Content extraction.** `extractContent` resolves the title and the metadata fallback chains. Main content comes from the first matching selector, with the body as a fallback. It then collapses whitespace, trims, truncates to 50000 characters and counts words.
- **Deep research.** `deepResearch` clamps the depth to [1, 5] and searches with a cap of 3×depth. It extracts the top `depth` results and drops failed extractions, keeping order. It picks one key finding per text (its first sentence longer than 50 characters, cut to 200) and keeps at most five. The summary is one of two templates.
- **Query wrappers.** `newsSearch` and `academicSearch` append a fixed suffix to the query and call `webSearch`.

The model has six modules:

| module | contents |
|---|---|
| `Common` (`common.dfy`) | `Option`, `Result` and a fetch outcome `Fetch` (`Loaded` or `Failed`). Generic sequence functions: `Take` (`slice`/`substring`), `Map` (`Array.prototype.map`), `FirstIndex` (`Array.prototype.find`), `Somes` (filter out the absent values) and `Gather`. `Gather` describes a loop that stops at the first error and otherwise keeps the present values. |
| `Text` (`text.dfy`) | The JavaScript string operations the engine uses: the `\s` character class, `trim()`, `replace(/\s+/g, ' ')`, `split` on a run pattern, `||` on strings, number printing and `join`. |
| `Uri` (`uri.dfy`) | `encodeURIComponent` and `decodeURIComponent` over UTF-8, each in full. Includes the round trip, the failure of malformed escapes and the absence of `&` in encoded text. |
| `Search` (`search.dfy`) | `webSearch`, the redirect unwrap, `newsSearch`, `academicSearch`. |
| `Extract` (`extract.dfy`) | `extractContent`. |
| `Research` (`research.dfy`) | `deepResearch`. |

The network is one function per module, from a request URL to an outcome:

- `Search.SearchEngine` yields the parsed `.result` nodes or a failure.
- `Extract.Fetcher` yields the parsed page or a failure.

A parsed page (`Extract.Page`) gives, after the non-content tags are removed:

- the trimmed-before-use texts and the attributes the metadata chains read;
- for each main-content selector that matches an element, the text of its first match;
- the body text.

The source's imperative parts are written as methods with loops:

- `Search.EachResult` is the `.each` loop, with its early exit;
- `Extract.SelectContent` is the selector loop, with its `break` and the body fallback;
- `Research.CollectKeyFindings` is the `forEach` that pushes key findings.

Each is proved equal to a specification function, and the properties are proved as lemmas about those functions. The pure parts are functions. The top-level calls are the methods `Search.WebSearch`, `Extract.ExtractContent` and `Research.DeepResearch`.

Where the code does something other than its names and comments suggest, the model follows the code:

- **Main content** (lines 155-166). The loop stops at the first selector that matches any element, even when that element's text is empty. Later selectors are then not tried, and the body is read only when the content is empty, not at the first non-empty match (`Extract.LaterSelectorsIgnored`).
- **Result URLs** (lines 83-98). A result is kept whenever its unwrapped URL is non-empty. Nothing checks that the URL is absolute, or that it parses.
- **No-content summary** (line 235). It reports the number of search results ("found N results but could not extract detailed content"), not a count of zero analysed sources.
- **Where deep research can fail** (line 234). It also fails when a top result has no source label and its URL does not parse, because `new URL(...)` throws inside the summary template. This can only happen when some extraction succeeded (`Research.ComposeFailsIff`).
- **Blank-line rule** (lines 170-171). The second `replace` of the cleanup chain (`/\n\s*\n/g`) cannot match, because the first one has already turned every newline into a space (`Extract.CollapsedHasNoNewline`). The model therefore has no blank-line-preservation step.
- **Empty redirect targets** (lines 84-88). `[^&]+` needs at least one character, so a `uddg=` followed directly by `&` or by the end of the link is no match there. The regular expression then tries later positions: after a marker-free prefix, `uddg=&` is passed over and the link unwraps as the rest does (`Search.UnwrapPastEmpty`), so `p + "uddg=" + "&uddg=zz"` unwraps to `zz` (`Search.UnwrapSkipsEmptyTarget`) and `uddg=&uddg=&uddg=x` to the decoding of `x`. A link `p + "uddg="` with no other marker passes through unchanged (`Search.UnwrapEmptyTarget`). This is why `Search.UnwrapRoundTrip` needs a non-empty `u`.

## Model

| member | source | states |
|---|---|---|
| Search.SearchUrl | src/lib/search-engine.ts:48-49 | The request URL: `https://html.duckduckgo.com/html/?q=` followed by the encoded query. |
| Search.SearchUrlRecoversQuery | src/lib/search-engine.ts:48-49 | The request URL is the DuckDuckGo endpoint followed by a component that percent-decodes back to the query. |
| Search.SearchUrlInjective | src/lib/search-engine.ts:48-49 | Different queries request different URLs. |
| Uri.EncodeURIComponent | src/lib/search-engine.ts:48 | `encodeURIComponent`: keeps `A-Z a-z 0-9 - _ . ! ~ * ' ( )` and writes every other character as the `%XX` escapes, in upper-case hexadecimal, of its UTF-8 octets. |
| Uri.DecodeURIComponent | src/lib/search-engine.ts:87 | `decodeURIComponent`: a character other than `%` stands for itself; a `%XX` escape starts a UTF-8 sequence of one to four escaped octets. It throws (None) when a `%` lacks two hexadecimal digits, a lead octet is a continuation byte or 0xF8 and above, a continuation octet is missing or malformed, or the code point is overlong, a surrogate or above U+10FFFF. |
| Uri.DecodeEncode | src/lib/search-engine.ts:87 | `decodeURIComponent(encodeURIComponent(s)) == s` for every string. |
| Uri.DecodeEncodedChar | src/lib/search-engine.ts:87 | Decoding the UTF-8 escapes of one character yields that character and consumes exactly its escapes, whatever follows. |
| Uri.DecodeOneOctet | src/lib/search-engine.ts:87 | An escaped ASCII character decodes back from its single escape. |
| Uri.DecodeTwoOctets | src/lib/search-engine.ts:87 | A character below U+0800 decodes back from its two escapes. |
| Uri.DecodeThreeOctets | src/lib/search-engine.ts:87 | A character below U+10000 decodes back from its three escapes. |
| Uri.DecodeFourOctets | src/lib/search-engine.ts:87 | A supplementary character decodes back from its four escapes. |
| Uri.DecodeThreeEscapes | src/lib/search-engine.ts:87 | A well-formed three-octet UTF-8 sequence decodes to its code point. |
| Uri.DecodeFourEscapes | src/lib/search-engine.ts:87 | A well-formed four-octet UTF-8 sequence decodes to its code point. |
| Uri.DecodeRejectsBadEscape | src/lib/search-engine.ts:87 | After any decodable prefix, a `%` not followed by two hexadecimal digits makes `decodeURIComponent` fail, whatever follows. |
| Uri.DecodeRejectsBadLead | src/lib/search-engine.ts:87 | After any decodable prefix, an escaped octet that cannot start a UTF-8 sequence (a continuation byte, or 0xF8 and above) makes the decode fail, whatever follows. |
| Uri.DecodeAppend | src/lib/search-engine.ts:87 | When `a` decodes, `a + b` decodes exactly when `b` does, and then to `a`'s decoding followed by `b`'s. |
| Uri.EncodeHasNoAmpersand | src/lib/search-engine.ts:85 | Encoded text never contains `&` and is at least as long as its input, so `[^&]+` captures all of it. |
| Uri.EscapesAreEscaped | src/lib/search-engine.ts:48 | A run of escapes consists only of `%` and hexadecimal digits. |
| Uri.HexDigit | src/lib/search-engine.ts:87 | The digit printed for a value below 16 is a hexadecimal digit that reads back as that value. |
| Search.HasMarker | src/lib/search-engine.ts:84 | `href.includes('uddg=')`: some position of the link starts with `uddg=`. |
| Search.UntilAmpersand | src/lib/search-engine.ts:85 | The capture `[^&]+` is the longest prefix without `&`, and it stops at an `&` or at the end. |
| Search.RedirectTarget | src/lib/search-engine.ts:84-86 | A match exists only when the href contains `uddg=`; its capture is non-empty and has no `&`. |
| Search.TargetAfterPlainPrefix | src/lib/search-engine.ts:85 | When the prefix holds no `uddg=`, the match is at the first marker and captures up to the next `&`. |
| Search.UnwrapRedirect | src/lib/search-engine.ts:83-89 | An href without `uddg=` passes through unchanged; the only failure is a malformed redirect. |
| Search.UnwrapTarget | src/lib/search-engine.ts:83-89 | After a marker-free prefix, a non-empty `&`-free target unwraps to its decoding, and fails exactly when the decoding fails. |
| Search.UnwrapRoundTrip | src/lib/search-engine.ts:83-89 | For a non-empty `u`, `p + "uddg=" + encodeURIComponent(u)`, optionally followed by `&...`, unwraps to exactly `u` when `p` holds no `uddg=`. |
| Search.UnwrapUndecodable | src/lib/search-engine.ts:83-89 | After a marker-free prefix, a non-empty `&`-free target that does not decode yields the redirect error. |
| Search.UnwrapEmptyTarget | src/lib/search-engine.ts:84-88 | A link `p + "uddg="` whose prefix holds no `uddg=` passes through unchanged, because `[^&]+` needs a character. |
| Search.TargetPastEmpty | src/lib/search-engine.ts:85 | After a marker-free prefix, a `uddg=` directly followed by `&` is no match: the capture of `p + "uddg=&" + w` is the capture of `w`, whatever `w` is. |
| Search.UnwrapPastEmpty | src/lib/search-engine.ts:84-88 | After a marker-free prefix, `p + "uddg=&" + w` unwraps exactly as `w` does when `w` holds a match, and passes through unchanged when it does not; applied repeatedly it covers any number of empty targets. |
| Search.UnwrapSkipsEmptyTarget | src/lib/search-engine.ts:84-88 | When `uddg=&` after a marker-free prefix is directly followed by another `uddg=` with a non-empty `&`-free target, the link unwraps to that target's decoding and fails when it does not decode. |
| Search.UnwrapRejectsBadEscape | src/lib/search-engine.ts:83-104 | A target made of any decodable start, then a `%` not followed by two hexadecimal digits, then anything without `&`, yields the redirect error, with or without further `&` parameters. |
| Search.UnwrapRejectsBadLead | src/lib/search-engine.ts:83-104 | The same for a target whose decodable start is followed by an escaped octet that cannot start a UTF-8 sequence. |
| Search.Href | src/lib/search-engine.ts:78 | The link's `href` attribute as read by `titleEl.attr('href')`, with the empty string as default when the attribute is missing. |
| Search.NodeEntry | src/lib/search-engine.ts:77-98 | A node fails exactly when its link fails to unwrap. It is dropped exactly when its trimmed title or its unwrapped URL is empty. What it yields is exactly the trimmed title, the unwrapped URL, the trimmed snippet and the trimmed source, and it is well-formed. |
| Search.RedirectNodeEntry | src/lib/search-engine.ts:77-98 | A titled node whose link is `p + "uddg=" + encodeURIComponent(u)`, with `u` non-empty and an optional `&`-tail, yields the result whose URL is exactly `u`. |
| Search.Cap | src/lib/search-engine.ts:69-70 | The number of nodes visited is the node count or `maxResults` (at least 0), whichever is smaller. |
| Search.PageResults | src/lib/search-engine.ts:67-101 | A page yields at most `min(maxResults, nodes)` results. |
| Search.EachResult | src/lib/search-engine.ts:67-101 | The `.each` loop with its index exit returns the gathered entries of exactly the first `Cap` nodes: the first error, or the present results in order. |
| Search.WebSearch | src/lib/search-engine.ts:43-106 | One request to the search URL. A failed request is a search failure; otherwise the page's results. |
| Search.NewsSearch | src/lib/search-engine.ts:253-260 | Equals the web search for `query + " news latest"` with the same cap. |
| Search.AcademicSearch | src/lib/search-engine.ts:265-272 | Equals the web search for `query + " research paper study"` with the same cap. |
| Search.ResultsFailIff | src/lib/search-engine.ts:83-104 | The search over a page fails exactly when one of the visited nodes has a malformed redirect. A page without nodes yields the empty list. |
| Search.ResultsInDocumentOrder | src/lib/search-engine.ts:69-98 | Each result comes from a distinct visited node, in document order, and every visited node with an entry contributes one. |
| Search.ResultsCarryNodeFields | src/lib/search-engine.ts:69-98 | Result j is the trimmed title, unwrapped URL, trimmed snippet and trimmed source of a visited node, and these nodes are distinct and in document order. |
| Search.ResultsWellFormed | src/lib/search-engine.ts:77-98 | Every result has a non-empty title with no surrounding whitespace and a non-empty URL. |
| Search.ResultsIgnoreLaterNodes | src/lib/search-engine.ts:69-70 | Nodes after the first `maxResults` have no influence on the outcome. |
| Search.DroppedNodeUsesSlot | src/lib/search-engine.ts:69-98 | A dropped first node still uses up one of the `maxResults` slots. |
| Search.ResultsOfGoodPage | src/lib/search-engine.ts:67-101 | When every visited node yields an entry, the result is exactly those entries in order, `Cap` of them. |
| Extract.ResolveTitle | src/lib/search-engine.ts:133-136 | The title is never empty. It is the trimmed `<title>`, else og:title, else the trimmed first h1, else "Untitled", each taken only when the earlier ones are empty. |
| Extract.AttributeChain | src/lib/search-engine.ts:138-148 | The description, author and date chains take the first attribute when it is non-empty, else the second. The result is empty exactly when both are missing or empty. |
| Extract.MatchFrom | src/lib/search-engine.ts:154-161 | The selector found is the first one, in the fixed order, that matches some element. None means no selector matches. |
| Extract.RawContent | src/lib/search-engine.ts:151-166 | The uncleaned content is trimmed, and it is empty exactly when both the main text and the trimmed body are empty. |
| Extract.SelectContent | src/lib/search-engine.ts:151-166 | The selector loop with `break`, followed by the body fallback, computes the raw content. |
| Extract.LaterSelectorsIgnored | src/lib/search-engine.ts:155-166 | Once a selector matches, later selectors and their texts have no influence, even when the matched text is empty; the body then matters only if that text is empty. |
| Extract.BodyOnlyAsFallback | src/lib/search-engine.ts:163-166 | When the main text is non-empty it is the content, and the body text has no influence. |
| Extract.CleanContent | src/lib/search-engine.ts:169-173 | The cleanup chain: every whitespace run becomes one space, then `trim()`, then the cut to 50000 characters. |
| Extract.CollapsedHasNoNewline | src/lib/search-engine.ts:170-171 | After `replace(/\s+/g, ' ')` no newline remains, so the second `replace` never matches. |
| Extract.CleanContentShape | src/lib/search-engine.ts:169-173 | Cleaned content is at most 50000 characters long. It has no newline, no two adjacent whitespace characters, no whitespace but spaces and no leading whitespace. It is a prefix of the collapsed, trimmed text. |
| Extract.CleanContentKeepsText | src/lib/search-engine.ts:169-173 | When the collapsed text fits in 50000 characters, cleanup loses only whitespace: the other characters survive in order. |
| Extract.WordCount | src/lib/search-engine.ts:175 | `content.split(/\s+/).length`: the number of pieces of the split on whitespace runs. |
| Extract.WordCountOfClean | src/lib/search-engine.ts:175 | The word count is the number of spaces in the cleaned content plus one, and it is 1 for empty content. |
| Extract.ExtractContent | src/lib/search-engine.ts:111-192 | One request to the URL. A failed request is a failed extraction; otherwise the page's title, cleaned content, URL and metadata. |
| Extract.ExtractedShape | src/lib/search-engine.ts:133-187 | An extraction keeps the URL and has a non-empty title. Its content has the cleaned shape, and its word count is the number of content spaces plus one. The content is empty exactly when both sources are empty. |
| Extract.CleanOfTrimmedEmpty | src/lib/search-engine.ts:169-173 | Cleanup of an already trimmed text is empty only when that text was empty. |
| Text.IsWhitespace | src/lib/search-engine.ts:77-80 | The `\s` class behind every `trim`, `replace` and `split` on whitespace: exactly the ECMAScript WhiteSpace code points (tab, vertical tab, form feed, space, no-break space, byte order mark and the space separators U+1680, U+2000-U+200A, U+202F, U+205F, U+3000) and LineTerminator code points (line feed, carriage return, U+2028, U+2029). |
| Text.Trim | src/lib/search-engine.ts:77-80 | `trim()`: drops the leading and the trailing characters of the `\s` class. |
| Text.TrimIsSlice | src/lib/search-engine.ts:77-80 | The trimmed text is a contiguous slice of its input. |
| Text.TrimIsTrimmed | src/lib/search-engine.ts:77-80 | `trim()` leaves no whitespace at either end, and it is empty exactly when its input is all whitespace. |
| Text.CollapseWhitespace | src/lib/search-engine.ts:170 | Every whitespace run becomes one space. The result is empty exactly when the input is, and it never grows. |
| Text.CollapseKeepsText | src/lib/search-engine.ts:170 | Collapsing changes only whitespace: with all whitespace removed, input and output are the same text. |
| Text.CollapseKeepsWords | src/lib/search-engine.ts:170-175 | Collapsing keeps the word boundaries: `split(/\s+/)` yields the same pieces before and after. |
| Text.CollapseIdempotent | src/lib/search-engine.ts:170 | Collapsing twice is the same as collapsing once. |
| Text.SplitOnRuns | src/lib/search-engine.ts:175 | `split` on a run pattern yields at least one piece, and no piece contains a separator character. |
| Text.SplitRejoins | src/lib/search-engine.ts:175 | The pieces of a split, joined without separator, are the input with its separator characters removed, and there is one piece more than there are separator runs. |
| Text.SplitPiecesAreSlices | src/lib/search-engine.ts:225 | The pieces of a split lay out the input from left to right: each is a contiguous slice, the first starts the input and the last ends it, and between two neighbours lies a non-empty run of separator characters. |
| Text.SplitCountsWhitespace | src/lib/search-engine.ts:175 | On text with no adjacent whitespace, `split(/\s+/)` yields one piece more than there are whitespace characters. |
| Text.Join | src/lib/search-engine.ts:234 | `join(sep)`: the parts in order, with `sep` between consecutive ones, empty for no parts. |
| Text.JoinAppend | src/lib/search-engine.ts:234 | Joining two non-empty lists equals joining each and putting one `sep` between the two results, so `sep` stands between every two neighbouring labels and nowhere else. |
| Text.DecimalString | src/lib/search-engine.ts:234-235 | How `${n}` prints a non-negative integer count: a non-empty string of decimal digits whose first digit is `0` only for the number 0. |
| Text.DecimalRoundTrip | src/lib/search-engine.ts:234-235 | The counts printed into the summary read back as the same numbers. |
| Research.SearchDepth | src/lib/search-engine.ts:203 | The depth is clamped to [1, 5]: kept inside the range, raised to 1 below it and lowered to 5 above it. |
| Research.Attempts | src/lib/search-engine.ts:209-217 | One extraction outcome per top result, in search order; a failed extraction is None, as the `catch` returns `null`. |
| Research.Survivors | src/lib/search-engine.ts:209-218 | The successful extractions, in search order: the `filter` that drops `null`. |
| Research.Sentences | src/lib/search-engine.ts:225 | `content.split(/[.!?]+/)`. |
| Research.Meaningful | src/lib/search-engine.ts:226 | The test `s.trim().length > 50` that picks the key sentence. |
| Research.FindingOf | src/lib/search-engine.ts:225-229 | The first sentence whose trimmed length exceeds 50, trimmed and cut to 200 characters; None when there is none. |
| Research.CollectKeyFindings | src/lib/search-engine.ts:221-230 | The `forEach` pushes, for each valid text in order, the first meaningful sentence (trimmed and cut to 200), and nothing for a text without one. |
| Research.FindingShape | src/lib/search-engine.ts:225-229 | A text yields no finding exactly when none of its sentences is longer than 50 characters after trimming. A finding is 51 to 200 characters long, starts with a non-whitespace character and contains no `.`, `!` or `?`. |
| Research.FindingIsText | src/lib/search-engine.ts:225-229 | A key finding occurs in its text, contiguous and unaltered. |
| Research.KeyFindings | src/lib/search-engine.ts:241 | `keyFindings.slice(0, 5)`: the first five findings, in the order of the texts. |
| Research.KeyFindingsGood | src/lib/search-engine.ts:223-241 | There are at most 5 key findings, each of that shape. |
| Research.KeyFindingsInOrder | src/lib/search-engine.ts:223-241 | Each key finding comes from a different valid text, in the order of the texts. There are `min(texts with a finding, 5)` of them, and a text with a finding is left out only when five findings from earlier texts were kept. |
| Research.Label | src/lib/search-engine.ts:234 | The label of a top result: its source when non-empty, else the hostname of its URL, None when `new URL` throws. |
| Research.Labels | src/lib/search-engine.ts:234 | The summary labels exist exactly when every top result has a source or a parsable URL; each is the source, else the hostname. |
| Research.TotalWords | src/lib/search-engine.ts:234 | The `reduce` that sums the word counts of the valid texts. |
| Research.CompletedSummary | src/lib/search-engine.ts:234 | The completed template: the query, the number of sources, the word total and the labels joined by `, `. |
| Research.NoContentSummary | src/lib/search-engine.ts:235 | The no-content template: the query and the number of search results. |
| Research.Summary | src/lib/search-engine.ts:233-235 | The completed template when some extraction succeeded, None when a label fails; otherwise the no-content template. |
| Research.DeepResearch | src/lib/search-engine.ts:197-248 | The clamp, the capped search, extraction of the top results, the key findings, the summary and the five-finding cut compose to the research outcome. |
| Research.SourcesAreSearchResults | src/lib/search-engine.ts:206-243 | On success the search with cap `3 × searchDepth` succeeded. `sources` is its whole result list, at most `3 × searchDepth` long. The query and the timestamp are kept. |
| Research.ResearchFailsWithSearch | src/lib/search-engine.ts:201-247 | A failed search makes research fail with the search's own error; otherwise research is the composition of that search's results. |
| Research.ComposeFailsIff | src/lib/search-engine.ts:233-235 | Given the results, research fails exactly when some extraction succeeded and some top result has neither a source nor a parsable URL. |
| Research.NothingExtracted | src/lib/search-engine.ts:235-241 | When no extraction succeeds, research succeeds with the "could not extract" summary reporting the number of search results. It has no key findings and does not depend on the hostnames. |
| Research.OnlyTopResultsFetched | src/lib/search-engine.ts:209 | Only the first `searchDepth` results are fetched: the pages behind the other results have no influence. |
| Research.SurvivorsInOrder | src/lib/search-engine.ts:209-218 | Failed extractions are dropped without aborting. The survivors come from distinct top results in search order, and every successful extraction survives. |
| Research.WordsAtLeastSources | src/lib/search-engine.ts:233-234 | The word total in the completed summary is at least the number of analysed sources. |

## Left out

- HTTP. Request headers, the 10-second timeout and status checks are left out. Each request is one outcome, `Loaded` or `Failed`, looked up by its URL, and every failure (transport, timeout or non-2xx status) is the same failure.
- HTML parsing. Cheerio, CSS-selector matching and the removal of script/style/nav/header/footer/aside/iframe/noscript are a foreign library. The model takes the already selected texts and attributes as input: `Search.ResultNode` and `Extract.Page`.
- Concurrency. The `Promise.all` fan-out is an order-preserving map (`Research.Attempts`), since each result depends only on its position.
- Hostnames. `new URL(url).hostname` is the parameter `hostname`, with `None` where the constructor throws.
- Side effects. The timestamp `new Date().toISOString()` is the parameter `now`, and `console.error` logging is not modelled.
- Error messages. Their text is not modelled: an error says only which step failed (`SearchError`, `ResearchError`). An extraction failure is `None`: the only caller in `src/lib/search-engine.ts`, `deepResearch` (lines 210-215), replaces it with `null`. The message that the `extract_content` tool in `src/app/api/[transport]/route.ts` (lines 83 and 106-113) shows for a failure is left out with the other error texts.
- String lengths. The 50000-, 200- and 50-character limits and the lengths behind them count Unicode scalar values, not UTF-16 code units. A character outside the Basic Multilingual Plane counts as one, not two. Lone surrogates, which would make `encodeURIComponent` throw, cannot occur in the model's strings.
- Numbers. `maxResults` and `depth` are integers. NaN, infinities and fractional numbers are not modelled. The defaults declared at `src/lib/search-engine.ts` lines 45, 199, 255 and 267 (`maxResults = 10`, `depth = 3`) are not modelled: every caller in `src/app/api/[transport]/route.ts` passes an explicit value.
- Search.EachResult: generic over the per-node step and the element types; `Search.WebSearch` passes `Search.NodeEntry` to it. It carries the same loop as the source.
- Research.DeepResearch: computes the surviving extractions with the `Research.Survivors` function, not with a loop. The source has no loop there, only `map`, `Promise.all` and `filter`.
- Other files. `src/app/page.tsx`, `src/app/layout.tsx`, `next.config.ts`, `src/app/.well-known/oauth-protected-resource/route.ts` and `src/types/mcp.ts` hold no search logic and are not part of this model. Neither is the input validation done by the MCP route.
