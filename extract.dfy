/** `extractContent` of src/lib/search-engine.ts: fetch a page and turn its parsed
    document into a title, metadata and a cleaned, truncated main text. */
module Extract {

  import opened Common
  import opened Text

  /** A fetched page after the non-content elements (scripts, styles, navigation,
      headers, footers, asides, frames) have been removed, reduced to what the
      extractor reads: the text of `<title>`, of the first `<h1>` (empty when there
      is none) and of `<body>`; the `content` or `datetime` attributes it consults
      (absent when the element or the attribute is missing); and, for each CSS
      selector that matches at least one element, the text of its first match. */
  datatype Page = Page(
    titleText: string,
    ogTitle: Option<string>,
    firstH1Text: string,
    metaDescription: Option<string>,
    ogDescription: Option<string>,
    metaAuthor: Option<string>,
    articleAuthor: Option<string>,
    articlePublishedTime: Option<string>,
    timeDatetime: Option<string>,
    firstMatch: map<string, string>,
    bodyText: string)

  datatype Metadata = Metadata(description: string, author: string, publishedDate: string, wordCount: nat)

  datatype ExtractedContent = ExtractedContent(title: string, content: string, url: string, metadata: Metadata)

  /** The page source, as seen through one GET per URL. */
  type Fetcher = string -> Fetch<Page>

  const MaxContentLength: nat := 50000

  const TitleFallback: string := "Untitled"

  /** The main-content selectors, tried in this order. */
  const MainSelectors: seq<string> := ["article", "main", ".content", ".post-content", ".entry-content", "#content"]

  /** An attribute read with `attr(...)`, where a missing one reads as `''` under `||`. */
  function OrEmpty(a: Option<string>): string {
    match a
    case None => []
    case Some(v) => v
  }

  /** `$('title').text().trim() || og:title || $('h1').first().text().trim() || 'Untitled'`. */
  function ResolveTitle(page: Page): (r: string)
    ensures r != []
    ensures Trim(page.titleText) != [] ==> r == Trim(page.titleText)
    ensures Trim(page.titleText) == [] && OrEmpty(page.ogTitle) != [] ==> r == OrEmpty(page.ogTitle)
    ensures Trim(page.titleText) == [] && OrEmpty(page.ogTitle) == [] && Trim(page.firstH1Text) != [] ==>
              r == Trim(page.firstH1Text)
    ensures Trim(page.titleText) == [] && OrEmpty(page.ogTitle) == [] && Trim(page.firstH1Text) == [] ==>
              r == TitleFallback
  {
    Or(Trim(page.titleText), Or(OrEmpty(page.ogTitle), Or(Trim(page.firstH1Text), TitleFallback)))
  }

  /** `first || second || ''` over two attributes. */
  function AttributeChain(first: Option<string>, second: Option<string>): (r: string)
    ensures r == [] <==> OrEmpty(first) == [] && OrEmpty(second) == []
    ensures OrEmpty(first) != [] ==> r == OrEmpty(first)
    ensures OrEmpty(first) == [] ==> r == OrEmpty(second)
  {
    Or(OrEmpty(first), OrEmpty(second))
  }

  function Description(page: Page): string {
    AttributeChain(page.metaDescription, page.ogDescription)
  }

  function Author(page: Page): string {
    AttributeChain(page.metaAuthor, page.articleAuthor)
  }

  function PublishedDate(page: Page): string {
    AttributeChain(page.articlePublishedTime, page.timeDatetime)
  }

  /** The first selector, from position `k` on, that matches some element. */
  function MatchFrom(page: Page, k: nat): (r: Option<nat>)
    requires k <= |MainSelectors|
    ensures r.Some? ==> k <= r.value < |MainSelectors| && MainSelectors[r.value] in page.firstMatch
    ensures r.Some? ==> forall j :: k <= j < r.value ==> MainSelectors[j] !in page.firstMatch
    ensures r.None? <==> forall j :: k <= j < |MainSelectors| ==> MainSelectors[j] !in page.firstMatch
    decreases |MainSelectors| - k
  {
    if k == |MainSelectors| then None
    else if MainSelectors[k] in page.firstMatch then Some(k)
    else MatchFrom(page, k + 1)
  }

  function MatchedSelector(page: Page): Option<nat> {
    MatchFrom(page, 0)
  }

  /** The trimmed text of the first matching selector's first match; empty when no
      selector matches. */
  function MainText(page: Page): string {
    match MatchedSelector(page)
    case None => []
    case Some(i) => Trim(page.firstMatch[MainSelectors[i]])
  }

  /** The content before cleanup: the main text, or the trimmed body text when the
      main text is empty. */
  function RawContent(page: Page): (r: string)
    ensures IsTrimmed(r)
    ensures r == [] <==> MainText(page) == [] && Trim(page.bodyText) == []
  {
    TrimIsTrimmed(page.bodyText);
    match MatchedSelector(page)
    case None => Trim(page.bodyText)
    case Some(i) =>
      TrimIsTrimmed(page.firstMatch[MainSelectors[i]]);
      if MainText(page) != [] then MainText(page) else Trim(page.bodyText)
  }

  /** The main-content loop of `extractContent` and its body fallback. */
  method SelectContent(page: Page) returns (content: string)
    ensures content == RawContent(page)
  {
    content := [];
    var i := 0;
    while i < |MainSelectors|
      invariant i <= |MainSelectors|
      invariant MatchFrom(page, i) == MatchedSelector(page)
      invariant content == []
    {
      var selector := MainSelectors[i];
      if selector in page.firstMatch {
        content := Trim(page.firstMatch[selector]);
        break;
      }
      i := i + 1;
    }
    if content == [] {
      content := Trim(page.bodyText);
    }
  }

  /** `replace(/\s+/g, ' ')`, then `trim()`, then `substring(0, 50000)`. The
      second `replace(/\n\s*\n/g, '\n\n')` in between is not part of the chain: it
      can never match (see `CollapsedHasNoNewline`). */
  function CleanContent(s: string): string {
    Take(Trim(CollapseWhitespace(s)), MaxContentLength)
  }

  /** `content.split(/\s+/).length`. */
  function WordCount(content: string): nat {
    |SplitOnRuns(content, IsWhitespace)|
  }

  /** The result of extracting a fetched page. */
  function Extracted(url: string, page: Page): ExtractedContent {
    var content := CleanContent(RawContent(page));
    ExtractedContent(ResolveTitle(page), content, url,
                     Metadata(Description(page), Author(page), PublishedDate(page), WordCount(content)))
  }

  /** The outcome of `extractContent(url)`, with `None` when the request fails. */
  function ExtractOutcome(url: string, fetch: Fetcher): Option<ExtractedContent> {
    match fetch(url)
    case Failed => None
    case Loaded(page) => Some(Extracted(url, page))
  }

  /** `extractContent`: one GET, then the metadata chains, the main-content loop,
      the cleanup chain and the word count. */
  method ExtractContent(url: string, fetch: Fetcher) returns (r: Option<ExtractedContent>)
    ensures r == ExtractOutcome(url, fetch)
  {
    var response := fetch(url);
    if response.Failed? {
      return None;
    }
    var page := response.document;
    var title := ResolveTitle(page);
    var description := Description(page);
    var author := Author(page);
    var publishedDate := PublishedDate(page);
    var content := SelectContent(page);
    content := CleanContent(content);
    var wordCount := WordCount(content);
    return Some(ExtractedContent(title, content, url, Metadata(description, author, publishedDate, wordCount)));
  }

  // Properties of the main-content rule.

  /** The first matching selector decides, even when its text is empty: what later
      selectors match does not matter, and the body is consulted only when the
      main text is empty. */
  lemma LaterSelectorsIgnored(page: Page, other: Page, i: nat)
    requires MatchedSelector(page) == Some(i)
    requires forall j :: 0 <= j <= i ==> (MainSelectors[j] in page.firstMatch <==> MainSelectors[j] in other.firstMatch)
    requires page.firstMatch[MainSelectors[i]] == other.firstMatch[MainSelectors[i]]
    requires Trim(page.firstMatch[MainSelectors[i]]) != [] || page.bodyText == other.bodyText
    ensures RawContent(page) == RawContent(other)
  {
    assert MatchedSelector(other) == Some(i) by {
      MatchesAgree(page, other, i, 0);
    }
  }

  lemma {:induction false} MatchesAgree(page: Page, other: Page, i: nat, k: nat)
    requires k <= i < |MainSelectors| && MatchFrom(page, k) == Some(i)
    requires forall j :: 0 <= j <= i ==> (MainSelectors[j] in page.firstMatch <==> MainSelectors[j] in other.firstMatch)
    ensures MatchFrom(other, k) == Some(i)
    decreases i - k
  {
    if k < i {
      assert MainSelectors[k] !in page.firstMatch;
      MatchesAgree(page, other, i, k + 1);
    }
  }

  /** A page on which some selector matches with non-empty text never uses its
      body, whatever the body holds. */
  lemma BodyOnlyAsFallback(page: Page, body: string)
    requires MainText(page) != []
    ensures RawContent(page) == MainText(page)
    ensures RawContent(page.(bodyText := body)) == RawContent(page)
  {
    assert MatchedSelector(page.(bodyText := body)) == MatchedSelector(page) by {
      MatchesAgree(page, page.(bodyText := body), MatchedSelector(page).value, 0);
    }
  }

  // Properties of the cleanup chain.

  predicate NoNewline(s: string) {
    forall i :: 0 <= i < |s| ==> s[i] != '\n'
  }

  lemma SpacesHaveNoNewline(s: string)
    requires OnlySpaces(s)
    ensures NoNewline(s)
  {
    forall i | 0 <= i < |s| ensures s[i] != '\n' {
      assert IsWhitespace('\n');
    }
  }

  /** After `replace(/\s+/g, ' ')` there is no newline left, so the pattern
      `/\n\s*\n/` cannot match. */
  lemma CollapsedHasNoNewline(s: string)
    ensures NoNewline(CollapseWhitespace(s))
  {
    SpacesHaveNoNewline(CollapseWhitespace(s));
  }

  /** The collapsed, trimmed text keeps the collapsed shape and starts with a
      non-whitespace character. */
  lemma CollapsedTrimmedShape(s: string)
    ensures NoAdjacentWhitespace(Trim(CollapseWhitespace(s))) && OnlySpaces(Trim(CollapseWhitespace(s)))
    ensures IsTrimmed(Trim(CollapseWhitespace(s)))
  {
    var collapsed := CollapseWhitespace(s);
    var start := TrimIsSlice(collapsed);
    SliceKeepsCollapsed(collapsed, start, start + |Trim(collapsed)|);
    TrimIsTrimmed(collapsed);
  }

  /** Cleaned content is at most 50000 characters long, holds no newline, no two
      adjacent whitespace characters and no whitespace other than plain spaces,
      does not start with whitespace, and is a prefix of the collapsed, trimmed
      text. */
  lemma CleanContentShape(s: string)
    ensures |CleanContent(s)| <= MaxContentLength
    ensures NoNewline(CleanContent(s))
    ensures NoAdjacentWhitespace(CleanContent(s)) && OnlySpaces(CleanContent(s))
    ensures CleanContent(s) != [] ==> !IsWhitespace(CleanContent(s)[0])
    ensures CleanContent(s) == Trim(CollapseWhitespace(s))[..|CleanContent(s)|]
  {
    var trimmed := Trim(CollapseWhitespace(s));
    var r := CleanContent(s);
    CollapsedTrimmedShape(s);
    SliceKeepsCollapsed(trimmed, 0, |r|);
    assert r == trimmed[0..|r|];
    SpacesHaveNoNewline(r);
    if r != [] {
      assert r[0] == trimmed[0];
    }
  }

  /** When the cleaned text fits, nothing but whitespace is lost. */
  lemma CleanContentKeepsText(s: string)
    requires |Trim(CollapseWhitespace(s))| <= MaxContentLength
    ensures Without(CleanContent(s), IsWhitespace) == Without(s, IsWhitespace)
  {
    var collapsed := CollapseWhitespace(s);
    TrimKeepsText(collapsed);
    CollapseKeepsText(s);
  }

  lemma TrimKeepsText(s: string)
    ensures Without(Trim(s), IsWhitespace) == Without(s, IsWhitespace)
  {
    WithoutDrop(s, IsWhitespace);
    TrimEndKeepsText(TrimStart(s));
  }

  lemma {:induction false} TrimEndKeepsText(s: string)
    ensures Without(TrimEnd(s), IsWhitespace) == Without(s, IsWhitespace)
    decreases |s|
  {
    if s != [] && IsWhitespace(s[|s| - 1]) {
      var init := s[..|s| - 1];
      TrimEndKeepsText(init);
      assert s == init + [s[|s| - 1]];
      WithoutSnoc(init, s[|s| - 1], IsWhitespace);
    }
  }

  /** The word count is one more than the number of spaces in the cleaned
      content, so it is at least 1 and exactly 1 for empty content. */
  lemma WordCountOfClean(s: string)
    ensures WordCount(CleanContent(s)) == CountWhitespace(CleanContent(s)) + 1
    ensures WordCount([]) == 1
  {
    CleanContentShape(s);
    SplitCountsWhitespace(CleanContent(s));
  }

  /** What every successful extraction promises. */
  lemma ExtractedShape(url: string, page: Page)
    ensures Extracted(url, page).url == url
    ensures Extracted(url, page).title != []
    ensures |Extracted(url, page).content| <= MaxContentLength
    ensures NoNewline(Extracted(url, page).content)
    ensures NoAdjacentWhitespace(Extracted(url, page).content)
    ensures Extracted(url, page).metadata.wordCount == CountWhitespace(Extracted(url, page).content) + 1
    ensures Extracted(url, page).content == [] <==> MainText(page) == [] && Trim(page.bodyText) == []
  {
    CleanedShape(RawContent(page));
  }

  /** The facts above for the cleanup of one trimmed text. */
  lemma CleanedShape(raw: string)
    requires IsTrimmed(raw)
    ensures |CleanContent(raw)| <= MaxContentLength
    ensures NoNewline(CleanContent(raw))
    ensures NoAdjacentWhitespace(CleanContent(raw))
    ensures WordCount(CleanContent(raw)) == CountWhitespace(CleanContent(raw)) + 1
    ensures CleanContent(raw) == [] <==> raw == []
  {
    CleanContentShape(raw);
    WordCountOfClean(raw);
    CleanOfTrimmedEmpty(raw);
  }

  /** Cleanup empties a trimmed string only when it was empty already. */
  lemma CleanOfTrimmedEmpty(s: string)
    requires IsTrimmed(s)
    ensures CleanContent(s) == [] <==> s == []
  {
    var collapsed := CollapseWhitespace(s);
    if s != [] {
      assert !IsWhitespace(collapsed[0]);
      TrimIsTrimmed(collapsed);
      assert Trim(collapsed) != [];
    }
  }
}
