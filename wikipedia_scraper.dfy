/** The Wikipedia retrieval chain: the article title is read from a `/wiki/<title>`
    URL, then the plain-text REST endpoint, the mobile-HTML REST endpoint and a
    generic scrape of the page are tried in that order, and the first non-empty
    text wins.

    HTTP is a parameter `get` from URL to response (or the exception it raised);
    the parsed page is a parameter from an HTML body to the stripped texts of its
    heading, paragraph and list-item elements left once the boilerplate selectors
    are removed, in document order. */
module WikipediaScraper {
  import opened Wrappers
  import opened Text
  import UrlParse
  import UrlQuote

  datatype Http = Http(status: int, body: string)

  // ------------------------------------------------------------ the title

  /** `_extract_title_from_wiki_url` */
  function ExtractTitle(url: string): (title: Option<string>)
    ensures title.Some? ==>
      UrlParse.Parse(url).Some? && Contains(UrlParse.Parse(url).value.netloc, "wikipedia.org")
  {
    match UrlParse.Parse(url)
    case None => None
    case Some(p) =>
      if !Contains(p.netloc, "wikipedia.org") then None
      else
        var parts := Split(p.path, "/");
        if |parts| >= 3 && parts[1] == "wiki" then Some(UrlQuote.Unquote(parts[2])) else None
  }

  /** A title is only ever read from a URL whose network location contains
      "wikipedia.org" (a substring test, not a domain match), and it is the
      decoded third `/`-separated piece of a path whose second piece is "wiki". */
  lemma ExtractTitleShape(url: string)
    requires ExtractTitle(url).Some?
    ensures UrlParse.Parse(url).Some?
    ensures Contains(UrlParse.Parse(url).value.netloc, "wikipedia.org")
    ensures var parts := Split(UrlParse.Parse(url).value.path, "/");
      |parts| >= 3 && parts[1] == "wiki" && ExtractTitle(url).value == UrlQuote.Unquote(parts[2])
  {
  }

  const WikiPrefix: string := "https://en.wikipedia.org/wiki/"

  /** An English Wikipedia article URL whose title part holds no delimiter. */
  lemma ParseWikiUrl(url: string, q: string, tail: string)
    requires url == WikiPrefix + q + tail
    requires forall i :: 0 <= i < |q| ==> q[i] !in "/?#;\t\r\n"
    requires tail == [] || tail[0] == '?' || tail[0] == '#'
    ensures UrlParse.Parse(url).Some?
    ensures UrlParse.Parse(url).value.netloc == "en.wikipedia.org"
    ensures UrlParse.Parse(url).value.path == "/wiki/" + q
  {
    WikiUrlPieces(url, q, tail);
    WikiPathChars(q);
    UrlParse.ParseHttpsUrl(url, "en.wikipedia.org", "/wiki/" + q, tail);
  }

  lemma WikiUrlPieces(url: string, q: string, tail: string)
    requires url == WikiPrefix + q + tail
    ensures url == "https://" + "en.wikipedia.org" + ("/wiki/" + q) + tail
  {
  }

  lemma WikiPathChars(q: string)
    requires forall i :: 0 <= i < |q| ==> q[i] !in "/?#;\t\r\n"
    ensures var path := "/wiki/" + q;
      forall i :: 0 <= i < |path| ==> path[i] !in "?#;\t\r\n"
  {
    var path := "/wiki/" + q;
    forall i | 0 <= i < |path| ensures path[i] !in "?#;\t\r\n" {
      if i >= 6 {
        assert path[i] == q[i - 6];
      }
    }
  }

  /** The title of an article URL built by percent-encoding a title without `/`
      is that title, whatever query or fragment follows it. */
  lemma TitleRoundTrip(title: string, tail: string)
    requires '/' !in title
    requires tail == [] || tail[0] == '?' || tail[0] == '#'
    ensures ExtractTitle(WikiPrefix + UrlQuote.Quote(title) + tail) == Some(title)
  {
    var q := UrlQuote.Quote(title);
    var url := WikiPrefix + q + tail;
    QuotedTitleHasNoDelimiter(title);
    ParseWikiUrl(url, q, tail);
    WikiHost();
    WikiPathSplit(q);
    ExtractTitleOf(url, q);
    UrlQuote.UnquoteQuote(title);
  }

  lemma WikiHost()
    ensures Contains("en.wikipedia.org", "wikipedia.org")
  {
    assert OccursAt("en.wikipedia.org", "wikipedia.org", 3);
  }

  lemma WikiPathSplit(q: string)
    requires '/' !in q
    ensures Split("/wiki/" + q, "/") == [[], "wiki", q]
  {
    assert "/wiki/" + q == ['/'] + "wiki" + ['/'] + q;
    SplitTwoSeparators("wiki", q, '/');
  }

  lemma ExtractTitleOf(url: string, q: string)
    requires UrlParse.Parse(url).Some?
    requires Contains(UrlParse.Parse(url).value.netloc, "wikipedia.org")
    requires Split(UrlParse.Parse(url).value.path, "/") == [[], "wiki", q]
    ensures ExtractTitle(url) == Some(UrlQuote.Unquote(q))
  {
  }

  lemma QuotedTitleHasNoDelimiter(title: string)
    requires '/' !in title
    ensures var q := UrlQuote.Quote(title);
      forall i :: 0 <= i < |q| ==> q[i] !in "/?#;\t\r\n"
  {
    var q := UrlQuote.Quote(title);
    UrlQuote.QuoteAlphabet(title);
    UrlQuote.SlashSurvivesQuote(title);
    forall i | 0 <= i < |q| ensures q[i] !in "/?#;\t\r\n" {
      assert UrlQuote.IsQuotedChar(q[i]);
      assert q[i] in q;
    }
  }

  // ------------------------------------------------------------ the tiers

  const RestPlainPrefix: string := "https://en.wikipedia.org/api/rest_v1/page/plain/"
  const RestMobilePrefix: string := "https://en.wikipedia.org/api/rest_v1/page/mobile-html/"

  /** The address `_wiki_rest_plain_text` requests: the decoded title as it is. */
  function PlainUrl(title: string): string { RestPlainPrefix + title }

  /** The address `_wiki_rest_mobile_html` requests. */
  function MobileUrl(title: string): string { RestMobilePrefix + title }

  /** `_wiki_rest_plain_text`: the body, unstripped, of a 200 response that is not
      all whitespace. */
  function PlainTextTier(r: Http): (text: Option<string>)
    ensures text.Some? <==> r.status == 200 && !AllSpace(r.body)
    ensures text.Some? ==> text.value == r.body && text.value != []
  {
    StripEmptyIffAllSpace(r.body);
    if r.status == 200 && Strip(r.body) != [] then Some(r.body) else None
  }

  /** What the block loop keeps: `text and len(text) > 10`. */
  predicate IsBlock(text: string) { |text| > 10 }

  /** The kept texts, in document order. */
  function Blocks(texts: seq<string>): seq<string>
  {
    if texts == [] then []
    else Blocks(texts[..|texts| - 1]) + (if IsBlock(texts[|texts| - 1]) then [texts[|texts| - 1]] else [])
  }

  /** The joined blocks, or `None` (never "") when nothing is kept. */
  function JoinedBlocks(texts: seq<string>): Option<string>
  {
    var blocks := Blocks(texts);
    if blocks == [] then None else Some(Join(blocks, "\n\n"))
  }

  /** The block loop of `_wiki_rest_mobile_html` and `_generic_html_scrape`. */
  method CollectBlocks(texts: seq<string>) returns (r: Option<string>)
    ensures r == JoinedBlocks(texts)
  {
    var blocks: seq<string> := [];
    var i := 0;
    while i < |texts|
      invariant 0 <= i <= |texts|
      invariant blocks == Blocks(texts[..i])
    {
      var text := texts[i];
      assert texts[..i + 1][..i] == texts[..i];
      if text != [] && |text| > 10 {
        blocks := blocks + [text];
      }
      i := i + 1;
    }
    assert texts[..|texts|] == texts;
    if blocks != [] {
      r := Some(Join(blocks, "\n\n"));
    } else {
      r := None;
    }
  }

  /** The kept texts of a concatenation are the kept texts of each part, so the
      filter keeps document order. */
  lemma {:induction false} BlocksAppend(a: seq<string>, b: seq<string>)
    ensures Blocks(a + b) == Blocks(a) + Blocks(b)
    decreases |b|
  {
    if b == [] {
      assert a + b == a;
    } else {
      var b' := b[..|b| - 1];
      assert (a + b)[..|a + b| - 1] == a + b';
      assert (a + b)[|a + b| - 1] == b[|b| - 1];
      BlocksAppend(a, b');
    }
  }

  /** Exactly the texts longer than 10 characters are kept. */
  lemma {:induction false} BlocksMembers(texts: seq<string>)
    ensures forall t :: t in Blocks(texts) <==> t in texts && IsBlock(t)
  {
    if texts != [] {
      var init := texts[..|texts| - 1];
      BlocksMembers(init);
      assert texts == init + [texts[|texts| - 1]];
    }
  }

  lemma {:induction false} JoinLength(parts: seq<string>, sep: string)
    requires parts != []
    ensures |Join(parts, sep)| >= |parts[0]|
  {
  }

  /** No block survives exactly when every text is 10 characters or shorter, and a
      surviving result is never the empty string. */
  lemma JoinedBlocksEmpty(texts: seq<string>)
    ensures JoinedBlocks(texts).None? <==> forall i :: 0 <= i < |texts| ==> !IsBlock(texts[i])
    ensures JoinedBlocks(texts).Some? ==> |JoinedBlocks(texts).value| > 10
  {
    BlocksMembers(texts);
    var blocks := Blocks(texts);
    if blocks != [] {
      assert blocks[0] in blocks;
      JoinLength(blocks, "\n\n");
    } else {
      forall i | 0 <= i < |texts| ensures !IsBlock(texts[i]) {
        assert texts[i] in texts;
      }
    }
  }

  /** `_wiki_rest_mobile_html`: nothing unless the status is 200. */
  function MobileHtmlTier(r: Http, mobileDom: string -> seq<string>): (text: Option<string>)
    ensures text.Some? <==> r.status == 200 && Blocks(mobileDom(r.body)) != []
    ensures text.Some? ==> |text.value| > 10
  {
    JoinedBlocksEmpty(mobileDom(r.body));
    if r.status != 200 then None else JoinedBlocks(mobileDom(r.body))
  }

  /** `requests`' `raise_for_status` raises for the client and server error codes. */
  predicate IsHttpError(status: int) { 400 <= status < 600 }

  /** `_generic_html_scrape` with its caller's handler: an HTTP error status or any
      exception gives `None`. */
  function GenericTier(r: Attempt<Http>, pageDom: string -> seq<string>): (text: Option<string>)
    ensures (r.Raised? || IsHttpError(r.value.status)) ==> text.None?
    ensures text.Some? ==> |text.value| > 10
  {
    match r
    case Raised(_) => None
    case Done(h) =>
      JoinedBlocksEmpty(pageDom(h.body));
      if IsHttpError(h.status) then None else JoinedBlocks(pageDom(h.body))
  }

  /** A REST tier whose request raised counts as yielding nothing. */
  function PlainAttempt(r: Attempt<Http>): Option<string>
  {
    match r
    case Raised(_) => None
    case Done(h) => PlainTextTier(h)
  }

  function MobileAttempt(r: Attempt<Http>, mobileDom: string -> seq<string>): Option<string>
  {
    match r
    case Raised(_) => None
    case Done(h) => MobileHtmlTier(h, mobileDom)
  }

  /** `scrape_wikipedia_content` */
  function ScrapeWikipediaContent(
    url: string, get: string -> Attempt<Http>,
    mobileDom: string -> seq<string>, pageDom: string -> seq<string>): (content: Option<string>)
    ensures content.Some? ==> content.value != []
  {
    var title := ExtractTitle(url);
    if HasText(title) then
      var plain := PlainAttempt(get(PlainUrl(title.value)));
      if HasText(plain) then plain
      else
        var mobile := MobileAttempt(get(MobileUrl(title.value)), mobileDom);
        if HasText(mobile) then mobile
        else GenericTier(get(url), pageDom)
    else GenericTier(get(url), pageDom)
  }

  // ------------------------------------------------------------ the chain

  /** Without a title the generic scrape of the URL itself decides, and no REST
      address is consulted: responses to other URLs do not matter. */
  lemma NoTitleGoesGeneric(
    url: string, get: string -> Attempt<Http>, get': string -> Attempt<Http>,
    mobileDom: string -> seq<string>, pageDom: string -> seq<string>)
    requires !HasText(ExtractTitle(url))
    requires get'(url) == get(url)
    ensures ScrapeWikipediaContent(url, get, mobileDom, pageDom) == GenericTier(get(url), pageDom)
    ensures ScrapeWikipediaContent(url, get', mobileDom, pageDom)
         == ScrapeWikipediaContent(url, get, mobileDom, pageDom)
  {
  }

  /** A plain-text response with status 200 and a body that is not all
      whitespace is returned verbatim; only the plain-text address is consulted. */
  lemma PlainTextWins(
    url: string, get: string -> Attempt<Http>, get': string -> Attempt<Http>,
    mobileDom: string -> seq<string>, pageDom: string -> seq<string>, h: Http)
    requires HasText(ExtractTitle(url))
    requires get(PlainUrl(ExtractTitle(url).value)) == Done(h)
    requires h.status == 200 && !AllSpace(h.body)
    requires get'(PlainUrl(ExtractTitle(url).value)) == Done(h)
    ensures ScrapeWikipediaContent(url, get, mobileDom, pageDom) == Some(h.body)
    ensures ScrapeWikipediaContent(url, get', mobileDom, pageDom) == Some(h.body)
  {
  }

  /** When the plain-text tier yields nothing or raises, a mobile-HTML response
      with status 200 and at least one kept block gives the joined blocks, and
      the generic scrape is skipped. */
  lemma MobileHtmlWins(
    url: string, get: string -> Attempt<Http>, get': string -> Attempt<Http>,
    mobileDom: string -> seq<string>, pageDom: string -> seq<string>, h: Http)
    requires HasText(ExtractTitle(url))
    requires var plain := get(PlainUrl(ExtractTitle(url).value));
      plain.Raised? || !(plain.value.status == 200 && !AllSpace(plain.value.body))
    requires get(MobileUrl(ExtractTitle(url).value)) == Done(h)
    requires h.status == 200 && Blocks(mobileDom(h.body)) != []
    requires get'(PlainUrl(ExtractTitle(url).value)) == get(PlainUrl(ExtractTitle(url).value))
    requires get'(MobileUrl(ExtractTitle(url).value)) == Done(h)
    ensures ScrapeWikipediaContent(url, get, mobileDom, pageDom)
         == Some(Join(Blocks(mobileDom(h.body)), "\n\n"))
    ensures ScrapeWikipediaContent(url, get', mobileDom, pageDom)
         == ScrapeWikipediaContent(url, get, mobileDom, pageDom)
  {
  }

  /** When both REST tiers yield nothing the generic scrape decides. */
  lemma GenericIsLastResort(
    url: string, get: string -> Attempt<Http>,
    mobileDom: string -> seq<string>, pageDom: string -> seq<string>)
    requires HasText(ExtractTitle(url))
    requires !HasText(PlainAttempt(get(PlainUrl(ExtractTitle(url).value))))
    requires !HasText(MobileAttempt(get(MobileUrl(ExtractTitle(url).value)), mobileDom))
    ensures ScrapeWikipediaContent(url, get, mobileDom, pageDom) == GenericTier(get(url), pageDom)
  {
  }

  /** The scraper never returns the empty string: it returns `None`, a plain-text
      body that is not all whitespace, or more than 10 characters of blocks. */
  lemma ScrapeNeverEmpty(
    url: string, get: string -> Attempt<Http>,
    mobileDom: string -> seq<string>, pageDom: string -> seq<string>)
    ensures var r := ScrapeWikipediaContent(url, get, mobileDom, pageDom);
      r.Some? ==> r.value != [] && (!AllSpace(r.value) || |r.value| > 10)
  {
    var r := ScrapeWikipediaContent(url, get, mobileDom, pageDom);
    var title := ExtractTitle(url);
    var generic := GenericTier(get(url), pageDom);
    if HasText(title) {
      var plain := PlainAttempt(get(PlainUrl(title.value)));
      var mobile := MobileAttempt(get(MobileUrl(title.value)), mobileDom);
      if HasText(plain) {
        assert r == plain;
        assert !AllSpace(plain.value);
      } else if HasText(mobile) {
        assert r == mobile;
        assert |mobile.value| > 10;
      } else {
        assert r == generic;
      }
    } else {
      assert r == generic;
    }
  }
}
