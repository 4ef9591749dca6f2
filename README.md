# The Truth Machine: a verified model of its fact-checking core

The Truth Machine fact-checks a free-text query against Wikipedia:

1. A language model splits the query into claims.
2. Each claim is rewritten and turned into an article query.
3. A Custom Search call finds the article URLs.
4. The article text is fetched:
   - first through the Wikipedia REST plain-text endpoint,
   - then through the REST mobile-HTML endpoint,
   - otherwise by a generic HTML scrape.
5. A long article is cut down to the paragraphs relevant to the claim.
6. A judge model returns a `ClaimResult` (verdict and evidence).
7. A deep link to the evidence is built with a URL fragment text directive.

This project models that core in Dafny. Every network, HTML-parser, JSON and model call becomes an input value or a function parameter:

- HTTP responses are `Http(status, body)`, or `Raised(message)` for an exception.
- A parsed page is the sequence of texts its selected elements yield.
- A model reply is an `Option<string>`.
- `json.loads` and pydantic validation are parameters that decode or fail.
- A thread pool's completion order is an arbitrary ordering of the submitted tasks.

The hand-written parts are modelled exactly, with their branches, edge cases and constants:

- URL title extraction, built on `urlparse`, `split('/')` and `unquote`;
- the three-tier scrape chain and its block filter;
- percent-encoding with `quote`;
- the bounded content selection (key terms, scoring, stable sort, greedy packing, prefix fill);
- the reply fallbacks of the local client;
- the conversion of answers into `ClaimResult`;
- the search-result filter;
- the per-claim decision tree and the sequential and parallel drivers;
- the evaluation runner and its score.

The modules follow the source files:

| module | file | models |
|---|---|---|
| `Wrappers`, `Json`, `Models`, `Services` | shared | `Option`, exceptions as `Attempt`, decoded JSON values, `ClaimResult`, the collaborators |
| `Text` | shared | the Python `str` operations the source relies on (`strip`, `split`, `join`, `find`, `lower`, slicing) |
| `Utf8`, `UrlQuote`, `UrlParse` | shared | UTF-8, `urllib.parse.quote`/`unquote` and `urlparse` as the source uses them |
| `WikipediaScraper` | `src/utils/wikipedia_scraper.py` | title extraction, tiers, block collection, the chain |
| `LocalClient` | `src/utils/local_openai_client.py` | constructor, reply fallbacks, the regex spans |
| `ContentSelection` | `src/utils/local_openai_client.py` | `_select_relevant_content`, imperative with its specification |
| `LocalFactcheckFull` | `src/utils/local_factcheck_full.py` | deep link and result conversion |
| `Factcheck` | `src/utils/factcheck.py` | hosted-model answer handling and its copy of the link builder |
| `GoogleCustomSearch` | `src/utils/google_custom_search.py` | response to link list |
| `Completion`, `MainLocal` | `src/main_local.py` | completion-order collection, `process_single_claim`, both drivers |
| `FullLocalTest` | `src/test_full_local_system.py` | `test_single_claim`, `run_tests`, `calculate_score` |

Loops in the source are `method`s with invariants, each proved equal to a specification function:

- `CollectBlocks`;
- `SelectRelevantContent` and its key-term, scoring and packing loops;
- `CollectContents`;
- `ProcessQuerySequential` and `ProcessQueryParallel`;
- `RunTests`.

`LocalClient.LocalOpenAIClient` is a class, because its constructor sets fields. Two more methods have no loop of their own: `ProcessSingleClaim` calls `CollectContents` and is proved equal to `SingleClaim`, and `ProcessQuery` dispatches to the two drivers. Everything else is functions and lemmas.

## Model

| member | source | states |
|---|---|---|
| `WikipediaScraper.ExtractTitle` | src/utils/wikipedia_scraper.py:31-45 | A title is only ever read from a URL that parses and whose network location contains `wikipedia.org`. The exact shape of the path is stated by `ExtractTitleShape`. |
| `WikipediaScraper.ExtractTitleShape` | src/utils/wikipedia_scraper.py:31-45 | A title is found only when the URL parses and its network location contains `wikipedia.org`, as a substring and not a domain match. The path must split on `/` into at least three parts with the second exactly `wiki`. The title is then the percent-decoded third part; later segments are ignored. |
| `WikipediaScraper.TitleRoundTrip` | src/utils/wikipedia_scraper.py:33-42 | For any title without `/`, extracting from `https://en.wikipedia.org/wiki/` + `quote(title)`, followed by any query or fragment, returns the title itself. |
| `WikipediaScraper.ParseWikiUrl` | src/utils/wikipedia_scraper.py:36 | `urlparse` of an article URL yields host `en.wikipedia.org` and path `/wiki/` + the encoded title, for any trailing query or fragment. |
| `WikipediaScraper.PlainTextTier` | src/utils/wikipedia_scraper.py:48-58 | The plain tier yields text iff the status is 200 and the body is not all whitespace, and then yields the unstripped body. |
| `WikipediaScraper.CollectBlocks` | src/utils/wikipedia_scraper.py:77-82 | The block loop returns exactly `JoinedBlocks`: the texts longer than 10 characters, in document order, joined by a blank line, or `None`. |
| `WikipediaScraper.BlocksMembers` | src/utils/wikipedia_scraper.py:79-81 | A text is kept iff it occurs in the page and is longer than 10 characters. |
| `WikipediaScraper.BlocksAppend` | src/utils/wikipedia_scraper.py:79-81 | The filter distributes over concatenation, so document order is kept. |
| `WikipediaScraper.JoinedBlocksEmpty` | src/utils/wikipedia_scraper.py:82 | The result is `None` exactly when no text is long enough, never `""`; a result is longer than 10 characters. |
| `WikipediaScraper.MobileHtmlTier` | src/utils/wikipedia_scraper.py:61-82 | The mobile tier yields text iff the status is 200 and some block survives; any other status gives `None`. |
| `WikipediaScraper.GenericTier` | src/utils/wikipedia_scraper.py:85-104 | An HTTP error status or an exception gives `None`, not a raise; a result is longer than 10 characters. |
| `WikipediaScraper.NoTitleGoesGeneric` | src/utils/wikipedia_scraper.py:115-116 | Without a title the generic scrape of the URL decides. Responses to any other address, the REST ones included, cannot change the result. |
| `WikipediaScraper.PlainTextWins` | src/utils/wikipedia_scraper.py:118-121 | An accepted plain-text body is returned verbatim, whatever the mobile and generic responses are. |
| `WikipediaScraper.MobileHtmlWins` | src/utils/wikipedia_scraper.py:123-131 | When the plain tier yields nothing or raises and the mobile tier has blocks, the joined blocks are returned. The generic response does not matter. |
| `WikipediaScraper.GenericIsLastResort` | src/utils/wikipedia_scraper.py:140-149 | When both REST tiers yield nothing, the generic tier's outcome is the result. |
| `WikipediaScraper.ScrapeWikipediaContent` | src/utils/wikipedia_scraper.py:107-149 | The chain returns `None` or a non-empty text. Which tier decides is stated by the four chain lemmas. |
| `WikipediaScraper.ScrapeNeverEmpty` | src/utils/wikipedia_scraper.py:107-149 | The chain never returns an empty string. A result is either not all whitespace or longer than 10 characters. |
| `UrlQuote.UnquoteQuote` | src/utils/wikipedia_scraper.py:42 | `unquote(quote(s)) == s` for every string: percent-encoding of the UTF-8 bytes is undone by percent-decoding with replacement. |
| `UrlQuote.QuoteAlphabet` | src/utils/local_factcheck_full.py:33 | `quote` emits only unreserved characters, `/`, `%` and hex digits, so never a space, `#`, `&`, `?`, `;` or `:`. |
| `UrlQuote.QuoteIsPerChar` | src/utils/local_factcheck_full.py:33 | `quote` works per character: a safe one is copied, any other becomes `%XX` triplets of its UTF-8 bytes. |
| `UrlQuote.QuoteSafeUnchanged` | src/utils/local_factcheck_full.py:33 | A string of unreserved characters and `/` is left unchanged. |
| `UrlQuote.SlashSurvivesQuote` | src/utils/wikipedia_scraper.py:40-42 | The encoded form contains `/` iff the original does. |
| `Utf8.DecodeEncode` | src/utils/wikipedia_scraper.py:42 | Decoding the UTF-8 encoding of a string gives the string back. |
| `UrlParse.ParseHttpsUrl` | src/utils/wikipedia_scraper.py:36 | `urlparse` of `https://` + host + path + query-or-fragment yields that host as netloc and that path, when host and path hold no delimiter. |
| `LocalClient.LocalOpenAIClient.constructor` | src/utils/local_openai_client.py:14-16 | The stored base URL is the given one without its trailing `/` characters; the model name is kept. |
| `LocalClient.BaseUrlNormalised` | src/utils/local_openai_client.py:15 | The normalised URL is a prefix of the input followed only by slashes, does not end in `/`, and normalising again changes nothing. |
| `LocalClient.ReplyOrClaim` | src/utils/local_openai_client.py:64-80 | `optimize_claim` and `get_wiki_article_name` return a non-empty reply, and otherwise the input claim. |
| `LocalClient.ReplyOrClaimNotEmpty` | src/utils/local_openai_client.py:73 | A non-empty claim never turns into an empty text. |
| `LocalClient.BracketSpan` | src/utils/local_openai_client.py:55 | The bracket pattern's match, when there is one, is a substring of the reply. It runs `[` to the first `]` with no line break inside. |
| `LocalClient.BracketSpanNone` | src/utils/local_openai_client.py:55-56 | There is no match iff no substring of the reply has that shape. |
| `LocalClient.ExtractClaims` | src/utils/local_openai_client.py:40-62 | No reply gives `[]`. Non-empty claims come only from a span that decodes to a list, and they are that list. A span that fails to decode, or decodes to a non-list, gives `[]`. |
| `LocalClient.LabelThenEvidence` | src/utils/local_openai_client.py:167 | The brace body matches iff `"label"` occurs in it and `"evidence"` occurs after it. |
| `LocalClient.ObjectSpan` | src/utils/local_openai_client.py:167-169 | A found object span is a substring of the reply, braced, with no `}` inside, holding `"label"` then `"evidence"`. |
| `LocalClient.EvidenceValue` | src/utils/local_openai_client.py:183-184 | A found evidence value holds no `"` and comes after an `"evidence":` in the reply. |
| `LocalClient.EvidenceValueReadsField` | src/utils/local_openai_client.py:183 | After `"evidence":`, optional whitespace and a quoted value without `"`, exactly that value is extracted. |
| `LocalClient.FallbackLabel` | src/utils/local_openai_client.py:174-180 | The fallback verdict is `"True"` iff the lower-cased reply contains `true`, and `"False"` otherwise. |
| `LocalClient.FallbackEvidence` | src/utils/local_openai_client.py:183-184 | The fallback evidence is the quoted evidence value when there is one, else the first 200 characters of the reply. |
| `LocalClient.FallbackResult` | src/utils/local_openai_client.py:186 | The fallback dict has exactly the keys `label` and `evidence`, both strings. |
| `LocalClient.FactcheckClaim` | src/utils/local_openai_client.py:139-188 | There is a result iff there is a non-empty reply. It is the decoded object when the braced span decodes, else the fallback dict. |
| `ContentSelection.Select` | src/utils/local_openai_client.py:82-137 | The selection's length is at most `max_length`, and content that already fits is returned unchanged. |
| `ContentSelection.SelectRelevantContent` | src/utils/local_openai_client.py:82-137 | The imperative selection computes exactly `Select`: never longer than `max_length`, unchanged when the content fits. |
| `ContentSelection.NothingRelevantIsPrefix` | src/utils/local_openai_client.py:124-137 | When no paragraph scores, the result is `content[:max_length]`. |
| `ContentSelection.FillNothing` | src/utils/local_openai_client.py:132-137 | Filling after an empty selection yields the content's first `max_length` characters. |
| `ContentSelection.Fill` | src/utils/local_openai_client.py:131-137 | With room left, the result starts with as much of the article's opening as fits. A full selection is cut to `max_length`, and the length never exceeds it. |
| `ContentSelection.CollectKeyTerms` | src/utils/local_openai_client.py:88-100 | The key-term loop computes `KeyTerms`: the dates, then the lower-cased key words. |
| `ContentSelection.KeyTermsMembers` | src/utils/local_openai_client.py:93-100 | A term is a key term iff it is a standalone 4-digit run of the claim, or the lower-cased form of a whitespace word longer than 3 characters starting with an upper-case letter. |
| `ContentSelection.DatesFromMembers` | src/utils/local_openai_client.py:93 | The dates found are exactly the standalone four-digit runs. |
| `ContentSelection.KeyWordsMembers` | src/utils/local_openai_client.py:97-100 | The key words are exactly the lower-cased capitalised words longer than 3 characters. |
| `ContentSelection.ParagraphScore` | src/utils/local_openai_client.py:110-116 | The scoring loop counts the key-term entries occurring in the lower-cased paragraph. |
| `ContentSelection.Score` | src/utils/local_openai_client.py:114-116 | A score never exceeds the number of key-term entries. |
| `ContentSelection.ScoreParagraphs` | src/utils/local_openai_client.py:107-119 | The paragraph loop computes `Relevant`: the scored paragraphs, in article order. |
| `ContentSelection.RelevantMembers` | src/utils/local_openai_client.py:107-119 | A section is kept iff its paragraph is one of the `\n\n`-separated paragraphs, with its own score, and that score is positive. |
| `ContentSelection.SortByScore` | src/utils/local_openai_client.py:122 | Sorting is a permutation of the sections. |
| `ContentSelection.SortIsSorted` | src/utils/local_openai_client.py:122 | The sorted sections are in non-increasing score order. |
| `ContentSelection.SortIsStable` | src/utils/local_openai_client.py:122 | Sections with equal scores keep their article order. |
| `ContentSelection.InsertSorted` | src/utils/local_openai_client.py:122 | Inserting into a sorted sequence keeps it sorted. |
| `ContentSelection.InsertStable` | src/utils/local_openai_client.py:122 | Insertion places a section after all those with its score. |
| `ContentSelection.Insert` | src/utils/local_openai_client.py:122 | Insertion adds exactly the one section. |
| `ContentSelection.RankedOrder` | src/utils/local_openai_client.py:107-122 | The ranked sections are sorted by descending score, a permutation of the relevant ones, and stable on ties. |
| `ContentSelection.Pack` | src/utils/local_openai_client.py:124-129 | The packing loop with `break` computes `PackFrom`. |
| `ContentSelection.PackShape` | src/utils/local_openai_client.py:124-129 | Packing appends a prefix of the ranked paragraphs, each with `\n\n`, and stops at the first paragraph that would not fit. |
| `ContentSelection.TerminatedSnoc` | src/utils/local_openai_client.py:127 | Each packed paragraph adds itself followed by a paragraph break. |
| `LocalFactcheckFull.BuildTextFragmentLink` | src/utils/local_factcheck_full.py:29-33 | No or empty evidence gives the bare URL; otherwise the URL, `#:~:text=` and the quoted evidence. |
| `LocalFactcheckFull.LinkExtendsUrl` | src/utils/local_factcheck_full.py:31-33 | The URL is always a prefix of the link. |
| `LocalFactcheckFull.SelectorAlphabet` | src/utils/local_factcheck_full.py:33 | The selector after the directive is the per-character encoding of the evidence. It holds only quote's output alphabet, so no space, `#` or `&`. |
| `LocalFactcheckFull.SelectorDecodes` | src/utils/local_factcheck_full.py:33 | Percent-decoding the selector yields exactly the evidence. |
| `LocalFactcheckFull.LinkDeterminesEvidence` | src/utils/local_factcheck_full.py:33 | Two links for one URL are equal only for equal evidence. |
| `LocalFactcheckFull.ToClaimResult` | src/utils/local_factcheck_full.py:18-21 | Construction succeeds iff both keys are present with string values, and then carries them over. |
| `LocalFactcheckFull.FindAnswerInArticle` | src/utils/local_factcheck_full.py:11-26 | No answer only for a missing or empty dict. A raise only when the dict holds an `"evidence"` value that is not a string. |
| `LocalFactcheckFull.NothingFoundIff` | src/utils/local_factcheck_full.py:13-16 | The answer is `None` exactly when the client returned no dict or an empty one. |
| `LocalFactcheckFull.StringFieldsKept` | src/utils/local_factcheck_full.py:16-21 | String `label` and `evidence` are returned unchanged. |
| `LocalFactcheckFull.FailedConversionFallsBack` | src/utils/local_factcheck_full.py:22-24 | When construction fails, the verdict is `"False"` and the evidence is the dict's own string evidence, or `""` when absent. |
| `LocalFactcheckFull.RaisesIff` | src/utils/local_factcheck_full.py:17-24 | The call raises exactly when the dict's evidence is present but not a string, since the handler's own construction then fails. |
| `LocalFactcheckFull.Judge` | src/utils/local_factcheck_full.py:11-26 | The local judge, the client answer followed by the conversion, gives no answer and no raise without a reply. |
| `LocalFactcheckFull.UndecodedReplyIsJudged` | src/utils/local_factcheck_full.py:13-21 | A reply with no decodable object yields the heuristic verdict, `"True"` or `"False"`, and the heuristic evidence, with no exception. |
| `LocalFactcheckFull.NoReplyNoAnswer` | src/utils/local_factcheck_full.py:13-26 | No reply gives no answer. |
| `Factcheck.FindAnswerInArticle` | src/utils/factcheck.py:8-23 | An answer only ever comes from a call that returned a non-empty text. |
| `Factcheck.AnswerIff` | src/utils/factcheck.py:8-23 | There is an answer iff the model call returned a non-empty text. An exception or an empty output gives `None` and never propagates. |
| `Factcheck.AnswerFromText` | src/utils/factcheck.py:16-20 | A validating text gives its parsed `ClaimResult`. Any other gives `ClaimResult("False", text)` with the text verbatim. |
| `Factcheck.AnswerOrigin` | src/utils/factcheck.py:13-20 | Every answer is the validator's parse or the `"False"` fallback carrying the raw text. |
| `Factcheck.BuildTextFragmentLink` | src/utils/factcheck.py:26-29 | No or empty evidence gives the bare URL; otherwise the link extends the URL. |
| `Factcheck.LinksAgree` | src/utils/factcheck.py:26-29 | This copy of the link builder equals the local one on every input. |
| `GoogleCustomSearch.GetFirstNResultsUrls` | src/utils/google_custom_search.py:8-23 | A result exists only for a decoded dict body, and every returned link is truthy. |
| `GoogleCustomSearch.Links` | src/utils/google_custom_search.py:19 | No more links than items, and every kept link is truthy. |
| `GoogleCustomSearch.LinksAppend` | src/utils/google_custom_search.py:19 | The filter distributes over concatenation, so links keep the item order. |
| `GoogleCustomSearch.LinksOfOne` | src/utils/google_custom_search.py:19 | An item contributes its link exactly when the link is present and non-empty. |
| `GoogleCustomSearch.LinksFromItems` | src/utils/google_custom_search.py:19 | Every link is the `link` of some item. |
| `GoogleCustomSearch.FirstNLinks` | src/utils/google_custom_search.py:20 | For `n >= 0` the answer has at most `n` links and is a prefix of the filtered links: all of them when fewer than `n`, none when `n = 0`. |
| `GoogleCustomSearch.NoLinksGiveNone` | src/utils/google_custom_search.py:17-20 | No usable link, including a body without `items`, gives `None` rather than `[]`. |
| `GoogleCustomSearch.FailureGivesNone` | src/utils/google_custom_search.py:14-23 | A failed request, status check or decoding gives `None`. |
| `GoogleCustomSearch.FirstOfTwo` | src/tests/test_google_custom_search.py:15-16 | Two linked items with `n = 1` give `["http://a"]`. |
| `Completion.CompletedLength` | src/main_local.py:77-84 | A completion loop adds at most one value per completed task. |
| `Completion.CompletedMembers` | src/main_local.py:77-84 | Every collected value is the value of a completed task. |
| `Completion.CompletedComplete` | src/main_local.py:77-84 | Under any completion order, every task that produced a value is collected, so a failing task does not hide others. |
| `Completion.CompletedEmptyIff` | src/main_local.py:77-89 | Nothing is collected exactly when no task produced a value. |
| `MainLocal.CollectContents` | src/main_local.py:74-84 | The scrape loop computes `Contents`: pairs of URL and non-empty content in completion order. A raising scrape is skipped. |
| `MainLocal.ContentsMembers` | src/main_local.py:80-82 | Every collected pair is a search URL with the non-empty content its scrape returned. |
| `MainLocal.ContentsEmptyIff` | src/main_local.py:74-89 | Contents are empty exactly when no URL scraped to content. |
| `MainLocal.ScrapedUrlCollected` | src/main_local.py:77-84 | A URL that scraped to content is collected whatever the completion order. |
| `MainLocal.SingleClaim` | src/main_local.py:25-143 | A report names its own claim, and its article query is the one generated from that claim. |
| `MainLocal.ProcessSingleClaim` | src/main_local.py:25-143 | The per-claim procedure computes `SingleClaim`. |
| `MainLocal.QueryFromOriginalClaim` | src/main_local.py:33-39 | The report names its claim, and the article query comes from the original claim. Changing the optimizer changes only the `optimized` field. |
| `MainLocal.NoUrlsReturnEarly` | src/main_local.py:49-65 | With no URL, `urls` and `result` are `None`, scrape and factcheck timings are zero, and scraper and judge are not consulted. |
| `MainLocal.NothingScrapedReturnsEarly` | src/main_local.py:89-105 | With no content, the URLs are kept, the result is `None`, the factcheck timing is zero and the judge is not consulted. |
| `MainLocal.LinkFromScrapedUrl` | src/main_local.py:108-123 | The printed link extends a search URL whose scrape returned the judged content. It is that bare URL when there is no answer or no evidence. |
| `MainLocal.RaisedByJudge` | src/main_local.py:112 | The only exception leaving the per-claim procedure is the judge's. |
| `MainLocal.SequentialOutcome` | src/main_local.py:146-182 | The sequential driver returns 0 when it returns at all, and always 0 for a query without claims. |
| `MainLocal.ProcessQuerySequential` | src/main_local.py:146-182 | No claims gives 0 with nothing processed. Otherwise each claim is processed in order and 0 is returned, unless a claim's processing raises. |
| `MainLocal.SequentialInOrder` | src/main_local.py:165-167 | One report per claim, in input order, each the processing of that claim. |
| `MainLocal.SequentialRaiseOrigin` | src/main_local.py:165-166 | An exception comes from the first raising claim, and all claims before it were processed. |
| `MainLocal.SequentialRaiseStays` | src/main_local.py:165-166 | Once a claim raises, later claims do not change the outcome. |
| `MainLocal.ParallelReports` | src/main_local.py:185-245 | At most one report per completed future. Which claims are reported is stated by `ParallelReportsClaims`. |
| `MainLocal.ProcessQueryParallel` | src/main_local.py:185-245 | The parallel driver returns 0 and collects `ParallelReports`. |
| `MainLocal.ParallelReportsClaims` | src/main_local.py:204-216 | At most one report per claim, each the processing of some claim. Every claim that does not raise is reported. |
| `MainLocal.ProcessQuery` | src/main_local.py:248-253 | The parallel driver returns 0; the sequential one gives its outcome. |
| `FullLocalTest.TestSingleClaim` | src/test_full_local_system.py:49-120 | The record carries the entry's id, claim and expected label. A correct record has no error and predicts the expected label. |
| `FullLocalTest.ResultNamesEntry` | src/test_full_local_system.py:53-81 | The record copies the entry's id, claim and expected label, and the query comes from the claim. |
| `FullLocalTest.NoUrlsKeepDefaults` | src/test_full_local_system.py:59-92 | With no URLs the record has error `"No URLs found"`. The verdict stays `None`, correctness `False` and time 0, and nothing is scraped or judged. |
| `FullLocalTest.NoContentKeepsDefaults` | src/test_full_local_system.py:94-99 | With empty content the record has error `"Failed to scrape content"` and the defaults stay; nothing is judged. |
| `FullLocalTest.OnlyFirstUrlScraped` | src/test_full_local_system.py:86-96 | Only the one-result search and the first URL's scrape matter. |
| `FullLocalTest.CorrectIff` | src/test_full_local_system.py:107-110 | The record is correct iff the predicted verdict equals the expected label, and a correct record has no error. |
| `FullLocalTest.FailuresRecorded` | src/test_full_local_system.py:96-117 | An absent answer gives `"Failed to get factcheck result"`. An exception from scraper or judge becomes the error text and never propagates. An answer sets the verdict and evidence. |
| `FullLocalTest.Selected` | src/test_full_local_system.py:127-128 | Truncation to `max_tests` happens only when it is truthy, giving a prefix of the dataset of that length. |
| `FullLocalTest.RunTests` | src/test_full_local_system.py:122-141 | One record per selected entry, in dataset order. |
| `FullLocalTest.CalculateScore` | src/test_full_local_system.py:143-178 | The total is the number of results, the correct ones are among them, and the accuracy lies in [0, 1]. |
| `FullLocalTest.ScoreBounds` | src/test_full_local_system.py:143-164 | Correct count ≤ total; per-label correct ≤ per-label expected; the two labels' counts together ≤ total; errors ≤ total. Every accuracy is in [0, 1], and accuracy is 0 without results. |
| `FullLocalTest.CorrectAndErrorsDisjoint` | src/test_full_local_system.py:107-117 | Over records the runner produced, correct records and errors together are at most the total. |
| `FullLocalTest.FilterCount` | src/test_full_local_system.py:150-151 | A filtered list's length is the count of its condition. |
| `FullLocalTest.CountDisjoint` | src/test_full_local_system.py:150-151 | Two disjoint conditions count no more than the whole. |

## Left out

- HTTP, sessions, retries, timeouts, request parameters and the `sleep` before the generic tier. Responses are given as values, and the source's `_make_request` is a reply value.
- BeautifulSoup. Selector removal and `get_text(strip=True)` are the DOM parameter, the texts its elements yield.
- `json.loads` and pydantic validation are parameters. The one pydantic rule the model states (`str` fields accept only strings) is spelt out in `ToClaimResult`. Exception texts other than the three fixed error strings are abbreviated.
- `LocalFactcheckFull.ToClaimResult`: a value that is not a string raises a message shortened to pydantic's first line, `1 validation error for ClaimResult`.
- JSON numbers are integers only, with no floats.
- Unicode case mapping. `lower`, `isupper` and the regex classes `\d` and `\w` are modelled for ASCII, where the source's Python would also map non-ASCII letters and digits.
- `urlparse`: IPv6 bracket validation and the NFKC check on the network location are not modelled. A malformed bracket gives `None`, as the title extractor's handler does.
- Lone surrogates in strings cannot occur in Dafny's `char` model of text.
- Threads. `as_completed` order is an explicit parameter, and a completion order outside the submitted tasks is skipped.
- Timings. They are `Zero` or `Measured`, without durations, and the averages of a run are omitted. `Measured` counts as a positive `processing_time`.
- Printing, argparse `main`, `print_results`, `save_results` and `load_test_dataset`.
- The global client handle. Collaborators are passed explicitly in `Services`, and the evaluation runner's stored base URL and model are used only to build that client.
- `extract_claims` may return list elements that are not strings. The drivers take claims and URLs as strings, and search links are decoded JSON values.
- The content selection's output only feeds the prompt, which is not modelled.
- The handler at the end of `factcheck_claim` catches nothing the preceding code can raise, so it is not modelled.
- A dataset entry without `id`, `claim` or `expected_label` raises before the runner's handler. Entries are typed records instead.
- A printed deep link appears in `ClaimReport.link`; the source only prints it.
