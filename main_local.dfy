/** The local pipeline's drivers: one claim through search, scraping and judging,
    and a query's claims one after another or on a pool of workers. */
module MainLocal {
  import opened Wrappers
  import opened Models
  import opened Services
  import opened Completion
  import LocalFactcheckFull
  import Text

  /** A stage's timing entry: `0` when the stage was skipped, a measured duration
      otherwise. Durations themselves are not modelled. */
  datatype StageTime = Zero | Measured

  datatype Timing = Timing(
    optimize: StageTime, query: StageTime, urls: StageTime, scrape: StageTime, factcheck: StageTime)

  /** The dict `process_single_claim` returns. `link` is the deep link it prints
      under "LINK TO RESPONSE", `None` on the early returns that print none. */
  datatype ClaimReport = ClaimReport(
    claim: string, optimized: string, articleQuery: string,
    urls: Option<seq<string>>, result: Option<ClaimResult>, timing: Timing, link: Option<string>)

  // ------------------------------------------------------------ scraping the URLs

  /** A scrape that returned non-empty content. */
  predicate Scraped(outcome: Attempt<Option<string>>)
  {
    outcome.Done? && HasText(outcome.value)
  }

  /** What the future for `urls[i]` adds to `contents`: the pair when its scrape
      returned content, nothing when it raised (logged) or returned nothing. */
  function ScrapeOutcome(urls: seq<string>, scrape: string -> Attempt<Option<string>>)
    : int -> Option<(string, string)>
  {
    i => if 0 <= i < |urls| && Scraped(scrape(urls[i])) then Some((urls[i], scrape(urls[i]).value.value))
         else None
  }

  /** `contents` once every future has completed, in completion order `order`. */
  function Contents(urls: seq<string>, scrape: string -> Attempt<Option<string>>, order: seq<int>)
    : seq<(string, string)>
  {
    Completed(ScrapeOutcome(urls, scrape), order)
  }

  /** The loop over `as_completed`: each completed scrape is looked at once, and one
      that raises is skipped without stopping the others. */
  method CollectContents(urls: seq<string>, scrape: string -> Attempt<Option<string>>, order: seq<int>)
    returns (contents: seq<(string, string)>)
    ensures contents == Contents(urls, scrape, order)
  {
    contents := [];
    var k := 0;
    while k < |order|
      invariant 0 <= k <= |order|
      invariant contents == Contents(urls, scrape, order[..k])
    {
      var i := order[k];
      assert order[..k + 1][..k] == order[..k];
      if 0 <= i < |urls| {
        var outcome := scrape(urls[i]);
        match outcome {
          case Done(content) =>
            if HasText(content) {
              contents := contents + [(urls[i], content.value)];
            }
          case Raised(_) =>
        }
      }
      k := k + 1;
    }
    assert order[..|order|] == order;
  }

  /** Every collected pair is a search URL with the non-empty content its scrape
      returned. */
  lemma ContentsMembers(urls: seq<string>, scrape: string -> Attempt<Option<string>>, order: seq<int>)
    ensures forall k :: 0 <= k < |Contents(urls, scrape, order)| ==>
      var (u, c) := Contents(urls, scrape, order)[k];
      u in urls && scrape(u) == Done(Some(c)) && c != []
  {
    var outcome := ScrapeOutcome(urls, scrape);
    var cs := Contents(urls, scrape, order);
    CompletedMembers(outcome, order);
    forall k | 0 <= k < |cs|
      ensures var (u, c) := cs[k]; u in urls && scrape(u) == Done(Some(c)) && c != []
    {
      var p :| 0 <= p < |order| && outcome(order[p]) == Some(cs[k]);
      var i := order[p];
      assert 0 <= i < |urls| && Scraped(scrape(urls[i]));
    }
  }

  /** With every URL's future completing once, `contents` is empty exactly when no
      URL scraped to content. */
  lemma ContentsEmptyIff(urls: seq<string>, scrape: string -> Attempt<Option<string>>, order: seq<int>)
    requires IsCompletionOrder(order, |urls|)
    ensures Contents(urls, scrape, order) == [] <==>
      forall j :: 0 <= j < |urls| ==> !Scraped(scrape(urls[j]))
  {
    var outcome := ScrapeOutcome(urls, scrape);
    CompletedEmptyIff(outcome, order, |urls|);
    assert forall j :: 0 <= j < |urls| ==> (outcome(j).None? <==> !Scraped(scrape(urls[j])));
  }

  /** A URL that scraped to content is collected whatever the completion order. */
  lemma ScrapedUrlCollected(urls: seq<string>, scrape: string -> Attempt<Option<string>>, order: seq<int>, j: int)
    requires IsCompletionOrder(order, |urls|)
    requires 0 <= j < |urls| && Scraped(scrape(urls[j]))
    ensures (urls[j], scrape(urls[j]).value.value) in Contents(urls, scrape, order)
  {
    CompletedComplete(ScrapeOutcome(urls, scrape), order, |urls|, j);
  }

  // ------------------------------------------------------------ one claim

  const AllMeasured: Timing := Timing(Measured, Measured, Measured, Measured, Measured)

  /** No URL from the search: nothing more is attempted. */
  function NoUrlReport(claim: string, optimized: string, query: string): ClaimReport
  {
    ClaimReport(claim, optimized, query, None, None, Timing(Measured, Measured, Measured, Zero, Zero), None)
  }

  /** No URL scraped to content: the judge is not consulted. */
  function NoContentReport(claim: string, optimized: string, query: string, urls: seq<string>): ClaimReport
  {
    ClaimReport(claim, optimized, query, Some(urls), None, Timing(Measured, Measured, Measured, Measured, Zero), None)
  }

  /** The report after judging the first collected content of `url`. */
  function JudgedReport(claim: string, optimized: string, query: string, urls: seq<string>,
                        url: string, result: Option<ClaimResult>): ClaimReport
  {
    var evidence := if result.Some? then Some(result.value.evidence) else None;
    ClaimReport(claim, optimized, query, Some(urls), result, AllMeasured,
      Some(LocalFactcheckFull.BuildTextFragmentLink(url, evidence)))
  }

  /** `process_single_claim`, with `order` the completion order of its scrapes. Only
      the judge can raise, and its exception leaves the call. */
  function SingleClaim(s: Services, claim: string, topN: int, order: seq<int>): (report: Attempt<ClaimReport>)
    ensures report.Done? ==> report.value.claim == claim && report.value.articleQuery == s.queryFor(claim)
  {
    var optimized := s.optimize(claim);
    var query := s.queryFor(claim);
    var urls := s.search(query, topN);
    if urls.None? || urls.value == [] then Done(NoUrlReport(claim, optimized, query))
    else
      var contents := Contents(urls.value, s.scrape, order);
      if contents == [] then Done(NoContentReport(claim, optimized, query, urls.value))
      else
        match s.judge(contents[0].1, claim)
        case Raised(m) => Raised(m)
        case Done(result) => Done(JudgedReport(claim, optimized, query, urls.value, contents[0].0, result))
  }

  method ProcessSingleClaim(s: Services, claim: string, topN: int, order: seq<int>)
    returns (report: Attempt<ClaimReport>)
    ensures report == SingleClaim(s, claim, topN, order)
  {
    var optimized := s.optimize(claim);
    var query := s.queryFor(claim);
    var urls := s.search(query, topN);
    if urls.None? || urls.value == [] {
      return Done(NoUrlReport(claim, optimized, query));
    }
    var contents := CollectContents(urls.value, s.scrape, order);
    if contents == [] {
      return Done(NoContentReport(claim, optimized, query, urls.value));
    }
    var (url, content) := contents[0];
    var result := s.judge(content, claim);
    match result {
      case Raised(m) =>
        report := Raised(m);
      case Done(r) =>
        report := Done(JudgedReport(claim, optimized, query, urls.value, url, r));
    }
  }

  /** The report names its claim, and the article query comes from the claim
      itself: the optimized text is only reported, never used. */
  lemma QueryFromOriginalClaim(s: Services, claim: string, topN: int, order: seq<int>,
                               optimize': string -> string)
    ensures SingleClaim(s, claim, topN, order).Done? ==>
      SingleClaim(s, claim, topN, order).value.claim == claim
      && SingleClaim(s, claim, topN, order).value.articleQuery == s.queryFor(claim)
    ensures var other := SingleClaim(s.(optimize := optimize'), claim, topN, order);
      match SingleClaim(s, claim, topN, order)
      case Raised(m) => other == Raised(m)
      case Done(r) => other == Done(r.(optimized := optimize'(claim)))
  {
  }

  /** No URL (`None` or an empty list): `urls` and `result` are `None`, both later
      timings are zero, and neither the scraper nor the judge is consulted. */
  lemma NoUrlsReturnEarly(s: Services, claim: string, topN: int, order: seq<int>,
                          scrape': string -> Attempt<Option<string>>,
                          judge': (string, string) -> Attempt<Option<ClaimResult>>)
    requires var urls := s.search(s.queryFor(claim), topN); urls.None? || urls.value == []
    ensures var r := SingleClaim(s, claim, topN, order);
      r.Done? && r.value.urls.None? && r.value.result.None? && r.value.link.None?
      && r.value.timing.scrape == Zero && r.value.timing.factcheck == Zero
    ensures SingleClaim(s.(scrape := scrape', judge := judge'), claim, topN, order)
      == SingleClaim(s, claim, topN, order)
  {
  }

  /** When no URL scrapes to content, the URLs are kept, the result is `None`, the
      fact-check timing is zero and the judge is not consulted. */
  lemma NothingScrapedReturnsEarly(s: Services, claim: string, topN: int, order: seq<int>,
                                   judge': (string, string) -> Attempt<Option<ClaimResult>>)
    requires var urls := s.search(s.queryFor(claim), topN);
      urls.Some? && urls.value != [] && IsCompletionOrder(order, |urls.value|)
      && forall j :: 0 <= j < |urls.value| ==> !Scraped(s.scrape(urls.value[j]))
    ensures var r := SingleClaim(s, claim, topN, order);
      r.Done? && r.value.urls == s.search(s.queryFor(claim), topN) && r.value.result.None?
      && r.value.timing.factcheck == Zero && r.value.timing.scrape == Measured
    ensures SingleClaim(s.(judge := judge'), claim, topN, order) == SingleClaim(s, claim, topN, order)
  {
    var urls := s.search(s.queryFor(claim), topN).value;
    ContentsEmptyIff(urls, s.scrape, order);
  }

  /** A printed link starts with a search URL whose scrape returned the judged
      content; it is that bare URL when the judge found nothing or no evidence. */
  lemma LinkFromScrapedUrl(s: Services, claim: string, topN: int, order: seq<int>)
    requires SingleClaim(s, claim, topN, order).Done?
    requires SingleClaim(s, claim, topN, order).value.link.Some?
    ensures var r := SingleClaim(s, claim, topN, order).value;
      exists url, content :: url in r.urls.value && s.scrape(url) == Done(Some(content))
        && content != [] && s.judge(content, claim) == Done(r.result)
        && Text.StartsWith(r.link.value, url)
        && (r.result.None? || r.result.value.evidence == [] ==> r.link.value == url)
  {
    var r := SingleClaim(s, claim, topN, order).value;
    var urls := s.search(s.queryFor(claim), topN).value;
    var contents := Contents(urls, s.scrape, order);
    ContentsMembers(urls, s.scrape, order);
    var (url, content) := contents[0];
    var evidence := if r.result.Some? then Some(r.result.value.evidence) else None;
    LocalFactcheckFull.LinkExtendsUrl(url, evidence);
    assert url in r.urls.value && s.scrape(url) == Done(Some(content));
  }

  /** The only exception that leaves `process_single_claim` is the judge's. */
  lemma RaisedByJudge(s: Services, claim: string, topN: int, order: seq<int>)
    requires SingleClaim(s, claim, topN, order).Raised?
    ensures exists content :: s.judge(content, claim) == Raised(SingleClaim(s, claim, topN, order).message)
  {
    var urls := s.search(s.queryFor(claim), topN).value;
    var contents := Contents(urls, s.scrape, order);
    assert s.judge(contents[0].1, claim) == Raised(SingleClaim(s, claim, topN, order).message);
  }

  // ------------------------------------------------------------ sequential driver

  /** The reports of `claims[..k]` processed in order, or the first exception. */
  function SequentialReports(s: Services, claims: seq<string>, topN: int,
                             orders: int -> seq<int>, k: nat): Attempt<seq<ClaimReport>>
    requires k <= |claims|
  {
    if k == 0 then Done([])
    else
      match SequentialReports(s, claims, topN, orders, k - 1)
      case Raised(m) => Raised(m)
      case Done(rs) =>
        match SingleClaim(s, claims[k - 1], topN, orders(k - 1))
        case Raised(m) => Raised(m)
        case Done(r) => Done(rs + [r])
  }

  /** `process_query_sequential`: 0 for a query without claims, otherwise 0 once
      every claim is processed, unless a claim's processing raises. */
  function SequentialOutcome(s: Services, query: string, topN: int, orders: int -> seq<int>): (code: Attempt<int>)
    ensures code.Done? ==> code.value == 0
    ensures s.extractClaims(query) == [] ==> code == Done(0)
  {
    var claims := s.extractClaims(query);
    if claims == [] then Done(0)
    else match SequentialReports(s, claims, topN, orders, |claims|)
      case Raised(m) => Raised(m)
      case Done(_) => Done(0)
  }

  /** `orders(i)` is the completion order of the scrapes for the `i`-th claim. */
  method ProcessQuerySequential(s: Services, query: string, topN: int, orders: int -> seq<int>)
    returns (code: Attempt<int>, reports: seq<ClaimReport>)
    ensures code == SequentialOutcome(s, query, topN, orders)
    ensures code.Done? ==> code.value == 0
    ensures code.Done? && s.extractClaims(query) != [] ==>
      SequentialReports(s, s.extractClaims(query), topN, orders, |s.extractClaims(query)|) == Done(reports)
    ensures s.extractClaims(query) == [] ==> reports == []
  {
    var claims := s.extractClaims(query);
    reports := [];
    if claims == [] {
      return Done(0), reports;
    }
    var k := 0;
    while k < |claims|
      invariant 0 <= k <= |claims|
      invariant SequentialReports(s, claims, topN, orders, k) == Done(reports)
    {
      var report := ProcessSingleClaim(s, claims[k], topN, orders(k));
      if report.Raised? {
        SequentialRaiseStays(s, claims, topN, orders, k + 1);
        return Raised(report.message), reports;
      }
      reports := reports + [report.value];
      k := k + 1;
    }
    code := Done(0);
  }

  /** Once a claim raises, the exception is the outcome of every longer prefix. */
  lemma {:induction false} SequentialRaiseStays(s: Services, claims: seq<string>, topN: int,
                                                orders: int -> seq<int>, k: nat)
    requires k <= |claims|
    requires SequentialReports(s, claims, topN, orders, k).Raised?
    ensures SequentialReports(s, claims, topN, orders, |claims|)
      == SequentialReports(s, claims, topN, orders, k)
    decreases |claims| - k
  {
    if k < |claims| {
      SequentialRaiseStays(s, claims, topN, orders, k + 1);
    }
  }

  /** Without an exception there is one report per claim, in input order, each
      the processing of that claim. */
  lemma {:induction false} SequentialInOrder(s: Services, claims: seq<string>, topN: int,
                                             orders: int -> seq<int>, k: nat)
    requires k <= |claims|
    requires SequentialReports(s, claims, topN, orders, k).Done?
    ensures var rs := SequentialReports(s, claims, topN, orders, k).value;
      |rs| == k && forall i :: 0 <= i < k ==> SingleClaim(s, claims[i], topN, orders(i)) == Done(rs[i])
  {
    if k > 0 {
      SequentialInOrder(s, claims, topN, orders, k - 1);
    }
  }

  /** An exception comes from the first claim whose processing raises; every
      claim before it was processed. */
  lemma {:induction false} SequentialRaiseOrigin(s: Services, claims: seq<string>, topN: int,
                                                 orders: int -> seq<int>, k: nat)
    requires k <= |claims|
    requires SequentialReports(s, claims, topN, orders, k).Raised?
    ensures exists j :: (0 <= j < k
      && SingleClaim(s, claims[j], topN, orders(j)) == Raised(SequentialReports(s, claims, topN, orders, k).message)
      && forall i :: 0 <= i < j ==> SingleClaim(s, claims[i], topN, orders(i)).Done?)
  {
    var prev := SequentialReports(s, claims, topN, orders, k - 1);
    if prev.Raised? {
      SequentialRaiseOrigin(s, claims, topN, orders, k - 1);
    } else {
      SequentialInOrder(s, claims, topN, orders, k - 1);
      assert forall i :: 0 <= i < k - 1 ==> SingleClaim(s, claims[i], topN, orders(i)).Done?;
    }
  }

  // ------------------------------------------------------------ parallel driver

  /** What the future for `claims[i]` adds to `results`: its report, or nothing
      when its processing raised (logged). */
  function ClaimOutcome(s: Services, claims: seq<string>, topN: int, orders: int -> seq<int>)
    : int -> Option<ClaimReport>
  {
    i => if 0 <= i < |claims| && SingleClaim(s, claims[i], topN, orders(i)).Done?
         then Some(SingleClaim(s, claims[i], topN, orders(i)).value) else None
  }

  /** `results` of `process_query_parallel`, with `claimOrder` the order in which
      the claims' futures complete. */
  function ParallelReports(s: Services, query: string, topN: int, orders: int -> seq<int>,
                           claimOrder: seq<int>): (reports: seq<ClaimReport>)
    ensures |reports| <= |claimOrder|
  {
    var claims := s.extractClaims(query);
    if claims == [] then []
    else
      CompletedLength(ClaimOutcome(s, claims, topN, orders), claimOrder);
      Completed(ClaimOutcome(s, claims, topN, orders), claimOrder)
  }

  method ProcessQueryParallel(s: Services, query: string, topN: int, orders: int -> seq<int>,
                              claimOrder: seq<int>)
    returns (code: int, reports: seq<ClaimReport>)
    ensures code == 0
    ensures reports == ParallelReports(s, query, topN, orders, claimOrder)
  {
    var claims := s.extractClaims(query);
    reports := [];
    if claims == [] {
      return 0, reports;
    }
    var k := 0;
    while k < |claimOrder|
      invariant 0 <= k <= |claimOrder|
      invariant reports == Completed(ClaimOutcome(s, claims, topN, orders), claimOrder[..k])
    {
      var i := claimOrder[k];
      assert claimOrder[..k + 1][..k] == claimOrder[..k];
      if 0 <= i < |claims| {
        var report := ProcessSingleClaim(s, claims[i], topN, orders(i));
        if report.Done? {
          reports := reports + [report.value];
        }
      }
      k := k + 1;
    }
    assert claimOrder[..|claimOrder|] == claimOrder;
    code := 0;
  }

  /** At most one report per claim; each report is the processing of one of the
      claims; and every claim whose processing does not raise is reported. */
  lemma ParallelReportsClaims(s: Services, query: string, topN: int, orders: int -> seq<int>,
                              claimOrder: seq<int>)
    requires IsCompletionOrder(claimOrder, |s.extractClaims(query)|)
    ensures var claims := s.extractClaims(query);
      var rs := ParallelReports(s, query, topN, orders, claimOrder);
      |rs| <= |claims|
      && (forall k :: 0 <= k < |rs| ==>
            exists i :: 0 <= i < |claims| && SingleClaim(s, claims[i], topN, orders(i)) == Done(rs[k]))
      && (forall i :: 0 <= i < |claims| && SingleClaim(s, claims[i], topN, orders(i)).Done? ==>
            SingleClaim(s, claims[i], topN, orders(i)).value in rs)
  {
    var claims := s.extractClaims(query);
    if claims != [] {
      var outcome := ClaimOutcome(s, claims, topN, orders);
      var rs := Completed(outcome, claimOrder);
      CompletedLength(outcome, claimOrder);
      CompletionOrderLength(claimOrder, |claims|);
      CompletedMembers(outcome, claimOrder);
      forall k | 0 <= k < |rs|
        ensures exists i :: 0 <= i < |claims| && SingleClaim(s, claims[i], topN, orders(i)) == Done(rs[k])
      {
        var p :| 0 <= p < |claimOrder| && outcome(claimOrder[p]) == Some(rs[k]);
        var i := claimOrder[p];
        assert 0 <= i < |claims| && SingleClaim(s, claims[i], topN, orders(i)) == Done(rs[k]);
      }
      forall i | 0 <= i < |claims| && SingleClaim(s, claims[i], topN, orders(i)).Done?
        ensures SingleClaim(s, claims[i], topN, orders(i)).value in rs
      {
        CompletedComplete(outcome, claimOrder, |claims|, i);
      }
    }
  }

  /** `process_query`: the parallel driver unless asked for the sequential one. */
  method ProcessQuery(s: Services, query: string, topN: int, parallel: bool,
                      orders: int -> seq<int>, claimOrder: seq<int>)
    returns (code: Attempt<int>)
    ensures parallel ==> code == Done(0)
    ensures !parallel ==> code == SequentialOutcome(s, query, topN, orders)
  {
    if parallel {
      var c, _ := ProcessQueryParallel(s, query, topN, orders, claimOrder);
      code := Done(c);
    } else {
      var reports;
      code, reports := ProcessQuerySequential(s, query, topN, orders);
    }
  }
}
