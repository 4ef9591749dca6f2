/** The end-to-end evaluation runner: each dataset claim through the local
    pipeline, compared with its expected label, and the score over a run. */
module FullLocalTest {
  import opened Wrappers
  import opened Text
  import opened Models
  import opened Services
  import opened MainLocal

  /** One dataset entry: `id`, `claim` and `expected_label`. */
  datatype TestCase = TestCase(id: int, claim: string, expectedLabel: string)

  /** The dict `test_single_claim` returns. */
  datatype TestResult = TestResult(
    testId: int, claim: string, expectedLabel: string,
    predictedLabel: Option<string>, evidence: Option<string>, isCorrect: bool,
    processingTime: StageTime, error: Option<string>,
    articleQuery: Option<string>, urls: Option<seq<string>>)

  const NoUrlsError: string := "No URLs found"
  const NoContentError: string := "Failed to scrape content"
  const NoResultError: string := "Failed to get factcheck result"

  /** The record before any step has run. */
  function Initial(t: TestCase): TestResult
  {
    TestResult(t.id, t.claim, t.expectedLabel, None, None, false, Zero, None, None, Some([]))
  }

  /** `test_single_claim`: one search result, the first URL scraped, the answer
      judged. The two early returns skip the timing; an exception is caught and
      recorded as the error. */
  function TestSingleClaim(s: Services, t: TestCase): (result: TestResult)
    ensures result.testId == t.id && result.claim == t.claim && result.expectedLabel == t.expectedLabel
    ensures result.isCorrect ==> result.error.None? && result.predictedLabel == Some(t.expectedLabel)
  {
    var query := s.queryFor(t.claim);
    var urls := s.search(query, 1);
    var r := Initial(t).(articleQuery := Some(query), urls := urls);
    if urls.None? || urls.value == [] then r.(error := Some(NoUrlsError))
    else
      match s.scrape(urls.value[0])
      case Raised(m) => r.(error := Some(m), processingTime := Measured)
      case Done(content) =>
        if !HasText(content) then r.(error := Some(NoContentError))
        else
          match s.judge(content.value, t.claim)
          case Raised(m) => r.(error := Some(m), processingTime := Measured)
          case Done(None) => r.(error := Some(NoResultError), processingTime := Measured)
          case Done(Some(c)) =>
            r.(predictedLabel := Some(c.verdict), evidence := Some(c.evidence),
               isCorrect := c.verdict == t.expectedLabel, processingTime := Measured)
  }

  /** The entry's identity is copied, and the query comes from its claim. */
  lemma ResultNamesEntry(s: Services, t: TestCase)
    ensures var r := TestSingleClaim(s, t);
      r.testId == t.id && r.claim == t.claim && r.expectedLabel == t.expectedLabel
      && r.articleQuery == Some(s.queryFor(t.claim))
  {
  }

  /** No URL: the error says so and the verdict, correctness and time keep their
      initial values; nothing is scraped or judged. */
  lemma NoUrlsKeepDefaults(s: Services, t: TestCase,
                           scrape': string -> Attempt<Option<string>>,
                           judge': (string, string) -> Attempt<Option<ClaimResult>>)
    requires var urls := s.search(s.queryFor(t.claim), 1); urls.None? || urls.value == []
    ensures var r := TestSingleClaim(s, t);
      r.error == Some(NoUrlsError) && r.predictedLabel.None? && !r.isCorrect && r.processingTime == Zero
      && r.urls == s.search(s.queryFor(t.claim), 1)
    ensures TestSingleClaim(s.(scrape := scrape', judge := judge'), t) == TestSingleClaim(s, t)
  {
  }

  /** Empty content: the error says so and the defaults stay; nothing is judged. */
  lemma NoContentKeepsDefaults(s: Services, t: TestCase,
                               judge': (string, string) -> Attempt<Option<ClaimResult>>)
    requires var urls := s.search(s.queryFor(t.claim), 1);
      urls.Some? && urls.value != [] && s.scrape(urls.value[0]).Done?
      && !HasText(s.scrape(urls.value[0]).value)
    ensures var r := TestSingleClaim(s, t);
      r.error == Some(NoContentError) && r.predictedLabel.None? && !r.isCorrect && r.processingTime == Zero
    ensures TestSingleClaim(s.(judge := judge'), t) == TestSingleClaim(s, t)
  {
  }

  /** Only the one-result search and the first URL's scrape matter: services that
      agree on those and on the judge give the same record. */
  lemma OnlyFirstUrlScraped(s: Services, s': Services, t: TestCase)
    requires s'.queryFor(t.claim) == s.queryFor(t.claim)
    requires s'.search(s.queryFor(t.claim), 1) == s.search(s.queryFor(t.claim), 1)
    requires var urls := s.search(s.queryFor(t.claim), 1);
      urls.Some? && urls.value != [] ==> s'.scrape(urls.value[0]) == s.scrape(urls.value[0])
    requires forall content :: s'.judge(content, t.claim) == s.judge(content, t.claim)
    ensures TestSingleClaim(s', t) == TestSingleClaim(s, t)
  {
  }

  /** The entry is correct exactly when a verdict was predicted and it equals the
      expected label; a correct entry has no error. */
  lemma CorrectIff(s: Services, t: TestCase)
    ensures var r := TestSingleClaim(s, t);
      (r.isCorrect <==> r.predictedLabel == Some(t.expectedLabel))
      && (r.isCorrect ==> r.error.None?)
  {
  }

  /** A judge that finds nothing is reported as such; an exception from the
      scraper or the judge becomes the error text and does not propagate. */
  lemma FailuresRecorded(s: Services, t: TestCase)
    requires var urls := s.search(s.queryFor(t.claim), 1); urls.Some? && urls.value != []
    ensures var urls := s.search(s.queryFor(t.claim), 1);
      var sc := s.scrape(urls.value[0]);
      var r := TestSingleClaim(s, t);
      (sc.Raised? ==> r.error == Some(sc.message) && r.processingTime == Measured)
      && (sc.Done? && HasText(sc.value) ==>
            var j := s.judge(sc.value.value, t.claim);
            (j.Raised? ==> r.error == Some(j.message))
            && (j == Done(None) ==> r.error == Some(NoResultError) && r.predictedLabel.None?)
            && (j.Done? && j.value.Some? ==>
                  r.predictedLabel == Some(j.value.value.verdict)
                  && r.evidence == Some(j.value.value.evidence) && r.error.None?))
  {
  }

  // ------------------------------------------------------------ a run

  /** The entries `run_tests` runs: truncated to `max_tests` only when that value
      is truthy (present and not zero). */
  function Selected(dataset: seq<TestCase>, maxTests: Option<int>): (d: seq<TestCase>)
    ensures !(maxTests.Some? && maxTests.value != 0) ==> d == dataset
    ensures |d| <= |dataset| && d == dataset[..|d|]
    ensures maxTests.Some? && maxTests.value > 0 ==>
      |d| == if maxTests.value < |dataset| then maxTests.value else |dataset|
  {
    if maxTests.Some? && maxTests.value != 0 then SliceTo(dataset, maxTests.value) else dataset
  }

  /** `run_tests` on the loaded dataset: one record per selected entry, in order. */
  method RunTests(s: Services, dataset: seq<TestCase>, maxTests: Option<int>)
    returns (results: seq<TestResult>)
    ensures |results| == |Selected(dataset, maxTests)|
    ensures forall i :: 0 <= i < |results| ==> results[i] == TestSingleClaim(s, Selected(dataset, maxTests)[i])
  {
    var entries := Selected(dataset, maxTests);
    results := [];
    var i := 0;
    while i < |entries|
      invariant 0 <= i <= |entries|
      invariant |results| == i
      invariant forall k :: 0 <= k < i ==> results[k] == TestSingleClaim(s, entries[k])
    {
      results := results + [TestSingleClaim(s, entries[i])];
      i := i + 1;
    }
  }

  // ------------------------------------------------------------ the score

  /** `sum(1 for x in s if p(x))`. */
  function Count<T>(s: seq<T>, p: T -> bool): nat
  {
    if s == [] then 0 else (if p(s[0]) then 1 else 0) + Count(s[1..], p)
  }

  /** `[x for x in s if p(x)]`. */
  function Filter<T>(s: seq<T>, p: T -> bool): seq<T>
  {
    if s == [] then [] else (if p(s[0]) then [s[0]] else []) + Filter(s[1..], p)
  }

  predicate IsCorrect(r: TestResult) { r.isCorrect }
  predicate ExpectsTrue(r: TestResult) { r.expectedLabel == "True" }
  predicate ExpectsFalse(r: TestResult) { r.expectedLabel == "False" }
  predicate HasError(r: TestResult) { r.error.Some? }

  /** `a / b`, or `0.0` when there is nothing to divide by. */
  function Ratio(a: nat, b: nat): real
  {
    if b > 0 then a as real / b as real else 0.0
  }

  /** The dict `calculate_score` returns, without the average processing time. */
  datatype Score = Score(
    totalTests: nat, correctTests: nat, accuracy: real,
    trueExpectedCount: nat, trueCorrectCount: nat, trueAccuracy: real,
    falseExpectedCount: nat, falseCorrectCount: nat, falseAccuracy: real,
    errorCount: nat)

  function CalculateScore(results: seq<TestResult>): (score: Score)
    ensures score.totalTests == |results| && score.correctTests <= score.totalTests
    ensures 0.0 <= score.accuracy <= 1.0
  {
    var correct := Count(results, IsCorrect);
    CountBound(results, IsCorrect);
    var trueExpected := Filter(results, ExpectsTrue);
    var falseExpected := Filter(results, ExpectsFalse);
    var trueCorrect := Count(trueExpected, IsCorrect);
    var falseCorrect := Count(falseExpected, IsCorrect);
    Score(|results|, correct, Ratio(correct, |results|),
          |trueExpected|, trueCorrect, Ratio(trueCorrect, |trueExpected|),
          |falseExpected|, falseCorrect, Ratio(falseCorrect, |falseExpected|),
          Count(results, HasError))
  }

  lemma {:induction false} CountBound<T>(s: seq<T>, p: T -> bool)
    ensures Count(s, p) <= |s|
  {
    if s != [] {
      CountBound(s[1..], p);
    }
  }

  /** Filtering keeps exactly the elements the count counts. */
  lemma {:induction false} FilterCount<T>(s: seq<T>, p: T -> bool)
    ensures |Filter(s, p)| == Count(s, p)
    ensures forall i :: 0 <= i < |Filter(s, p)| ==> p(Filter(s, p)[i])
  {
    if s != [] {
      FilterCount(s[1..], p);
    }
  }

  /** Two disjoint conditions count no more than the whole. */
  lemma {:induction false} CountDisjoint<T>(s: seq<T>, p: T -> bool, q: T -> bool)
    requires forall x :: !(p(x) && q(x))
    ensures Count(s, p) + Count(s, q) <= |s|
  {
    if s != [] {
      CountDisjoint(s[1..], p, q);
    }
  }

  /** Counting one condition inside another. */
  lemma {:induction false} CountImplies<T>(s: seq<T>, p: T -> bool, q: T -> bool)
    requires forall i :: 0 <= i < |s| ==> (p(s[i]) ==> q(s[i]))
    ensures Count(s, p) <= Count(s, q)
  {
    if s != [] {
      CountImplies(s[1..], p, q);
    }
  }

  lemma RatioRange(a: nat, b: nat)
    requires a <= b
    ensures 0.0 <= Ratio(a, b) <= 1.0
    ensures b == 0 ==> Ratio(a, b) == 0.0
  {
  }

  /** The counts nest: correct among all, correct among each label's entries,
      the two labels' entries among all; every accuracy lies in [0, 1] and is 0
      for an empty run. */
  lemma ScoreBounds(results: seq<TestResult>)
    ensures var sc := CalculateScore(results);
      sc.totalTests == |results|
      && sc.correctTests <= sc.totalTests
      && sc.trueCorrectCount <= sc.trueExpectedCount
      && sc.falseCorrectCount <= sc.falseExpectedCount
      && sc.trueExpectedCount + sc.falseExpectedCount <= sc.totalTests
      && sc.errorCount <= sc.totalTests
      && 0.0 <= sc.accuracy <= 1.0 && 0.0 <= sc.trueAccuracy <= 1.0 && 0.0 <= sc.falseAccuracy <= 1.0
      && (results == [] ==> sc.accuracy == 0.0)
  {
    var trueExpected := Filter(results, ExpectsTrue);
    var falseExpected := Filter(results, ExpectsFalse);
    CountBound(results, IsCorrect);
    CountBound(trueExpected, IsCorrect);
    CountBound(falseExpected, IsCorrect);
    CountBound(results, HasError);
    FilterCount(results, ExpectsTrue);
    FilterCount(results, ExpectsFalse);
    CountDisjoint(results, ExpectsTrue, ExpectsFalse);
    RatioRange(Count(results, IsCorrect), |results|);
    RatioRange(Count(trueExpected, IsCorrect), |trueExpected|);
    RatioRange(Count(falseExpected, IsCorrect), |falseExpected|);
  }

  /** Over records the runner produced, a correct entry never carries an error,
      so correct entries and errors together are at most the whole run. */
  lemma CorrectAndErrorsDisjoint(s: Services, entries: seq<TestCase>, results: seq<TestResult>)
    requires |results| == |entries|
    requires forall i :: 0 <= i < |results| ==> results[i] == TestSingleClaim(s, entries[i])
    ensures CalculateScore(results).correctTests + CalculateScore(results).errorCount <= |results|
  {
    CorrectHasNoError(s, entries, results);
  }

  lemma {:induction false} CorrectHasNoError(s: Services, entries: seq<TestCase>, results: seq<TestResult>)
    requires |results| == |entries|
    requires forall i :: 0 <= i < |results| ==> results[i] == TestSingleClaim(s, entries[i])
    ensures Count(results, IsCorrect) + Count(results, HasError) <= |results|
  {
    if results != [] {
      CorrectIff(s, entries[0]);
      CorrectHasNoError(s, entries[1..], results[1..]);
    }
  }
}
