/**
 * `PromptEvaluator.evaluate_template` of `app/prompt_evaluator.py`: run every
 * test text through render-and-extract, score the successful cases, keep one
 * record per text, average the scores per requested metric, and summarise.
 *
 * Rendering the prompt and calling the extraction service are one opaque
 * step `step: string -> Result<ExtractionResult>`; `Err` stands for any
 * exception the source's catch-all turns into a failed case.
 */
module PromptEvaluator {
  import opened Wrappers
  import opened Scoring

  // ---------------------------------------------------------------------
  // Per-case records
  // ---------------------------------------------------------------------

  /** One entry of `detailed_results`: with `extraction_result`, or with `error`. */
  datatype CaseRecord =
    | Success(testIndex: nat, text: string, extraction: ExtractionResult, scores: map<string, real>)
    | Failure(testIndex: nat, text: string, error: string, scores: map<string, real>)

  /** The text kept in a record: the first 100 characters and `...` when longer. */
  function Preview(text: string): (p: string)
    ensures |text| <= 100 ==> p == text
    ensures |text| > 100 ==> |p| == 103 && p[..100] == text[..100] && p[100..] == "..."
  {
    if |text| > 100 then text[..100] + "..." else text
  }

  /** The scores of a failed case: 0.0 for every requested name, known or not. */
  function ZeroScores(metrics: seq<string>): (scores: map<string, real>)
    ensures forall m :: m in scores <==> m in metrics
    ensures forall m :: m in scores ==> scores[m] == 0.0
  {
    map m | m in metrics :: 0.0
  }

  /** The record of test case `i`. */
  function CaseFor(i: nat, text: string, triplets: seq<string>, metrics: seq<string>,
                   step: string -> Result<ExtractionResult>): CaseRecord
  {
    match step(text)
    case Ok(r) => Success(i, Preview(text), r, EvaluateSingleResult(r, text, triplets, metrics))
    case Err(e) => Failure(i, Preview(text), e, ZeroScores(metrics))
  }

  function Cases(texts: seq<string>, triplets: seq<string>, metrics: seq<string>,
                 step: string -> Result<ExtractionResult>): seq<CaseRecord>
  {
    seq(|texts|, i requires 0 <= i < |texts| => CaseFor(i, texts[i], triplets, metrics, step))
  }

  // ---------------------------------------------------------------------
  // Totals and averages
  // ---------------------------------------------------------------------

  /** The number of times `m` occurs in `xs`. */
  function Occurrences(xs: seq<string>, m: string): (n: nat)
    ensures n <= |xs|
    ensures n == 0 <==> m !in xs
  {
    if xs == [] then 0
    else Occurrences(xs[..|xs| - 1], m) + (if xs[|xs| - 1] == m then 1 else 0)
  }

  /** What one record adds to the running total of `m`: its score, when it succeeded and has one. */
  function Contribution(rec: CaseRecord, m: string): real {
    if rec.Success? && m in rec.scores then rec.scores[m] else 0.0
  }

  /** The sum of `m`'s scores over the successful records. */
  function SuccessTotal(details: seq<CaseRecord>, m: string): real {
    if details == [] then 0.0
    else SuccessTotal(details[..|details| - 1], m) + Contribution(details[|details| - 1], m)
  }

  /** `x` added `n` times to 0.0. */
  function Repeat(n: nat, x: real): real {
    if n == 0 then 0.0 else Repeat(n - 1, x) + x
  }

  lemma {:induction false} RepeatIsProduct(n: nat, x: real)
    ensures Repeat(n, x) == n as real * x
  {
    if n > 0 {
      RepeatIsProduct(n - 1, x);
    }
  }

  lemma {:induction false} RepeatZero(n: nat)
    ensures Repeat(n, 0.0) == 0.0
  {
    if n > 0 {
      RepeatZero(n - 1);
    }
  }

  lemma {:induction false} RepeatAdd(n: nat, x: real, y: real)
    ensures Repeat(n, x) + Repeat(n, y) == Repeat(n, x + y)
  {
    if n > 0 {
      RepeatAdd(n - 1, x, y);
    }
  }

  lemma {:induction false} RepeatMonotone(n: nat, x: real, y: real)
    requires x <= y
    ensures Repeat(n, x) <= Repeat(n, y)
    ensures x >= 0.0 ==> Repeat(n, x) >= 0.0
  {
    if n > 0 {
      RepeatMonotone(n - 1, x, y);
    }
  }

  /**
   * `evaluation_results`: for every requested name, its accumulated total over
   * `len(test_texts)`, and 0.0 when there are no tests. The accumulation loop
   * adds a case's score once per occurrence of the name in the request, so a
   * repeated name is counted that many times.
   */
  function Averages(details: seq<CaseRecord>, metrics: seq<string>, numTests: nat): (averages: map<string, real>)
    ensures forall m :: m in averages <==> m in metrics
  {
    map m | m in metrics :: Average(Repeat(Occurrences(metrics, m), SuccessTotal(details, m)), numTests)
  }

  /** `total / num_tests if num_tests > 0 else 0.0` */
  function Average(total: real, numTests: nat): real {
    if numTests > 0 then total / numTests as real else 0.0
  }

  lemma SuccessTotalSnoc(details: seq<CaseRecord>, rec: CaseRecord, m: string)
    ensures SuccessTotal(details + [rec], m) == SuccessTotal(details, m) + Contribution(rec, m)
  {
    assert (details + [rec])[..|details|] == details;
  }

  lemma OccurrencesSnoc(xs: seq<string>, j: nat)
    requires j < |xs|
    ensures Occurrences(xs[..j + 1], xs[j]) == Occurrences(xs[..j], xs[j]) + 1
    ensures forall m :: m != xs[j] ==> Occurrences(xs[..j + 1], m) == Occurrences(xs[..j], m)
  {
    assert xs[..j + 1][..j] == xs[..j];
  }

  /** The score a case has for `m`, 0.0 when it has none. */
  function ScoreOf(scores: map<string, real>, m: string): real {
    if m in scores then scores[m] else 0.0
  }

  /** `updated` is `totals` with `scores` added once per occurrence of each name in `prefix`. */
  ghost predicate AccumulatedFrom(updated: map<string, real>, totals: map<string, real>, prefix: seq<string>,
                            scores: map<string, real>)
  {
    && (forall m :: m in updated <==> m in totals)
    && forall m :: m in updated ==> updated[m] == totals[m] + Repeat(Occurrences(prefix, m), ScoreOf(scores, m))
  }

  lemma AccumulateStart(totals: map<string, real>, scores: map<string, real>)
    ensures AccumulatedFrom(totals, totals, [], scores)
  {
  }

  lemma AccumulateStep(before: map<string, real>, after: map<string, real>, totals: map<string, real>,
                       metrics: seq<string>, j: nat, scores: map<string, real>)
    requires j < |metrics| && metrics[j] in before
    requires AccumulatedFrom(before, totals, metrics[..j], scores)
    requires after == if metrics[j] in scores then before[metrics[j] := before[metrics[j]] + scores[metrics[j]]] else before
    ensures AccumulatedFrom(after, totals, metrics[..j + 1], scores)
  {
    var m := metrics[j];
    OccurrencesSnoc(metrics, j);
    forall x | x in after
      ensures after[x] == totals[x] + Repeat(Occurrences(metrics[..j + 1], x), ScoreOf(scores, x))
    {
      if x == m {
        var n := Occurrences(metrics[..j], m);
        assert Occurrences(metrics[..j + 1], m) == n + 1;
        assert Repeat(n + 1, ScoreOf(scores, m)) == Repeat(n, ScoreOf(scores, m)) + ScoreOf(scores, m);
        assert after[m] == before[m] + ScoreOf(scores, m);
      } else {
        assert Occurrences(metrics[..j + 1], x) == Occurrences(metrics[..j], x);
        assert after[x] == before[x];
      }
    }
  }

  /**
   * The inner loop of `evaluate_template`: for every requested name in
   * order, add the case's score of that name when it has one.
   */
  method Accumulate(totals: map<string, real>, metrics: seq<string>, scores: map<string, real>)
    returns (updated: map<string, real>)
    requires forall m :: m in metrics ==> m in totals
    ensures forall m :: m in updated <==> m in totals
    ensures forall m :: m in updated ==>
      updated[m] == totals[m] + Repeat(Occurrences(metrics, m), ScoreOf(scores, m))
  {
    updated := totals;
    AccumulateStart(totals, scores);
    for j := 0 to |metrics|
      invariant AccumulatedFrom(updated, totals, metrics[..j], scores)
    {
      var m := metrics[j];
      var before := updated;
      if m in scores {
        updated := updated[m := updated[m] + scores[m]];
      }
      AccumulateStep(before, updated, totals, metrics, j, scores);
    }
    assert metrics[..|metrics|] == metrics;
  }

  /** The running totals after the records `details`: each requested name's successful scores, once per request. */
  ghost predicate TotalsAfter(totals: map<string, real>, metrics: seq<string>, details: seq<CaseRecord>) {
    && (forall m :: m in totals <==> m in metrics)
    && forall m :: m in totals ==> totals[m] == Repeat(Occurrences(metrics, m), SuccessTotal(details, m))
  }

  lemma TotalsStart(metrics: seq<string>)
    ensures TotalsAfter(map m | m in metrics :: 0.0, metrics, [])
  {
    forall m | m in metrics ensures Repeat(Occurrences(metrics, m), SuccessTotal([], m)) == 0.0 {
      RepeatZero(Occurrences(metrics, m));
    }
  }

  lemma TotalsAfterSuccess(totals: map<string, real>, updated: map<string, real>, metrics: seq<string>,
                           details: seq<CaseRecord>, rec: CaseRecord)
    requires rec.Success? && TotalsAfter(totals, metrics, details)
    requires forall m :: m in updated <==> m in totals
    requires forall m :: m in updated ==>
      updated[m] == totals[m] + Repeat(Occurrences(metrics, m), ScoreOf(rec.scores, m))
    ensures TotalsAfter(updated, metrics, details + [rec])
  {
    forall m | m in updated
      ensures updated[m] == Repeat(Occurrences(metrics, m), SuccessTotal(details + [rec], m))
    {
      assert Contribution(rec, m) == ScoreOf(rec.scores, m);
      SuccessTotalSnoc(details, rec, m);
      RepeatAdd(Occurrences(metrics, m), SuccessTotal(details, m), Contribution(rec, m));
    }
  }

  lemma TotalsAfterFailure(totals: map<string, real>, metrics: seq<string>, details: seq<CaseRecord>,
                           rec: CaseRecord)
    requires rec.Failure? && TotalsAfter(totals, metrics, details)
    ensures TotalsAfter(totals, metrics, details + [rec])
  {
    forall m | m in totals
      ensures totals[m] == Repeat(Occurrences(metrics, m), SuccessTotal(details + [rec], m))
    {
      SuccessTotalSnoc(details, rec, m);
    }
  }

  /** `PromptEvaluationResponse`: the averages, the records and the summary built from them. */
  datatype EvaluationResponse = EvaluationResponse(
    templateId: string,
    templateName: string,
    evaluationResults: map<string, real>,
    detailedResults: seq<CaseRecord>,
    summary: Summary)

  /**
   * `evaluate_template`: one record per test text, the per-metric averages
   * over all texts, and the summary of both. The template content under
   * evaluation is part of `step`.
   */
  method EvaluateTemplate(templateId: string, templateName: string, texts: seq<string>,
                          triplets: seq<string>, metrics: seq<string>,
                          step: string -> Result<ExtractionResult>)
    returns (response: EvaluationResponse)
    ensures response.templateId == templateId && response.templateName == templateName
    ensures response.detailedResults == Cases(texts, triplets, metrics, step)
    ensures response.evaluationResults == Averages(response.detailedResults, metrics, |texts|)
    ensures response.summary
      == GenerateSummary(templateName, metrics, response.evaluationResults, response.detailedResults)
  {
    var averages, details := RunCases(texts, triplets, metrics, step);
    var summary := GenerateSummary(templateName, metrics, averages, details);
    response := EvaluationResponse(templateId, templateName, averages, details, summary);
  }

  /** The test loop of `evaluate_template` and the averages it computes from the totals. */
  method RunCases(texts: seq<string>, triplets: seq<string>, metrics: seq<string>,
                  step: string -> Result<ExtractionResult>)
    returns (averages: map<string, real>, details: seq<CaseRecord>)
    ensures details == Cases(texts, triplets, metrics, step)
    ensures averages == Averages(details, metrics, |texts|)
  {
    var totals: map<string, real> := map m | m in metrics :: 0.0;
    details := [];
    TotalsStart(metrics);
    for i := 0 to |texts|
      invariant |details| == i
      invariant forall k :: 0 <= k < i ==> details[k] == CaseFor(k, texts[k], triplets, metrics, step)
      invariant TotalsAfter(totals, metrics, details)
    {
      var text := texts[i];
      var rec: CaseRecord;
      match step(text) {
        case Ok(r) =>
          var scores := EvaluateSingleResult(r, text, triplets, metrics);
          rec := Success(i, Preview(text), r, scores);
          var updated := Accumulate(totals, metrics, scores);
          TotalsAfterSuccess(totals, updated, metrics, details, rec);
          totals := updated;
        case Err(e) =>
          rec := Failure(i, Preview(text), e, ZeroScores(metrics));
          TotalsAfterFailure(totals, metrics, details, rec);
      }
      details := details + [rec];
    }
    averages := map m | m in metrics :: Average(totals[m], |texts|);
  }

  // ---------------------------------------------------------------------
  // What the records and averages promise
  // ---------------------------------------------------------------------

  /**
   * One record per test text, in input order: record `i` has index `i` and
   * the preview of text `i`; a failed case carries 0.0 for every requested
   * name and a successful one a score for exactly the requested names the
   * evaluator knows.
   */
  lemma CasesShape(texts: seq<string>, triplets: seq<string>, metrics: seq<string>,
                   step: string -> Result<ExtractionResult>)
    ensures var details := Cases(texts, triplets, metrics, step);
      |details| == |texts|
      && forall i :: 0 <= i < |texts| ==>
        && details[i].testIndex == i && details[i].text == Preview(texts[i])
        && (details[i].Failure? <==> step(texts[i]).Err?)
        && (details[i].Failure? ==> forall m :: m in details[i].scores <==> m in metrics)
        && (details[i].Failure? ==> forall m :: m in details[i].scores ==> details[i].scores[m] == 0.0)
        && (details[i].Success? ==> forall m :: m in details[i].scores <==> m in metrics && m in KnownMetrics)
  {
  }

  lemma {:induction false} SuccessTotalBounds(details: seq<CaseRecord>, m: string)
    requires forall k :: 0 <= k < |details| ==> InUnitRange(Contribution(details[k], m))
    ensures 0.0 <= SuccessTotal(details, m) <= |details| as real
  {
    if details != [] {
      var init := details[..|details| - 1];
      assert forall k :: 0 <= k < |init| ==> init[k] == details[k];
      SuccessTotalBounds(init, m);
      assert InUnitRange(Contribution(details[|details| - 1], m));
    }
  }

  lemma {:induction false} SuccessTotalOfFailures(details: seq<CaseRecord>, m: string)
    requires forall k :: 0 <= k < |details| ==> details[k].Failure?
    ensures SuccessTotal(details, m) == 0.0
  {
    if details != [] {
      var init := details[..|details| - 1];
      assert forall k :: 0 <= k < |init| ==> init[k] == details[k];
      SuccessTotalOfFailures(init, m);
    }
  }

  lemma {:induction false} SuccessTotalOfUnknown(details: seq<CaseRecord>, m: string)
    requires m !in KnownMetrics
    requires forall k :: 0 <= k < |details| ==> details[k].Success? ==> m !in details[k].scores
    ensures SuccessTotal(details, m) == 0.0
  {
    if details != [] {
      var init := details[..|details| - 1];
      assert forall k :: 0 <= k < |init| ==> init[k] == details[k];
      SuccessTotalOfUnknown(init, m);
    }
  }

  /** Every record's contribution to any name is a score in [0, 1]. */
  lemma CasesContributions(texts: seq<string>, triplets: seq<string>, metrics: seq<string>,
                           step: string -> Result<ExtractionResult>, m: string)
    ensures var details := Cases(texts, triplets, metrics, step);
      forall k :: 0 <= k < |details| ==> InUnitRange(Contribution(details[k], m))
    ensures m !in KnownMetrics ==> var details := Cases(texts, triplets, metrics, step);
      forall k :: 0 <= k < |details| ==> details[k].Success? ==> m !in details[k].scores
  {
    var details := Cases(texts, triplets, metrics, step);
    forall k | 0 <= k < |details| ensures InUnitRange(Contribution(details[k], m)) {
      var rec := details[k];
      if rec.Success? && m in rec.scores {
        assert rec.scores == EvaluateSingleResult(rec.extraction, texts[k], triplets, metrics);
      }
    }
  }

  /** `s` added `c` times, averaged over `n` tests, lies in [0, c] when `s` lies in [0, n], and is 0 when `s` is. */
  lemma ScaledAverageBound(c: nat, s: real, n: nat)
    requires 0.0 <= s <= n as real
    ensures 0.0 <= Average(Repeat(c, s), n) <= c as real
    ensures s == 0.0 ==> Average(Repeat(c, s), n) == 0.0
  {
    RepeatMonotone(c, s, n as real);
    RepeatIsProduct(c, n as real);
    if n > 0 {
      QuotientBound(Repeat(c, s), n as real, c as real);
    }
    if s == 0.0 {
      RepeatZero(c);
    }
  }

  lemma QuotientBound(t: real, n: real, c: real)
    requires n > 0.0 && 0.0 <= t <= c * n
    ensures 0.0 <= t / n <= c
  {
    assert t / n <= (c * n) / n;
  }

  /** The average of one requested name, in terms of the records' contributions. */
  lemma AverageBound(details: seq<CaseRecord>, metrics: seq<string>, numTests: nat, m: string)
    requires m in metrics && |details| == numTests
    requires forall k :: 0 <= k < |details| ==> InUnitRange(Contribution(details[k], m))
    ensures 0.0 <= Averages(details, metrics, numTests)[m] <= Occurrences(metrics, m) as real
    ensures SuccessTotal(details, m) == 0.0 ==> Averages(details, metrics, numTests)[m] == 0.0
  {
    SuccessTotalBounds(details, m);
    ScaledAverageBound(Occurrences(metrics, m), SuccessTotal(details, m), numTests);
  }

  /**
   * Every average lies between 0.0 and the number of times its name was
   * requested (so in [0, 1] for a name requested once); a name the evaluator
   * does not know averages 0.0; no tests give 0.0 everywhere.
   */
  lemma AveragesBounds(texts: seq<string>, triplets: seq<string>, metrics: seq<string>,
                       step: string -> Result<ExtractionResult>)
    ensures var averages := Averages(Cases(texts, triplets, metrics, step), metrics, |texts|);
      && (forall m :: m in averages <==> m in metrics)
      && (forall m :: m in averages ==> 0.0 <= averages[m] <= Occurrences(metrics, m) as real)
      && (forall m :: m in averages && m !in KnownMetrics ==> averages[m] == 0.0)
      && (|texts| == 0 ==> forall m :: m in averages ==> averages[m] == 0.0)
  {
    var details := Cases(texts, triplets, metrics, step);
    var averages := Averages(details, metrics, |texts|);
    forall m | m in averages
      ensures 0.0 <= averages[m] <= Occurrences(metrics, m) as real
      ensures m !in KnownMetrics ==> averages[m] == 0.0
    {
      CasesContributions(texts, triplets, metrics, step, m);
      if m !in KnownMetrics {
        SuccessTotalOfUnknown(details, m);
      }
      AverageBound(details, metrics, |texts|, m);
    }
  }

  // ---------------------------------------------------------------------
  // Summary
  // ---------------------------------------------------------------------

  /** The recommendation `_generate_evaluation_summary` picks from the mean score. */
  datatype Tier = Excellent | Good | Fair | Poor

  function TierOf(mean: real): (t: Tier)
    ensures t == Excellent <==> mean >= 0.8
    ensures t == Good <==> 0.6 <= mean < 0.8
    ensures t == Fair <==> 0.4 <= mean < 0.6
    ensures t == Poor <==> mean < 0.4
  {
    if mean >= 0.8 then Excellent
    else if mean >= 0.6 then Good
    else if mean >= 0.4 then Fair
    else Poor
  }

  function Rank(t: Tier): nat {
    match t
    case Poor => 0
    case Fair => 1
    case Good => 2
    case Excellent => 3
  }

  /** A higher mean never gets a worse recommendation. */
  lemma TierMonotone(a: real, b: real)
    requires a <= b
    ensures Rank(TierOf(a)) <= Rank(TierOf(b))
  {
  }

  /** The distinct names of `xs` in order of first occurrence (the keys of a dict built from `xs`). */
  function Distinct(xs: seq<string>): (ys: seq<string>)
    ensures forall x :: x in ys <==> x in xs
    ensures forall i, j :: 0 <= i < j < |ys| ==> ys[i] != ys[j]
  {
    if xs == [] then []
    else
      var init := Distinct(xs[..|xs| - 1]);
      var last := xs[|xs| - 1];
      assert forall x :: x in xs <==> x in xs[..|xs| - 1] || x == last by {
        assert xs == xs[..|xs| - 1] + [last];
      }
      if last in init then init else init + [last]
  }

  function SumOver(keys: seq<string>, values: map<string, real>): real
    requires forall k :: k in keys ==> k in values
  {
    if keys == [] then 0.0 else values[keys[0]] + SumOver(keys[1..], values)
  }

  /** `sum(1 for result in detailed_results if "error" not in result)` */
  function SuccessCount(details: seq<CaseRecord>): (n: nat)
    ensures n <= |details|
    ensures n == 0 <==> forall k :: 0 <= k < |details| ==> details[k].Failure?
  {
    if details == [] then 0
    else
      assert forall k :: 1 <= k < |details| ==> details[k] == details[1..][k - 1];
      (if details[0].Success? then 1 else 0) + SuccessCount(details[1..])
  }

  /** The figures of the summary text; the `:.2f` formatting is not modelled. */
  datatype Summary = Summary(
    templateName: string,
    successful: nat,
    total: nat,
    successRate: real,
    meanScore: real,
    tier: Tier)

  /**
   * `_generate_evaluation_summary`: success count and rate (0.0 without
   * records), the mean of the averages over the distinct requested names
   * (0.0 without names), and the recommendation tier of that mean.
   */
  function GenerateSummary(templateName: string, metrics: seq<string>, averages: map<string, real>,
                           details: seq<CaseRecord>): (s: Summary)
    requires forall m :: m in metrics ==> m in averages
    ensures s.successful == SuccessCount(details) <= s.total == |details|
    ensures s.total > 0 ==> s.successRate == s.successful as real / s.total as real
    ensures s.total == 0 ==> s.successRate == 0.0
    ensures InUnitRange(s.successRate)
    ensures s.successRate == 1.0 <==> details != [] && forall k :: 0 <= k < |details| ==> details[k].Success?
    ensures s.successful == 0 ==> s.successRate == 0.0
    ensures metrics == [] ==> s.meanScore == 0.0
    ensures metrics != [] ==> s.meanScore == SumOver(Distinct(metrics), averages) / |Distinct(metrics)| as real
    ensures s.tier == TierOf(s.meanScore)
  {
    var successful := SuccessCount(details);
    var total := |details|;
    var rate := if total > 0 then successful as real / total as real else 0.0;
    var keys := Distinct(metrics);
    var mean := if keys != [] then SumOver(keys, averages) / |keys| as real else 0.0;
    AllSucceeded(details);
    ShareInUnitRange(successful, if total > 0 then total else 1);
    Summary(templateName, successful, total, rate, mean, TierOf(mean))
  }

  /**
   * The mean score lies between the least and the greatest requested
   * average, so it equals `c` when every requested average is `c`, and the
   * recommendation follows from the averages alone.
   */
  lemma SummaryMeanBetween(templateName: string, metrics: seq<string>, averages: map<string, real>,
                           details: seq<CaseRecord>, lo: real, hi: real)
    requires metrics != []
    requires forall m :: m in metrics ==> m in averages && lo <= averages[m] <= hi
    ensures var s := GenerateSummary(templateName, metrics, averages, details);
      lo <= s.meanScore <= hi
    ensures lo == hi ==> GenerateSummary(templateName, metrics, averages, details).meanScore == lo
  {
    var keys := Distinct(metrics);
    assert metrics[0] in keys;
    KeysMeanBetween(keys, averages, lo, hi);
  }

  lemma KeysMeanBetween(keys: seq<string>, values: map<string, real>, lo: real, hi: real)
    requires keys != []
    requires forall k :: k in keys ==> k in values && lo <= values[k] <= hi
    ensures lo <= SumOver(keys, values) / |keys| as real <= hi
  {
    var t, n := SumOver(keys, values), |keys|;
    SumOverBetween(keys, values, lo, hi);
    assert Repeat(n, lo) <= t <= Repeat(n, hi);
    RepeatIsProduct(n, lo);
    RepeatIsProduct(n, hi);
    MeanBetween(t, n as real, lo, hi);
  }

  /** A sum over `n` keys whose values lie in [lo, hi] lies between `n` copies of each. */
  lemma {:induction false} SumOverBetween(keys: seq<string>, values: map<string, real>, lo: real, hi: real)
    requires forall k :: k in keys ==> k in values && lo <= values[k] <= hi
    ensures Repeat(|keys|, lo) <= SumOver(keys, values) <= Repeat(|keys|, hi)
  {
    if keys != [] {
      SumOverBetween(keys[1..], values, lo, hi);
    }
  }

  lemma MeanBetween(t: real, n: real, lo: real, hi: real)
    requires n > 0.0 && n * lo <= t <= n * hi
    ensures lo <= t / n <= hi
  {
    assert (n * lo) / n == lo;
    assert (n * hi) / n == hi;
  }

  lemma {:induction false} AllSucceeded(details: seq<CaseRecord>)
    ensures SuccessCount(details) == |details| <==> forall k :: 0 <= k < |details| ==> details[k].Success?
  {
    if details != [] {
      AllSucceeded(details[1..]);
      assert forall k :: 1 <= k < |details| ==> details[k] == details[1..][k - 1];
    }
  }

  // ---------------------------------------------------------------------
  // The render step as written
  // ---------------------------------------------------------------------

  /**
   * The step as `evaluate_template` writes it: it calls
   * `get_active_template` on a fresh `EnhancedPromptManager`, a method the
   * class does not define, so every call raises AttributeError.
   */
  function AsWrittenStep(text: string): Result<ExtractionResult> {
    Err("'EnhancedPromptManager' object has no attribute 'get_active_template'")
  }

  /**
   * As written, every case fails: no record succeeds, every average is 0.0
   * and the summary reports no successes and the lowest tier.
   */
  lemma AsWrittenEvaluationAlwaysFails(templateName: string, texts: seq<string>, triplets: seq<string>,
                                       metrics: seq<string>)
    ensures var details := Cases(texts, triplets, metrics, AsWrittenStep);
      forall k :: 0 <= k < |details| ==> details[k].Failure?
    ensures var averages := Averages(Cases(texts, triplets, metrics, AsWrittenStep), metrics, |texts|);
      forall m :: m in averages ==> averages[m] == 0.0
    ensures var details := Cases(texts, triplets, metrics, AsWrittenStep);
      var summary := GenerateSummary(templateName, metrics, Averages(details, metrics, |texts|), details);
      && summary.successful == 0 && summary.successRate == 0.0
      && summary.meanScore == 0.0 && summary.tier == Poor
  {
    var details := Cases(texts, triplets, metrics, AsWrittenStep);
    var averages := Averages(details, metrics, |texts|);
    AsWrittenCasesFail(texts, triplets, metrics);
    forall m | m in averages ensures averages[m] == 0.0 {
      SuccessTotalOfFailures(details, m);
      ScaledAverageBound(Occurrences(metrics, m), 0.0, |texts|);
    }
    SummaryOfZeros(templateName, metrics, averages, details);
  }

  lemma AsWrittenCasesFail(texts: seq<string>, triplets: seq<string>, metrics: seq<string>)
    ensures var details := Cases(texts, triplets, metrics, AsWrittenStep);
      forall k :: 0 <= k < |details| ==> details[k].Failure?
  {
  }

  /** With no successful record and all averages 0.0 the summary is the lowest tier. */
  lemma SummaryOfZeros(templateName: string, metrics: seq<string>, averages: map<string, real>,
                       details: seq<CaseRecord>)
    requires forall m :: m in metrics ==> m in averages && averages[m] == 0.0
    requires forall k :: 0 <= k < |details| ==> details[k].Failure?
    ensures var summary := GenerateSummary(templateName, metrics, averages, details);
      summary.successful == 0 && summary.successRate == 0.0 && summary.meanScore == 0.0 && summary.tier == Poor
  {
    ZeroSum(Distinct(metrics), averages);
  }

  lemma {:induction false} ZeroSum(keys: seq<string>, values: map<string, real>)
    requires forall k :: k in keys ==> k in values && values[k] == 0.0
    ensures SumOver(keys, values) == 0.0
  {
    if keys != [] {
      ZeroSum(keys[1..], values);
    }
  }

  /**
   * The step the evaluation evidently intends: render the template content
   * under evaluation with the text and the schema, then extract from the
   * prompt. Both stages may fail.
   */
  function IntendedStep(content: string, triplets: seq<string>,
                        render: (string, string, seq<string>) -> Result<string>,
                        extract: string -> Result<ExtractionResult>): string -> Result<ExtractionResult>
  {
    text =>
      match render(content, text, triplets)
      case Err(e) => Err(e)
      case Ok(prompt) => extract(prompt)
  }

  /**
   * With the intended step, a text whose prompt renders and extracts
   * successfully yields a successful record scored on that extraction, and
   * its scores enter the averages.
   */
  lemma IntendedStepScoresCase(content: string, texts: seq<string>, triplets: seq<string>, metrics: seq<string>,
                               render: (string, string, seq<string>) -> Result<string>,
                               extract: string -> Result<ExtractionResult>, i: nat)
    requires i < |texts|
    requires render(content, texts[i], triplets).Ok?
    requires extract(render(content, texts[i], triplets).value).Ok?
    ensures var step := IntendedStep(content, triplets, render, extract);
      var r := extract(render(content, texts[i], triplets).value).value;
      var details := Cases(texts, triplets, metrics, step);
      && details[i] == Success(i, Preview(texts[i]), r, EvaluateSingleResult(r, texts[i], triplets, metrics))
      && forall m :: m in KnownMetrics && m in metrics ==> Contribution(details[i], m) == MetricScore(m, r, texts[i], triplets)
  {
  }
}
