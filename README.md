# Prompt templates and extraction scoring, modelled in Dafny

This project models the core of a knowledge-graph extraction service. A
prompt template asks a language model to extract nodes and relationships from
a text. The model covers three parts of the service:

- **Schema helpers** (`app/utils.py`, module `Utils`, file `utils.dfy`):
  - entity ids of the form `type_index`;
  - three regular expressions that read the source type, relation type and
    target type out of a schema triplet such as `Person-HAS_PHONE->Phone`;
  - the sorted lists of allowed node types and relations of a schema.
- **Template evaluator** (`app/prompt_evaluator.py`, modules `Scoring` and
  `PromptEvaluator`, files `scoring.dfy` and `evaluator.dfy`). It runs each
  test text through rendering and extraction, and scores every result on
  four metrics: completeness, accuracy, consistency and relevance. It then
  averages the scores per requested metric and summarises the run with a
  success rate, a mean score and a rating tier.
- **Template manager** (`app/prompt_manager.py`, module `PromptManager`, file
  `manager.dfy`). It is a store of templates in insertion order, with an
  index from language to default template. The store can create, update,
  delete, get, list (filtered and paged), render, duplicate and report
  statistics.

Supporting modules:

- `Wrappers` (`wrappers.dfy`): `Option` and `Result`.
- `Text` (`text.dfy`): the Python string operations the code relies on, each
  modelled on its own:
  - `str.split(sep)` and `str.split()`;
  - `in` on strings;
  - `lower()`;
  - code-point ordering and `sorted`.

Choices made in the model:

- Scores are exact rationals (`real`).
- Timestamps are whole seconds.
- Fresh ids (`uuid4`) and the current time are parameters.
- A field missing from an extraction result's node or relationship reads as
  `""`, as the code's `.get(key, "")` does.
- Rendering a template and calling the extraction service form one abstract
  step, `string -> Result<ExtractionResult>`. `Err` stands for any exception
  that the evaluator's catch-all turns into a failed case.

## Model

| member | source | states |
|---|---|---|
| Text.Find | app/prompt_evaluator.py:296 | the leftmost occurrence of a separator; `None` exactly when `sep in s` is false |
| Text.Contains | app/prompt_evaluator.py:226 | Python's `needle in hay`: the needle occurs at some index of the haystack |
| Text.Lower | app/prompt_evaluator.py:226 | `str.lower` on ASCII letters, character by character, keeping the length |
| Text.Split | app/prompt_evaluator.py:293 | `str.split(sep)` yields at least one part, two or more exactly when the separator occurs; joining the parts with the separator gives the string back, and no part contains the separator |
| Text.SplitOnce | app/prompt_evaluator.py:306 | `split(sep, 1)` yields one or two parts, two exactly when the separator occurs |
| Text.SplitHead | app/prompt_evaluator.py:306 | at the first occurrence `i`, the first part is `s[..i]` and `split(sep, 1)` is the text before and after it |
| Text.NonSpaceRun | app/prompt_evaluator.py:244 | the maximal run of non-whitespace characters at the start of a string |
| Text.Tokens | app/prompt_evaluator.py:244 | every token of `str.split()` is non-empty, holds no whitespace and occurs in the string |
| Text.TokensSplitAtSpace | app/prompt_evaluator.py:244 | a whitespace character separates the tokens: those of `a + c + b` are those of `a` followed by those of `b`, which with TokensOfWord and TokensOfBlank fixes the tokens, their order and their count |
| Text.TokensAreMaximalRuns | app/prompt_evaluator.py:230 | the tokens of `str.split()` are exactly the maximal runs of non-whitespace characters: a string is a token iff it occurs with whitespace or an end of the string on both sides |
| Text.ContainsSuffix | app/prompt_evaluator.py:230 | a substring of a suffix is a substring of the whole string |
| Text.TokensOfWord | app/prompt_evaluator.py:230 | a non-empty string without whitespace splits into exactly itself |
| Text.TokensOfBlank | app/prompt_evaluator.py:244 | an all-whitespace string has no tokens |
| Text.LexLessIrreflexive | app/utils.py:62 | the string order used by `sorted` is irreflexive |
| Text.LexLess | app/utils.py:62 | the code-point order `sorted` uses: a proper prefix comes first, otherwise the first differing character decides |
| Text.LexLessTransitive | app/utils.py:62 | the string order is transitive |
| Text.LexLessTotal | app/utils.py:62 | two different strings are ordered one way or the other |
| Text.LexLessAsymmetric | app/utils.py:62 | the string order is asymmetric |
| Text.Insert | app/utils.py:62 | inserting into a strictly sorted list keeps it strictly sorted and adds exactly the new element |
| Text.StrictlySortedUnique | app/utils.py:62 | two strictly sorted lists with the same elements are equal, so `sorted(set)` is determined by the set |
| Text.HeadIsMember | app/utils.py:62 | the first element of a non-empty list is in it |
| Text.TailMember | app/utils.py:62 | in a strictly sorted list, the tail holds every element except the head |
| Text.SortedList | app/utils.py:62 | `sorted(list(s))` is strictly sorted and holds exactly the elements of `s` |
| Utils.WordRunFrom | app/utils.py:24 | the greedy `[A-Za-z0-9_]+` run: all word characters, and stopped by a non-word character or the end |
| Utils.WordRunExact | app/utils.py:24 | a word run followed by a non-word character or the end is the greedy run |
| Utils.ExtractEntityType | app/utils.py:20-27 | `Some` exactly when the triplet starts with a word run followed by `-`; the result is that prefix |
| Utils.RelationMatchLength | app/utils.py:34 | the relation group of a match is the maximal word run after the dash |
| Utils.SearchRelation | app/utils.py:34 | `re.search` scans left to right: the first position with a match, or none from there on |
| Utils.ExtractRelationType | app/utils.py:30-37 | `Some` exactly when some `-word->` occurs; the result is the word of the leftmost occurrence |
| Utils.RelationFoundAt | app/utils.py:34 | a `-word->` match with no dash before it is the one `re.search` finds, and its word is the result |
| Utils.TargetMatchLength | app/utils.py:44 | the target group of a match is the maximal word run after the arrow |
| Utils.SearchTarget | app/utils.py:44 | the first position with a `->word` match, or none from there on |
| Utils.ExtractTargetType | app/utils.py:40-47 | `Some` exactly when some `->word` occurs; the result is the greedy word after the leftmost arrow |
| Utils.TargetFoundAt | app/utils.py:44 | a `->word` match with no arrow before it is the one `re.search` finds, and its word is the result |
| Utils.TripletLayout | app/utils.py:22 | where source, relation and target sit inside `a-b->c` |
| Utils.WellFormedSource | app/utils.py:20-27 | for a well-formed triplet `a-b->c` the source extractor returns `a` |
| Utils.WellFormedRelation | app/utils.py:30-37 | for a well-formed triplet the relation extractor returns `b` |
| Utils.WellFormedTarget | app/utils.py:40-47 | for a well-formed triplet the target extractor returns `c` |
| Utils.ExtractExample | app/utils.py:22 | `Person-HAS_PHONE->Phone` gives `Person`, `HAS_PHONE` and `Phone` |
| Utils.GetAllowedNodeTypes | app/utils.py:50-62 | the result is strictly sorted and holds exactly the extracted sources and targets of the schema |
| Utils.GetAllowedRelations | app/utils.py:65-74 | the result is strictly sorted and holds exactly the extracted relation types of the schema |
| Utils.AllowedListsDependOnSet | app/utils.py:50-74 | both lists depend only on the set of triplets, not on their order or repeats |
| Utils.Digits | app/utils.py:17 | the decimal digits of a number, without leading zeros |
| Utils.DigitsRoundTrip | app/utils.py:17 | the decimal digits read back as the number |
| Utils.LeadingZeros | app/utils.py:17 | zero padding does not change the value read back |
| Utils.ZerosValue | app/utils.py:17 | a run of zeros reads as 0 |
| Utils.Zeros | app/utils.py:17 | a run of exactly `z` zeros |
| Utils.FormatIndexReadsBack | app/utils.py:17 | `{index:03d}` has at least three characters and reads back as the index; a negative index is a sign plus two padded digits |
| Utils.FormatIndex | app/utils.py:17 | `{index:03d}`: the decimal digits zero-padded to width 3, with a minus sign counted inside the width |
| Utils.GenerateId | app/utils.py:13-17 | the id is the lowercased type, `_`, and the zero-padded index, which reads back as the index |
| Utils.GenerateIdExample | app/utils.py:15 | `generate_id("Person", 1)` is `person_001` |
| Scoring.SumOfUnitScores | app/prompt_evaluator.py:173 | a sum of scores in [0, 1] lies between 0 and the number of scores |
| Scoring.MeanOfUnitScores | app/prompt_evaluator.py:173 | a mean of scores in [0, 1] lies in [0, 1] |
| Scoring.SumAppend | app/prompt_evaluator.py:173 | the sum of a concatenation is the sum of the sums |
| Scoring.EvalAllowedTypes | app/prompt_evaluator.py:289-299 | the allowed types are the split-based types of the triplets, and nothing else |
| Scoring.TypesOfTriplet | app/prompt_evaluator.py:292-298 | the types one triplet contributes: the text before the first `-` when there is a `-`, and the text from the first `->` up to the next `->` or the end when there is a `->` |
| Scoring.RelationOfTripletSpec | app/prompt_evaluator.py:306 | the first `-` comes no later than the first `->`; the read raises exactly when they coincide, else it yields the text between them |
| Scoring.RelationOfTriplet | app/prompt_evaluator.py:306 | `split('->')[0].split('-', 1)[1]`, failing with the IndexError when the part before the first `->` has no `-` |
| Scoring.EvalAllowedRelations | app/prompt_evaluator.py:301-308 | raises exactly when some triplet with an arrow has no dash before it; otherwise holds the relation read from each triplet with an arrow |
| Scoring.TripletFirstDash | app/prompt_evaluator.py:293 | in `a-b->c` with a word source, the first dash follows the source |
| Scoring.TripletFirstArrow | app/prompt_evaluator.py:297 | in `a-b->c` with word parts, the first arrow follows the relation |
| Scoring.SplitWordOnArrow | app/prompt_evaluator.py:297 | a word contains no arrow, so splitting it on `->` gives the word |
| Scoring.EvalTypesOfWellFormed | app/prompt_evaluator.py:289-299 | for a well-formed triplet the evaluator reads the types `{a, c}` |
| Scoring.EvalRelationOfWellFormed | app/prompt_evaluator.py:301-308 | for a well-formed triplet the evaluator reads the relation `b` |
| Scoring.EvalReadersAgreeOnWellFormed | app/prompt_evaluator.py:289-308 | on well-formed triplets the evaluator's split-based readers agree with the regular expressions of `app/utils.py` |
| Scoring.ReadersDisagreeOnMissingRelation | app/prompt_evaluator.py:306 | on `A->B` the regular expression finds no relation, while the evaluator's reader raises |
| Scoring.EstimateEntities | app/prompt_evaluator.py:240-245 | at least 1, and `floor(words / 20)` once there are 20 words or more |
| Scoring.QuotientFacts | app/prompt_evaluator.py:142 | the share `nodes / estimate` is non-negative, positive with nodes, and at least 1 once the nodes reach the estimate |
| Scoring.Completeness | app/prompt_evaluator.py:123-150 | in [0, 1]; 0 exactly when nothing was extracted; 0.3 for relationships without nodes; 1 once the node count reaches the estimate |
| Scoring.NodeAccuracy | app/prompt_evaluator.py:247-266 | in [0, 1]; 1 exactly when all three checks pass; 0 exactly when none does |
| Scoring.RelationshipAccuracy | app/prompt_evaluator.py:268-287 | raises exactly when reading the allowed relations raises; otherwise in [0, 1], and 1 exactly when all three checks pass |
| Scoring.NodeScores | app/prompt_evaluator.py:164-166 | one node score per node, in order, each in [0, 1] |
| Scoring.RelationshipScores | app/prompt_evaluator.py:169-171 | one relationship score per relationship, in order, each in [0, 1] |
| Scoring.Accuracy | app/prompt_evaluator.py:152-176 | in [0, 1]; 0 for an empty result; 0 when a relationship's check raises |
| Scoring.AllOnesAppend | app/prompt_evaluator.py:173 | all scores of a concatenation are 1 exactly when all scores of both parts are |
| Scoring.AccuracyPerfect | app/prompt_evaluator.py:152-176 | accuracy is 1 exactly when something was extracted, no check raised, and every node and relationship is perfect |
| Scoring.MeanIsOneIffAllOne | app/prompt_evaluator.py:173 | a mean of unit scores is 1 exactly when the list is non-empty and every score is 1 |
| Scoring.SumIsLengthIffAllOne | app/prompt_evaluator.py:173 | unit scores sum to their count exactly when every score is 1 |
| Scoring.TrailingDigits | app/prompt_evaluator.py:190 | the maximal run of ASCII digits at the end of a string |
| Scoring.IdShapeScan | app/prompt_evaluator.py:190 | the scan accepts exactly the strings of the form letters-or-underscores, `_`, digits |
| Scoring.IdShapeByTrailingDigits | app/prompt_evaluator.py:190 | the id shape holds exactly when, with the trailing digits stripped, what is left is letters and underscores ending in `_` |
| Scoring.ShapeGivesScan | app/prompt_evaluator.py:190 | every string of the id shape passes the scan |
| Scoring.IdShapeFromScan | app/prompt_evaluator.py:190 | a successful scan yields the id shape |
| Scoring.ScanFromIdShape | app/prompt_evaluator.py:190 | the id shape yields a successful scan |
| Scoring.MatchesIdPattern | app/prompt_evaluator.py:190-191 | `^[a-zA-Z_]+_\d+$` with `match`: the id shape, also when followed by one final newline |
| Scoring.GeneratedIdsPassIdCheck | app/prompt_evaluator.py:190 | every id that `generate_id` makes from a letter type and a non-negative index passes the consistency id check |
| Scoring.CountMatchingIds | app/prompt_evaluator.py:191 | at most the node count, and equal to it exactly when every id matches |
| Scoring.TypeSetCons | app/prompt_evaluator.py:195-196 | the type set of a list is its head's type plus the tail's type set |
| Scoring.TypeSetSize | app/prompt_evaluator.py:196 | there are no more distinct types than nodes, at least one for a non-empty list, and as many exactly when the types are distinct |
| Scoring.CountValidRefs | app/prompt_evaluator.py:202-203 | at most the relationship count, and equal to it exactly when every endpoint is a node id |
| Scoring.ShareInUnitRange | app/prompt_evaluator.py:191 | `k / n` lies in [0, 1], is positive when `k` is, and is 1 exactly when `k == n` |
| Scoring.Consistency | app/prompt_evaluator.py:178-210 | in [0, 1]; 0 without nodes; positive with nodes (the type share is never 0) |
| Scoring.ConsistencyPerfect | app/prompt_evaluator.py:178-210 | consistency is 1 exactly when there are nodes, every id matches, the types are distinct, and every relationship endpoint is a node id |
| Scoring.NodeRelevance | app/prompt_evaluator.py:222-233 | 0, 0.5 or 1; 1 exactly when the non-empty name occurs in the text ignoring case; 0.5 exactly when it does not but some whitespace-separated word of the lowered name occurs in the lowered text |
| Scoring.ContainsIgnoringCase | app/prompt_evaluator.py:226 | `name.lower() in text.lower()` |
| Scoring.OneWordNameNeverPartial | app/prompt_evaluator.py:226-231 | a name without whitespace never scores the partial 0.5 |
| Scoring.Relevance | app/prompt_evaluator.py:212-238 | in [0, 1]; 0 without nodes; 1 exactly when every node's name is found in the text |
| Scoring.RelevanceExampleFound | app/prompt_evaluator.py:226-227 | a node named `Alice` in `Alice works at Acme Corp` has relevance 1 |
| Scoring.MetricScore | app/prompt_evaluator.py:109-119 | each known name selects its own metric: completeness, accuracy, consistency or relevance of the result; the score lies in [0, 1] |
| Scoring.EvaluateSingleResult | app/prompt_evaluator.py:99-121 | the scores hold exactly the requested known metrics; each key holds the score of the metric it names, in [0, 1] |
| PromptEvaluator.Preview | app/prompt_evaluator.py:61 | a text of at most 100 characters is kept; a longer one becomes its first 100 characters and `...` |
| PromptEvaluator.CaseFor | app/prompt_evaluator.py:39-77 | one test case: a successful step gives a record with its index, preview, extraction and scores; a failing step gives an error record with every requested metric at 0 |
| PromptEvaluator.Cases | app/prompt_evaluator.py:38-77 | one record per test text, in order, each built by the case step |
| PromptEvaluator.ZeroScores | app/prompt_evaluator.py:76 | a failed case scores every requested metric 0 |
| PromptEvaluator.Occurrences | app/prompt_evaluator.py:67-69 | how often a metric is requested; 0 exactly when it is not |
| PromptEvaluator.SuccessTotal | app/prompt_evaluator.py:66-69 | the sum of a metric's scores over the successful records, the quantity the accumulation loop builds once per request |
| PromptEvaluator.Averages | app/prompt_evaluator.py:79-84 | a key for exactly the requested metrics; each value is its accumulated total over the number of tests |
| PromptEvaluator.Average | app/prompt_evaluator.py:82 | `total / num_tests if num_tests > 0 else 0.0` |
| PromptEvaluator.RepeatIsProduct | app/prompt_evaluator.py:67-69 | adding a score `n` times adds `n` times the score |
| PromptEvaluator.RepeatZero | app/prompt_evaluator.py:36 | adding 0 any number of times gives 0 |
| PromptEvaluator.RepeatAdd | app/prompt_evaluator.py:67-69 | repeated additions of two scores combine |
| PromptEvaluator.RepeatMonotone | app/prompt_evaluator.py:67-69 | repeated addition is monotone and keeps non-negative scores non-negative |
| PromptEvaluator.SuccessTotalSnoc | app/prompt_evaluator.py:67-69 | appending a case adds its contribution to a metric's total |
| PromptEvaluator.OccurrencesSnoc | app/prompt_evaluator.py:67 | one more entry of the metric list counts once, for that metric only |
| PromptEvaluator.AccumulateStep | app/prompt_evaluator.py:67-69 | one more pass of the inner loop adds the case's score for that name once and leaves the other totals alone |
| PromptEvaluator.Accumulate | app/prompt_evaluator.py:66-69 | the totals keep their keys; each requested metric present in the scores gains its score once per request |
| PromptEvaluator.TotalsAfterSuccess | app/prompt_evaluator.py:55-69 | after a successful case, each requested total holds its earlier successes plus this case's score, once per request |
| PromptEvaluator.TotalsAfterFailure | app/prompt_evaluator.py:71-77 | a failed case leaves every total as it was |
| PromptEvaluator.EvaluateTemplate | app/prompt_evaluator.py:23-97 | the response carries the template id and name, the records and averages of the test loop, and the summary of those averages and records |
| PromptEvaluator.RunCases | app/prompt_evaluator.py:35-84 | the loop yields one record per text, in order, a failure exactly when the step fails, and averages of the totals over the number of tests, 0 without tests |
| PromptEvaluator.CasesShape | app/prompt_evaluator.py:38-77 | record `i` has index `i` and the preview of text `i`; failures score every requested metric 0; successes score the requested known metrics |
| PromptEvaluator.SuccessTotalBounds | app/prompt_evaluator.py:67-69 | a total of unit contributions lies between 0 and the number of cases |
| PromptEvaluator.SuccessTotalOfFailures | app/prompt_evaluator.py:71-77 | failed cases contribute nothing to any total |
| PromptEvaluator.SuccessTotalOfUnknown | app/prompt_evaluator.py:68 | an unknown metric never gains a score |
| PromptEvaluator.CasesContributions | app/prompt_evaluator.py:55-69 | every contribution is a unit score, and an unknown metric's contributions are 0 |
| PromptEvaluator.ScaledAverageBound | app/prompt_evaluator.py:82 | a total of unit scores over `n` tests, added `c` times and averaged, lies in [0, c], and is 0 when the total is |
| PromptEvaluator.AverageBound | app/prompt_evaluator.py:79-84 | a metric's average lies in [0, its request count], and is 0 when its total is |
| PromptEvaluator.AveragesBounds | app/prompt_evaluator.py:79-84 | averages hold exactly the requested metrics, each between 0 and its request count; unknown metrics and empty runs average 0 |
| PromptEvaluator.TierOf | app/prompt_evaluator.py:331-339 | excellent from 0.8, good from 0.6, fair from 0.4, poor below |
| PromptEvaluator.TierMonotone | app/prompt_evaluator.py:331-339 | a higher mean never gets a lower tier |
| PromptEvaluator.Distinct | app/prompt_evaluator.py:81-84 | the metric names without repeats and with nothing else, as the keys of the averages dictionary |
| PromptEvaluator.SuccessCount | app/prompt_evaluator.py:324 | at most the case count, and 0 exactly when every case failed |
| PromptEvaluator.GenerateSummary | app/prompt_evaluator.py:310-341 | the success count is the number of records without an error; the rate is that count over the record count (0 without records), lies in [0, 1], and is 1 exactly when every case succeeded; the mean is the mean of the averages over the distinct requested metrics (0 without metrics); the tier follows the mean |
| PromptEvaluator.SummaryMeanBetween | app/prompt_evaluator.py:331-339 | the mean score lies between the least and the greatest requested average, and equals c when every requested average is c |
| PromptEvaluator.AllSucceeded | app/prompt_evaluator.py:324 | every case counts as successful exactly when none failed |
| PromptEvaluator.AsWrittenEvaluationAlwaysFails | app/prompt_evaluator.py:41-49 | with the step as written, every case fails, every average is 0, and the summary reports rate 0, mean 0 and tier poor |
| PromptEvaluator.SummaryOfZeros | app/prompt_evaluator.py:310-341 | all-zero averages over failed cases summarise as rate 0, mean 0, poor |
| PromptEvaluator.ZeroSum | app/prompt_evaluator.py:331 | a sum of zero averages is 0 |
| PromptEvaluator.IntendedStepScoresCase | app/prompt_evaluator.py:41-69 | with the corrected step, a case whose render and extraction succeed is a success scored by the single-result evaluation, and contributes each metric's score |
| PromptManager.Truthy | app/prompt_manager.py:167 | Python truthiness of a JSON value: null, false, 0, "", [] and {} are false |
| PromptManager.IsDefault | app/prompt_manager.py:167 | `metadata.get("is_default")` is truthy |
| PromptManager.DefaultZhTemplate | app/prompt_manager.py:38-47 | the seeded Chinese template: its name, description, language `zh`, version 1.0.0, tags and `is_default` flag |
| PromptManager.DefaultEnTemplate | app/prompt_manager.py:52-61 | the seeded English template, with language `en` |
| PromptManager.Without | app/prompt_manager.py:220 | deleting a key keeps the other keys in order and without repeats |
| PromptManager.DistinctCardinality | app/prompt_manager.py:324 | a key order without repeats has as many keys as the dictionary |
| PromptManager.DefaultIndex | app/prompt_manager.py:164-168 | every indexed default is a stored template, flagged as default, of its language |
| PromptManager.DefaultIndexDomain | app/prompt_manager.py:164-168 | a language is indexed exactly when one of its templates is flagged as default |
| PromptManager.DefaultIndexIsLastFlagged | app/prompt_manager.py:164-168 | a language's default is its last flagged template in key order |
| PromptManager.DefaultIndexFrame | app/prompt_manager.py:164-168 | the index does not depend on templates under keys it does not scan |
| PromptManager.CopyOfDefaultTakesOverOnReload | app/prompt_manager.py:300-319 | a copy keeps `is_default`, so after a reload the copy of a default becomes its language's default and other languages keep theirs |
| PromptManager.FilterSeq | app/prompt_manager.py:236-247 | a list comprehension filter keeps exactly the elements satisfying the condition |
| PromptManager.HasLanguage | app/prompt_manager.py:235-236 | an empty language filter keeps everything; otherwise the language must be equal |
| PromptManager.HasAnyTag | app/prompt_manager.py:238-239 | an empty tag filter keeps everything; otherwise some requested tag is among the template's tags |
| PromptManager.HasKeyword | app/prompt_manager.py:243-247 | an empty keyword keeps everything; otherwise the lowered keyword occurs in the lowered name or description |
| PromptManager.FilterTemplates | app/prompt_manager.py:235-247 | the three filter passes, language then tags then keyword, each skipped when its field is empty |
| PromptManager.Matching | app/prompt_manager.py:235-247 | the templates that pass all three filters at once, in store order |
| PromptManager.FilterSeqAppend | app/prompt_manager.py:236-247 | filtering keeps the order: the filter of a concatenation is the concatenation of the filters |
| PromptManager.FilterSeqTwice | app/prompt_manager.py:236-247 | two filters in a row equal one filter by both conditions |
| PromptManager.FiltersAreConjunctive | app/prompt_manager.py:232-247 | the three passes keep, in store order, exactly the templates matching language, any tag and keyword |
| PromptManager.SliceBound | app/prompt_manager.py:253 | a Python slice bound after counting negatives from the end and clamping |
| PromptManager.PySlice | app/prompt_manager.py:253 | Python's `xs[start:end]` with both bounds normalised, empty when they cross |
| PromptManager.Page | app/prompt_manager.py:251-253 | the slice from `(page - 1) * page_size` of length `page_size` |
| PromptManager.SliceWindow | app/prompt_manager.py:253 | a slice from a non-negative start is the window cut at the end |
| PromptManager.PageStart | app/prompt_manager.py:251-252 | a page number of at least 1 starts at a non-negative offset, and the next page starts one page size later |
| PromptManager.PageWindow | app/prompt_manager.py:250-253 | a page is the window of at most `page_size` templates at `(page - 1) * page_size`, empty past the end |
| PromptManager.PagesAreAdjacent | app/prompt_manager.py:250-253 | consecutive pages are adjacent windows with nothing skipped or repeated |
| PromptManager.PageOfList | app/prompt_manager.py:253 | a page holds only templates of the filtered list |
| PromptManager.Bump | app/prompt_manager.py:333-338 | counting one template yields a non-empty tally |
| PromptManager.Tally | app/prompt_manager.py:332-338 | the per-language counts the statistics loop builds, one template at a time in store order |
| PromptManager.CountLanguage | app/prompt_manager.py:333-336 | a language's template count is at most the template count |
| PromptManager.CountDefaultsOf | app/prompt_manager.py:337-338 | a language's default count is at most its template count |
| PromptManager.BumpCounts | app/prompt_manager.py:333-338 | counting a template adds 1 to the total and to its language, and 1 to its defaults when its id is a default |
| PromptManager.DistinctCons | app/prompt_manager.py:334-335 | a list with a head has no repeats exactly when its tail has none and does not hold the head |
| PromptManager.TallyCounts | app/prompt_manager.py:332-338 | the tally counts each template once: totals add up to the count, and per language it holds its template and default counts |
| PromptManager.Languages | app/prompt_manager.py:334-335 | the languages of a tally, in order |
| PromptManager.BumpLanguages | app/prompt_manager.py:334-335 | counting a template keeps the languages distinct and adds its own |
| PromptManager.TallyLanguages | app/prompt_manager.py:332-338 | each language is listed once, and exactly the languages some template uses are listed |
| PromptManager.CountRecentlyCreated | app/prompt_manager.py:342-344 | at most the template count |
| PromptManager.WithinWeek | app/prompt_manager.py:343-345 | `(now - t).days <= 7`, with days taken by floor division |
| PromptManager.CountRecentlyUpdated | app/prompt_manager.py:342-346 | at most the template count |
| PromptManager.CountsSnoc | app/prompt_manager.py:332-346 | each loop step updates the tally and both recent counts by one more template |
| PromptManager.WithinWeekBound | app/prompt_manager.py:343 | whole days of at most 7 means less than 8 days of seconds; future times count as recent |
| PromptManager.Manager.Values | app/prompt_manager.py:232 | the stored templates in key order |
| PromptManager.Manager.ValuesAreStored | app/prompt_manager.py:232 | every listed value is a stored template |
| PromptManager.Manager.SizeIsOrderLength | app/prompt_manager.py:324 | the number of templates is the length of the key order |
| PromptManager.Manager.constructor | app/prompt_manager.py:21-32 | a loaded non-empty store is kept, in file order, with its default index rebuilt; otherwise exactly the two seeded defaults, indexed for `zh` and `en` |
| PromptManager.Manager.LoadTemplates | app/prompt_manager.py:155-168 | no file gives an empty store; otherwise the file's templates in file order, and the default index of the scan |
| PromptManager.Manager.InitDefaultTemplates | app/prompt_manager.py:34-65 | a non-empty store is untouched; an empty one gets the Chinese then the English default, both indexed |
| PromptManager.Manager.CreateTemplate | app/prompt_manager.py:176-193 | the request's fields under a fresh id, version 1.0.0, appended last, defaults unchanged |
| PromptManager.Manager.UpdateTemplate | app/prompt_manager.py:195-213 | an unknown id fails and changes nothing; otherwise exactly the given fields change and the update time is refreshed |
| PromptManager.Manager.DeleteTemplate | app/prompt_manager.py:215-222 | reports whether the id was stored and removes it; the default index is left as is, so a deleted default is no longer found |
| PromptManager.Manager.GetTemplate | app/prompt_manager.py:224-228 | the stored template, or `None` exactly when the id is unknown |
| PromptManager.Manager.ListTemplates | app/prompt_manager.py:230-260 | the total is the number of matching templates; the page is the requested window of them, in store order |
| PromptManager.Manager.GetDefaultTemplate | app/prompt_manager.py:262-268 | the indexed default when it is still stored, otherwise `None` |
| PromptManager.Manager.SelectTemplate | app/prompt_manager.py:270-281 | a non-empty id selects that template or fails; otherwise the language's default or fails |
| PromptManager.Manager.RenderPrompt | app/prompt_manager.py:270-298 | fails exactly when selection fails; otherwise renders the selected content with the text, the sorted allowed types and relations, and the triplets |
| PromptManager.Manager.DuplicateTemplate | app/prompt_manager.py:300-319 | an unknown id fails and changes nothing; otherwise a copy is appended and the original is unchanged |
| PromptManager.Manager.GetTemplateStatistics | app/prompt_manager.py:321-348 | the template count, the per-language tally, the number of indexed defaults, and the recent-creation and recent-update counts |
| PromptManager.LanguageTotalsAddUp | app/prompt_manager.py:322-338 | the per-language totals of the statistics add up to the template count |
| PromptManager.KeysOf | app/prompt_manager.py:163 | the keys of the loaded dictionary in file order |
| PromptManager.KeysOfDistinctEntries | app/prompt_manager.py:163 | reading one more entry appends its key, which is new |

## Left out

- Scoring.MatchesIdPattern: `\d` is modelled as the ASCII digits only. Python also accepts other Unicode decimal digits.
- Text.Lower: only ASCII letters are lowercased. Python's `str.lower` folds every cased character.
- Scoring.Completeness: the branch for an estimate of 0 is not modelled. The estimate is never below 1, so that branch is dead.
- Floating point: scores are exact rationals. Python's rounding of `0.3 + 0.4 + 0.3` and of averages is not modelled.
- The summary's text, its `:.2f` formatting and its wording of each tier are left out. Only the numbers and the tier are modelled.
- Logging (`setup_logger`) is not modelled.
- Rendering with Jinja2 is an abstract function of the template content and the variables.
- The knowledge-graph extractor (`app/kg_extractor.py`) is an abstract step passed to the evaluator.
- Reading and writing the JSON store is left out. A reload is the constructor's `loaded` argument, and `save_templates` has no counterpart.
- The text of the two default prompts is not reproduced. The constructor takes it as arguments.
- `PromptTemplate` and the request and response types are not defined in `app/schemas.py`, so they are not part of this model. The model assumes that `created_at` and `updated_at` default to the current time and that `metadata` is a JSON object.
- Metadata numbers are integers. Floating-point metadata values are not modelled. Strings, lists and nested objects are modelled.
- Templates are values in this model, so sharing between Python objects is not modelled. `duplicate_template` passes the original's `metadata` to `PromptTemplate`. Whether that class copies the dictionary is not visible, because `app/schemas.py` is not part of this model. No code in `app/prompt_manager.py` changes a metadata dictionary in place.
- Extractor output is typed. Nodes and relationships are records of strings, and a result is always an object. The extractor may return any JSON, such as a node `{"id": null}`. Then `re.match` raises a TypeError, and the metric's catch-all returns 0.0. That path is not modelled.
- The extraction step is a function of the text. Two equal test texts therefore get the same extraction, but a language model need not answer the same way twice. No proved property relies on this.
- PromptManager.Manager.DuplicateTemplate and PromptManager.Manager.CreateTemplate: a fresh `uuid4` id is assumed not to collide with a stored id.
- `app/main.py` (HTTP routes) and `app/prompt.py` are not part of this model.

## Findings

| source | as written | input that shows it | evidently intended | confidence | as-written member | corrected member |
|---|---|---|---|---|---|---|
| app/prompt_evaluator.py:45 | calls `get_active_template`, which `EnhancedPromptManager` does not define, so every case raises `AttributeError` and is recorded as a failure | any call of `evaluate_template` with at least one test text | take the language's default template (`get_default_template`), give it the content under evaluation, render it, extract, and score | not executed | PromptEvaluator.AsWrittenEvaluationAlwaysFails | PromptEvaluator.IntendedStepScoresCase |
