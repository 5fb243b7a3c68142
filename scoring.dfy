/**
 * The four heuristic metrics of `app/prompt_evaluator.py` (completeness,
 * accuracy, consistency, relevance) and the evaluator's own split-based
 * readers of the schema triplets. Scores are exact rationals (`real`).
 */
module Scoring {
  import opened Wrappers
  import opened Text
  import Utils

  // ---------------------------------------------------------------------
  // Extraction results
  // ---------------------------------------------------------------------

  /**
   * A node of an extraction result. A field the extraction service left out
   * reads as "" (the evaluator always looks fields up with a "" default).
   */
  datatype Node = Node(
    id: string,
    name: string,
    entityType: string,
    aliases: seq<string>,
    definition: string,
    attributes: map<string, seq<string>>)

  /** A relationship between two node ids of the same result. */
  datatype Relationship = Relationship(source: string, target: string, relationType: string)

  datatype ExtractionResult = ExtractionResult(nodes: seq<Node>, relationships: seq<Relationship>)

  // ---------------------------------------------------------------------
  // Arithmetic helpers
  // ---------------------------------------------------------------------

  function Min(x: real, y: real): real { if x <= y then x else y }

  function Sum(xs: seq<real>): real {
    if xs == [] then 0.0 else xs[0] + Sum(xs[1..])
  }

  /** `sum(xs) / len(xs) if xs else 0.0` */
  function Mean(xs: seq<real>): real {
    if xs == [] then 0.0 else Sum(xs) / |xs| as real
  }

  predicate InUnitRange(x: real) { 0.0 <= x <= 1.0 }

  predicate AllInUnitRange(xs: seq<real>) {
    forall i :: 0 <= i < |xs| ==> InUnitRange(xs[i])
  }

  lemma {:induction false} SumOfUnitScores(xs: seq<real>)
    requires AllInUnitRange(xs)
    ensures 0.0 <= Sum(xs) <= |xs| as real
  {
    if xs != [] {
      assert AllInUnitRange(xs[1..]) by {
        forall i | 0 <= i < |xs[1..]| ensures InUnitRange(xs[1..][i]) {
          assert xs[1..][i] == xs[i + 1];
        }
      }
      SumOfUnitScores(xs[1..]);
    }
  }

  /** The mean of scores in [0, 1] is in [0, 1]. */
  lemma MeanOfUnitScores(xs: seq<real>)
    requires AllInUnitRange(xs)
    ensures InUnitRange(Mean(xs))
  {
    if xs != [] {
      SumOfUnitScores(xs);
      var n := |xs| as real;
      assert Sum(xs) / n <= n / n;
    }
  }

  lemma {:induction false} SumAppend(xs: seq<real>, ys: seq<real>)
    ensures Sum(xs + ys) == Sum(xs) + Sum(ys)
  {
    if xs == [] {
      assert xs + ys == ys;
    } else {
      assert (xs + ys)[1..] == xs[1..] + ys;
      SumAppend(xs[1..], ys);
    }
  }

  // ---------------------------------------------------------------------
  // The evaluator's own readers of the schema triplets
  // ---------------------------------------------------------------------

  /**
   * The types one triplet contributes in `_extract_allowed_types`: the text
   * before its first `-` (when it has a `-`) and the text between its first
   * and second `->` (when it has a `->`).
   */
  function TypesOfTriplet(t: string): set<string> {
    var dashParts := Split(t, "-");
    (if |dashParts| >= 2 then {dashParts[0]} else {})
    + (if Contains(t, "->") then {Split(t, "->")[1]} else {})
  }

  /** `_extract_allowed_types`: the union over all triplets. */
  function EvalAllowedTypes(ts: seq<string>): (types: set<string>)
    ensures forall x :: x in types <==> exists t :: t in ts && x in TypesOfTriplet(t)
  {
    if ts == [] then {} else TypesOfTriplet(ts[0]) + EvalAllowedTypes(ts[1..])
  }

  /**
   * `_extract_allowed_relations` on one triplet that contains `->`: the text
   * before the first `->`, split once on `-`, second part. It raises
   * IndexError when that text has no `-`.
   */
  function RelationOfTriplet(t: string): Result<string>
    requires Contains(t, "->")
  {
    var parts := SplitOnce(Split(t, "->")[0], "-");
    if |parts| < 2 then Err("list index out of range") else Ok(parts[1])
  }

  /**
   * A triplet makes `_extract_allowed_relations` raise exactly when its first
   * `-` is the one that starts its first `->`; otherwise its relation is the
   * text strictly between its first `-` and its first `->`.
   */
  lemma RelationOfTripletSpec(t: string)
    requires Contains(t, "->")
    ensures Find(t, "-").Some? && Find(t, "->").Some?
    ensures var d, a := Find(t, "-").value, Find(t, "->").value;
      d <= a
      && (RelationOfTriplet(t).Err? <==> d == a)
      && (d < a ==> RelationOfTriplet(t) == Ok(t[d + 1..a]))
  {
    var a := Find(t, "->").value;
    assert OccursAt(t, "-", a);
    var d := Find(t, "-").value;
    SplitHead(t, "->", a);
    var head := t[..a];
    if d < a {
      assert OccursAt(head, "-", d);
      forall j | 0 <= j < d ensures !OccursAt(head, "-", j) {
        assert !OccursAt(t, "-", j);
      }
      SplitHead(head, "-", d);
      assert head[d + 1..] == t[d + 1..a];
    } else {
      assert !Contains(head, "-") by {
        forall j | 0 <= j <= |head| - 1 ensures !OccursAt(head, "-", j) {
          assert !OccursAt(t, "-", j);
        }
      }
    }
  }

  /** `_extract_allowed_relations`: the union over all triplets, or the IndexError. */
  function EvalAllowedRelations(ts: seq<string>): (r: Result<set<string>>)
    ensures r.Err? <==> exists t :: t in ts && Contains(t, "->") && RelationOfTriplet(t).Err?
    ensures r.Ok? ==> forall x :: x in r.value <==>
      exists t :: t in ts && Contains(t, "->") && RelationOfTriplet(t) == Ok(x)
  {
    if ts == [] then Ok({})
    else
      var rest := EvalAllowedRelations(ts[1..]);
      if Contains(ts[0], "->") then
        match RelationOfTriplet(ts[0])
        case Err(e) => Err(e)
        case Ok(rel) => if rest.Err? then rest else Ok({rel} + rest.value)
      else rest
  }

  /** In a well-formed triplet `A-R->T` the first `-` ends `A`. */
  lemma TripletFirstDash(a: string, b: string, c: string)
    requires AllWord(a)
    ensures Find(Utils.Triplet(a, b, c), "-") == Some(|a|)
  {
    var t, p := Utils.Triplet(a, b, c), |a|;
    Utils.TripletLayout(a, b, c);
    assert OccursAt(t, "-", p) by {
      assert t[p..][0] == '-';
    }
    forall j | 0 <= j < p ensures !OccursAt(t, "-", j) {
      assert t[j] == a[j];
      assert t[j..][0] == t[j];
    }
  }

  /** ... and the first `->` ends `R`. */
  lemma TripletFirstArrow(a: string, b: string, c: string)
    requires AllWord(a) && |b| > 0 && AllWord(b)
    ensures Find(Utils.Triplet(a, b, c), "->") == Some(|a| + 1 + |b|)
  {
    var t, p, q := Utils.Triplet(a, b, c), |a|, |a| + 1 + |b|;
    Utils.TripletLayout(a, b, c);
    assert OccursAt(t, "->", q) by {
      assert t[q..][0] == '-' && t[q..][1] == '>';
    }
    forall j | 0 <= j < q ensures !OccursAt(t, "->", j) {
      assert t[j..][0] == t[j];
      if j < p {
        assert t[j] == a[j];
      } else if j == p {
        assert t[j..][1] == t[j + 1] == b[0];
      } else {
        assert t[j] == b[j - p - 1];
      }
    }
  }

  /** A run of word characters holds no `->`, so splitting it on `->` gives it back. */
  lemma SplitWordOnArrow(c: string)
    requires AllWord(c)
    ensures Split(c, "->") == [c]
  {
    forall j | 0 <= j <= |c| - 2 ensures !OccursAt(c, "->", j) {
      assert c[j..][0] == c[j];
    }
  }

  /** The evaluator's type reader gives `A` and `T` for a well-formed triplet `A-R->T`. */
  lemma EvalTypesOfWellFormed(a: string, b: string, c: string)
    requires AllWord(a) && |b| > 0 && AllWord(b) && AllWord(c)
    ensures TypesOfTriplet(Utils.Triplet(a, b, c)) == {a, c}
  {
    var t, p, q := Utils.Triplet(a, b, c), |a|, |a| + 1 + |b|;
    Utils.TripletLayout(a, b, c);
    TripletFirstDash(a, b, c);
    TripletFirstArrow(a, b, c);
    SplitWordOnArrow(c);
    assert Split(t, "-")[0] == a;
    assert Split(t, "->") == [t[..q]] + Split(t[q + 2..], "->");
    assert Split(t, "->")[1] == c;
  }

  /** The evaluator's relation reader gives `R` for a well-formed triplet `A-R->T`. */
  lemma EvalRelationOfWellFormed(a: string, b: string, c: string)
    requires AllWord(a) && |b| > 0 && AllWord(b)
    ensures Contains(Utils.Triplet(a, b, c), "->")
    ensures RelationOfTriplet(Utils.Triplet(a, b, c)) == Ok(b)
  {
    var t := Utils.Triplet(a, b, c);
    Utils.TripletLayout(a, b, c);
    TripletFirstDash(a, b, c);
    TripletFirstArrow(a, b, c);
    RelationOfTripletSpec(t);
  }

  /**
   * On a well-formed triplet `A-R->T` (three non-empty runs of
   * `[A-Za-z0-9_]`) the evaluator's readers agree with the regular
   * expressions of `app/utils.py`.
   */
  lemma EvalReadersAgreeOnWellFormed(a: string, b: string, c: string)
    requires |a| > 0 && |b| > 0 && |c| > 0 && AllWord(a) && AllWord(b) && AllWord(c)
    ensures var t := Utils.Triplet(a, b, c);
      && Utils.ExtractEntityType(t) == Some(a) && Utils.ExtractTargetType(t) == Some(c)
      && TypesOfTriplet(t) == {a, c}
      && Utils.ExtractRelationType(t) == Some(b)
      && Contains(t, "->") && RelationOfTriplet(t) == Ok(b)
  {
    Utils.WellFormedSource(a, b, c);
    Utils.WellFormedRelation(a, b, c);
    Utils.WellFormedTarget(a, b, c);
    EvalTypesOfWellFormed(a, b, c);
    EvalRelationOfWellFormed(a, b, c);
  }

  /**
   * The readers differ off the happy path: `A->B` has no relation for the
   * regular expression, while the evaluator's reader raises on it.
   */
  lemma ReadersDisagreeOnMissingRelation()
    ensures Utils.ExtractRelationType("A->B").None?
    ensures Contains("A->B", "->") && RelationOfTriplet("A->B").Err?
    ensures EvalAllowedRelations(["A->B"]).Err?
  {
    var t := "A->B";
    forall i, k ensures !Utils.RelationMatchAt(t, i, k) {
      assert t[0] == 'A';
    }
    assert OccursAt(t, "->", 1);
    RelationOfTripletSpec(t);
    assert !OccursAt(t, "-", 0) by {
      assert t[0..][0] == 'A';
    }
    assert OccursAt(t, "-", 1);
  }

  // ---------------------------------------------------------------------
  // Completeness
  // ---------------------------------------------------------------------

  /**
   * `_estimate_entities_in_text`: one entity per twenty whitespace-separated
   * words, and at least one.
   */
  function EstimateEntities(text: string): (n: nat)
    ensures n >= 1
    ensures |Tokens(text)| >= 20 ==> 20 * n <= |Tokens(text)| < 20 * (n + 1)
    ensures |Tokens(text)| < 20 ==> n == 1
  {
    var words := |Tokens(text)|;
    if words / 20 >= 1 then words / 20 else 1
  }

  /** The sign of a share `k / n`, and whether it reaches 1. */
  lemma QuotientFacts(k: nat, n: nat)
    requires n > 0
    ensures k as real / n as real >= 0.0
    ensures k > 0 ==> k as real / n as real > 0.0
    ensures k >= n ==> k as real / n as real >= 1.0
  {
  }

  /**
   * `_calculate_completeness`. The source also has a branch for an estimate
   * of zero; `EstimateEntities` is never zero, so that branch is dead and is
   * left out.
   */
  function Completeness(r: ExtractionResult, text: string): (score: real)
    ensures InUnitRange(score)
    ensures score == 0.0 <==> r.nodes == [] && r.relationships == []
    ensures r.nodes == [] && r.relationships != [] ==> score == 0.3
    ensures |r.nodes| >= EstimateEntities(text) ==> score == 1.0
  {
    if r.nodes == [] && r.relationships == [] then 0.0
    else
      var estimate := EstimateEntities(text);
      var divisor: nat := if |r.nodes| > 1 then |r.nodes| else 1;
      QuotientFacts(|r.nodes|, estimate);
      QuotientFacts(|r.relationships|, divisor);
      var coverage := Min(|r.nodes| as real / estimate as real, 1.0);
      var bonus := Min(|r.relationships| as real / divisor as real, 0.3);
      assert |r.nodes| >= estimate ==> coverage == 1.0;
      assert r.nodes == [] ==> coverage == 0.0 && bonus == 0.3;
      Min(coverage + bonus, 1.0)
  }

  // ---------------------------------------------------------------------
  // Accuracy
  // ---------------------------------------------------------------------

  /** Python's `needle.lower() in hay.lower()`. */
  predicate ContainsIgnoringCase(hay: string, needle: string) {
    Contains(Lower(hay), Lower(needle))
  }

  /**
   * `_check_node_accuracy`: 0.3 for id, name and type all present, 0.4 for a
   * name found in the text, 0.3 for a type the schema allows.
   */
  function NodeAccuracy(n: Node, text: string, triplets: seq<string>): (score: real)
    ensures InUnitRange(score)
    ensures score == 1.0 <==>
      n.id != "" && n.name != "" && n.entityType != ""
      && ContainsIgnoringCase(text, n.name) && n.entityType in EvalAllowedTypes(triplets)
    ensures score == 0.0 <==>
      (n.id == "" || n.name == "" || n.entityType == "")
      && !(n.name != "" && ContainsIgnoringCase(text, n.name))
      && n.entityType !in EvalAllowedTypes(triplets)
  {
    (if n.id != "" && n.name != "" && n.entityType != "" then 0.3 else 0.0)
    + (if n.name != "" && ContainsIgnoringCase(text, n.name) then 0.4 else 0.0)
    + (if n.entityType in EvalAllowedTypes(triplets) then 0.3 else 0.0)
  }

  function NodeIds(nodes: seq<Node>): set<string> {
    set i | 0 <= i < |nodes| :: nodes[i].id
  }

  /**
   * `_check_relationship_accuracy`: 0.4 for source, target and type all
   * present, 0.3 for both ends naming nodes of the result, 0.3 for a type the
   * schema allows; the IndexError of the relation reader propagates.
   */
  function RelationshipAccuracy(rel: Relationship, nodes: seq<Node>, triplets: seq<string>): (r: Result<real>)
    ensures r.Err? <==> EvalAllowedRelations(triplets).Err?
    ensures r.Ok? ==> InUnitRange(r.value)
    ensures r.Ok? ==> (r.value == 1.0 <==>
      rel.source != "" && rel.target != "" && rel.relationType != ""
      && rel.source in NodeIds(nodes) && rel.target in NodeIds(nodes)
      && rel.relationType in EvalAllowedRelations(triplets).value)
  {
    var fields := if rel.source != "" && rel.target != "" && rel.relationType != "" then 0.4 else 0.0;
    var ends := if rel.source in NodeIds(nodes) && rel.target in NodeIds(nodes) then 0.3 else 0.0;
    match EvalAllowedRelations(triplets)
    case Err(e) => Err(e)
    case Ok(allowed) => Ok(fields + ends + (if rel.relationType in allowed then 0.3 else 0.0))
  }

  /** The node sub-scores of `_calculate_accuracy`, in node order. */
  function NodeScores(r: ExtractionResult, text: string, triplets: seq<string>): (scores: seq<real>)
    ensures |scores| == |r.nodes|
    ensures forall i :: 0 <= i < |r.nodes| ==> scores[i] == NodeAccuracy(r.nodes[i], text, triplets)
    ensures AllInUnitRange(scores)
  {
    seq(|r.nodes|, i requires 0 <= i < |r.nodes| => NodeAccuracy(r.nodes[i], text, triplets))
  }

  /** The relationship sub-scores, in relationship order (when the relation reader does not raise). */
  function RelationshipScores(r: ExtractionResult, triplets: seq<string>): (scores: seq<real>)
    requires EvalAllowedRelations(triplets).Ok?
    ensures |scores| == |r.relationships|
    ensures forall i :: 0 <= i < |r.relationships| ==>
      RelationshipAccuracy(r.relationships[i], r.nodes, triplets) == Ok(scores[i])
    ensures AllInUnitRange(scores)
  {
    seq(|r.relationships|, i requires 0 <= i < |r.relationships| =>
      RelationshipAccuracy(r.relationships[i], r.nodes, triplets).value)
  }

  /**
   * `_calculate_accuracy`: the mean of all node and relationship sub-scores,
   * 0.0 for an empty result, and 0.0 when scoring a relationship raises (the
   * catch-all of the metric).
   */
  function Accuracy(r: ExtractionResult, text: string, triplets: seq<string>): (score: real)
    ensures InUnitRange(score)
    ensures r.nodes == [] && r.relationships == [] ==> score == 0.0
    ensures r.relationships != [] && EvalAllowedRelations(triplets).Err? ==> score == 0.0
  {
    if r.nodes == [] && r.relationships == [] then 0.0
    else if r.relationships == [] then
      MeanOfUnitScores(NodeScores(r, text, triplets));
      Mean(NodeScores(r, text, triplets))
    else if EvalAllowedRelations(triplets).Err? then 0.0
    else
      var all := NodeScores(r, text, triplets) + RelationshipScores(r, triplets);
      assert AllInUnitRange(all);
      MeanOfUnitScores(all);
      Mean(all)
  }

  predicate AllOnes(xs: seq<real>) {
    forall k :: 0 <= k < |xs| ==> xs[k] == 1.0
  }

  lemma AllOnesAppend(xs: seq<real>, ys: seq<real>)
    ensures AllOnes(xs + ys) <==> AllOnes(xs) && AllOnes(ys)
  {
    if AllOnes(xs) && AllOnes(ys) {
      forall k | 0 <= k < |xs + ys| ensures (xs + ys)[k] == 1.0 {
        if k >= |xs| {
          assert (xs + ys)[k] == ys[k - |xs|];
        }
      }
    }
    if AllOnes(xs + ys) {
      forall k | 0 <= k < |xs| ensures xs[k] == 1.0 {
        assert (xs + ys)[k] == xs[k];
      }
      forall k | 0 <= k < |ys| ensures ys[k] == 1.0 {
        assert (xs + ys)[|xs| + k] == ys[k];
      }
    }
  }

  /** Every node passes all three node checks. */
  predicate AllNodesPerfect(r: ExtractionResult, text: string, triplets: seq<string>) {
    forall i :: 0 <= i < |r.nodes| ==> NodeAccuracy(r.nodes[i], text, triplets) == 1.0
  }

  /** Every relationship passes all three relationship checks. */
  predicate AllRelationshipsPerfect(r: ExtractionResult, triplets: seq<string>) {
    forall i :: 0 <= i < |r.relationships| ==> RelationshipAccuracy(r.relationships[i], r.nodes, triplets) == Ok(1.0)
  }

  /**
   * Accuracy is perfect exactly when there is something to score, every node
   * and every relationship passes all three of its checks, and the relation
   * reader does not raise.
   */
  lemma AccuracyPerfect(r: ExtractionResult, text: string, triplets: seq<string>)
    ensures Accuracy(r, text, triplets) == 1.0 <==>
      (r.nodes != [] || r.relationships != [])
      && (r.relationships != [] ==> EvalAllowedRelations(triplets).Ok?)
      && AllNodesPerfect(r, text, triplets)
      && AllRelationshipsPerfect(r, triplets)
  {
    var ns := NodeScores(r, text, triplets);
    assert AllOnes(ns) <==> AllNodesPerfect(r, text, triplets);
    if r.relationships == [] {
      MeanIsOneIffAllOne(ns);
    } else if EvalAllowedRelations(triplets).Ok? {
      var rs := RelationshipScores(r, triplets);
      assert AllOnes(rs) <==> AllRelationshipsPerfect(r, triplets);
      assert AllInUnitRange(ns + rs);
      MeanIsOneIffAllOne(ns + rs);
      AllOnesAppend(ns, rs);
    }
  }

  /** A mean of scores in [0, 1] is one exactly when every score is one. */
  lemma MeanIsOneIffAllOne(xs: seq<real>)
    requires AllInUnitRange(xs)
    ensures Mean(xs) == 1.0 <==> xs != [] && AllOnes(xs)
  {
    SumIsLengthIffAllOne(xs);
    if xs != [] {
      var n := |xs| as real;
      assert Sum(xs) / n == 1.0 <==> Sum(xs) == n;
    }
  }

  lemma {:induction false} SumIsLengthIffAllOne(xs: seq<real>)
    requires AllInUnitRange(xs)
    ensures Sum(xs) == |xs| as real <==> AllOnes(xs)
  {
    if xs != [] {
      assert AllInUnitRange(xs[1..]) by {
        forall i | 0 <= i < |xs[1..]| ensures InUnitRange(xs[1..][i]) {
          assert xs[1..][i] == xs[i + 1];
        }
      }
      SumIsLengthIffAllOne(xs[1..]);
      SumOfUnitScores(xs[1..]);
      if forall k :: 0 <= k < |xs| ==> xs[k] == 1.0 {
        assert forall k :: 0 <= k < |xs[1..]| ==> xs[1..][k] == xs[k + 1];
      }
      if forall k :: 0 <= k < |xs[1..]| ==> xs[1..][k] == 1.0 {
        assert forall k :: 1 <= k < |xs| ==> xs[k] == xs[1..][k - 1];
      }
    }
  }

  // ---------------------------------------------------------------------
  // Consistency
  // ---------------------------------------------------------------------

  /** The regular expression `[a-zA-Z_]+_\d+` (ASCII digits) matching all of `s`. */
  predicate IdShape(s: string) {
    exists k :: 1 <= k && k + 1 < |s| && AllLetterOrUnderscore(s[..k]) && s[k] == '_' && AllDigits(s[k + 1..])
  }

  /** `re.match(r'^[a-zA-Z_]+_\d+$', s)`: `$` also matches before a final newline. */
  predicate MatchesIdPatternSpec(s: string) {
    IdShape(s) || (|s| > 0 && s[|s| - 1] == '\n' && IdShape(s[..|s| - 1]))
  }

  /** Length of the longest suffix of `s` made of digits. */
  function TrailingDigits(s: string): (d: nat)
    ensures d <= |s|
    ensures forall i :: |s| - d <= i < |s| ==> IsDigit(s[i])
    ensures d < |s| ==> !IsDigit(s[|s| - d - 1])
  {
    if s == [] || !IsDigit(s[|s| - 1]) then 0 else 1 + TrailingDigits(s[..|s| - 1])
  }

  /** What is left once the digits at the end are stripped is letters and underscores ending in `_`. */
  predicate ScanAccepts(s: string) {
    var body := s[..|s| - TrailingDigits(s)];
    TrailingDigits(s) >= 1 && |body| >= 2 && AllLetterOrUnderscore(body) && body[|body| - 1] == '_'
  }

  /** The id check as a scan: strip the digits at the end, look at what is left. */
  function IdShapeScan(s: string): (b: bool)
    ensures b <==> IdShape(s)
  {
    IdShapeByTrailingDigits(s);
    ScanAccepts(s)
  }

  lemma IdShapeByTrailingDigits(s: string)
    ensures ScanAccepts(s) <==> IdShape(s)
  {
    if ScanAccepts(s) {
      IdShapeFromScan(s, |s| - TrailingDigits(s) - 1);
    }
    if IdShape(s) {
      ShapeGivesScan(s);
    }
  }

  lemma ShapeGivesScan(s: string)
    requires IdShape(s)
    ensures ScanAccepts(s)
  {
    var k :| 1 <= k && k + 1 < |s| && AllLetterOrUnderscore(s[..k]) && s[k] == '_' && AllDigits(s[k + 1..]);
    ScanFromIdShape(s, k);
  }

  lemma IdShapeFromScan(s: string, k: nat)
    requires k + TrailingDigits(s) + 1 == |s| && 1 <= k && TrailingDigits(s) >= 1
    requires AllLetterOrUnderscore(s[..k + 1]) && s[k] == '_'
    ensures IdShape(s)
  {
    assert s[..k] == s[..k + 1][..k];
    var tail := s[k + 1..];
    forall i | 0 <= i < |tail| ensures IsDigit(tail[i]) {
      assert tail[i] == s[k + 1 + i];
    }
  }

  lemma ScanFromIdShape(s: string, k: nat)
    requires 1 <= k && k + 1 < |s| && AllLetterOrUnderscore(s[..k]) && s[k] == '_' && AllDigits(s[k + 1..])
    ensures TrailingDigits(s) == |s| - k - 1
    ensures AllLetterOrUnderscore(s[..k + 1])
  {
    var d := TrailingDigits(s);
    forall i | k + 1 <= i < |s| ensures IsDigit(s[i]) {
      assert s[i] == s[k + 1..][i - k - 1];
    }
    assert !IsDigit(s[k]);
    assert s[..k + 1] == s[..k] + [s[k]];
  }

  function MatchesIdPattern(s: string): (b: bool)
    ensures b <==> MatchesIdPatternSpec(s)
  {
    IdShapeScan(s) || (|s| > 0 && s[|s| - 1] == '\n' && IdShapeScan(s[..|s| - 1]))
  }

  /**
   * Ids made by `generate_id` from a type of letters and underscores and a
   * non-negative index pass the evaluator's id check.
   */
  lemma GeneratedIdsPassIdCheck(entityType: string, index: nat)
    requires |entityType| > 0 && AllLetterOrUnderscore(entityType)
    ensures MatchesIdPattern(Utils.GenerateId(entityType, index))
  {
    var id := Utils.GenerateId(entityType, index);
    var k := |entityType|;
    assert id[..k] == Lower(entityType);
    assert AllLetterOrUnderscore(id[..k]) by {
      forall i | 0 <= i < k ensures IsLetterOrUnderscore(id[..k][i]) {
        assert id[..k][i] == LowerChar(entityType[i]);
      }
    }
    assert id[k] == id[..k + 1][k] == '_';
    assert IdShape(id);
  }

  /** The number of nodes whose id passes the id check. */
  function CountMatchingIds(nodes: seq<Node>): (n: nat)
    ensures n <= |nodes|
    ensures n == |nodes| <==> forall i :: 0 <= i < |nodes| ==> MatchesIdPattern(nodes[i].id)
  {
    if nodes == [] then 0
    else
      assert forall i :: 1 <= i < |nodes| ==> nodes[i] == nodes[1..][i - 1];
      (if MatchesIdPattern(nodes[0].id) then 1 else 0) + CountMatchingIds(nodes[1..])
  }

  /** `set(types)` of the nodes. */
  function TypeSet(nodes: seq<Node>): set<string> {
    set i | 0 <= i < |nodes| :: nodes[i].entityType
  }

  /** No two nodes share a type. */
  predicate DistinctTypes(nodes: seq<Node>) {
    forall i, j :: 0 <= i < j < |nodes| ==> nodes[i].entityType != nodes[j].entityType
  }

  lemma TypeSetCons(nodes: seq<Node>)
    requires nodes != []
    ensures TypeSet(nodes) == {nodes[0].entityType} + TypeSet(nodes[1..])
  {
    forall x | x in TypeSet(nodes) ensures x in {nodes[0].entityType} + TypeSet(nodes[1..]) {
      var i :| 0 <= i < |nodes| && nodes[i].entityType == x;
      if i > 0 {
        assert nodes[1..][i - 1].entityType == x;
      }
    }
    forall x | x in TypeSet(nodes[1..]) ensures x in TypeSet(nodes) {
      var i :| 0 <= i < |nodes[1..]| && nodes[1..][i].entityType == x;
      assert nodes[i + 1].entityType == x;
    }
  }

  /**
   * There are at least one and at most as many distinct types as nodes, and
   * as many exactly when no two nodes share a type.
   */
  lemma {:induction false} TypeSetSize(nodes: seq<Node>)
    ensures |TypeSet(nodes)| <= |nodes|
    ensures nodes != [] ==> |TypeSet(nodes)| >= 1
    ensures |TypeSet(nodes)| == |nodes| <==> DistinctTypes(nodes)
  {
    if nodes != [] {
      var rest := nodes[1..];
      TypeSetSize(rest);
      TypeSetCons(nodes);
      var t0 := nodes[0].entityType;
      assert t0 in TypeSet(nodes);
      if t0 in TypeSet(rest) {
        var j :| 0 <= j < |rest| && rest[j].entityType == t0;
        assert nodes[j + 1].entityType == t0;
        assert !DistinctTypes(nodes);
      } else {
        assert DistinctTypes(nodes) <==> DistinctTypes(rest) by {
          if DistinctTypes(rest) {
            forall i, j | 0 <= i < j < |nodes| ensures nodes[i].entityType != nodes[j].entityType {
              assert nodes[j] == rest[j - 1];
              if i > 0 {
                assert nodes[i] == rest[i - 1];
              } else {
                assert rest[j - 1].entityType in TypeSet(rest);
              }
            }
          }
          if DistinctTypes(nodes) {
            forall i, j | 0 <= i < j < |rest| ensures rest[i].entityType != rest[j].entityType {
              assert rest[i] == nodes[i + 1] && rest[j] == nodes[j + 1];
            }
          }
        }
      }
    }
  }

  /** The number of relationships whose two ends are both in `ids`. */
  function CountValidRefs(rels: seq<Relationship>, ids: set<string>): (n: nat)
    ensures n <= |rels|
    ensures n == |rels| <==> forall i :: 0 <= i < |rels| ==> rels[i].source in ids && rels[i].target in ids
  {
    if rels == [] then 0
    else
      assert forall i :: 1 <= i < |rels| ==> rels[i] == rels[1..][i - 1];
      (if rels[0].source in ids && rels[0].target in ids then 1 else 0) + CountValidRefs(rels[1..], ids)
  }

  /** `k / n` for `0 <= k <= n` and `n > 0` lies in [0, 1], and is one exactly when `k == n`. */
  lemma ShareInUnitRange(k: nat, n: nat)
    requires 0 < n && k <= n
    ensures InUnitRange(k as real / n as real)
    ensures k > 0 ==> k as real / n as real > 0.0
    ensures k as real / n as real == 1.0 <==> k == n
  {
    var q := k as real / n as real;
    assert q * n as real == k as real;
    if k == n {
      assert q == 1.0;
    } else {
      assert q * n as real < 1.0 * n as real;
    }
  }

  /**
   * `_calculate_consistency`: the mean of the share of well-formed ids, the
   * share of distinct types, and (only when there are relationships) the
   * share of relationships whose two ends are node ids.
   */
  function Consistency(r: ExtractionResult): (score: real)
    ensures InUnitRange(score)
    ensures r.nodes == [] ==> score == 0.0
    ensures r.nodes != [] ==> score > 0.0
  {
    if r.nodes == [] then 0.0
    else
      var n := |r.nodes|;
      var idShare := CountMatchingIds(r.nodes) as real / n as real;
      TypeSetSize(r.nodes);
      var typeShare := |TypeSet(r.nodes)| as real / n as real;
      ShareInUnitRange(CountMatchingIds(r.nodes), n);
      ShareInUnitRange(|TypeSet(r.nodes)|, n);
      if r.relationships == [] then
        (idShare + typeShare) / 2.0
      else
        var refs := CountValidRefs(r.relationships, NodeIds(r.nodes));
        ShareInUnitRange(refs, |r.relationships|);
        (idShare + typeShare + refs as real / |r.relationships| as real) / 3.0
  }

  /**
   * Consistency is perfect exactly when there are nodes, every id passes the
   * id check, no two nodes share a type, and every relationship links two
   * node ids.
   */
  lemma ConsistencyPerfect(r: ExtractionResult)
    ensures Consistency(r) == 1.0 <==>
      r.nodes != []
      && (forall i :: 0 <= i < |r.nodes| ==> MatchesIdPattern(r.nodes[i].id))
      && DistinctTypes(r.nodes)
      && (forall i :: 0 <= i < |r.relationships| ==>
            r.relationships[i].source in NodeIds(r.nodes) && r.relationships[i].target in NodeIds(r.nodes))
  {
    if r.nodes != [] {
      var n := |r.nodes|;
      TypeSetSize(r.nodes);
      ShareInUnitRange(CountMatchingIds(r.nodes), n);
      ShareInUnitRange(|TypeSet(r.nodes)|, n);
      if r.relationships != [] {
        ShareInUnitRange(CountValidRefs(r.relationships, NodeIds(r.nodes)), |r.relationships|);
      }
    }
  }

  // ---------------------------------------------------------------------
  // Relevance
  // ---------------------------------------------------------------------

  /**
   * The score of one node in `_calculate_relevance`: 1.0 for a name found in
   * the text, 0.5 when some whitespace-separated word of the name is found,
   * 0.0 otherwise and for an empty name (case-insensitively throughout).
   */
  function NodeRelevance(name: string, text: string): (score: real)
    ensures score == 0.0 || score == 0.5 || score == 1.0
    ensures score == 1.0 <==> name != "" && ContainsIgnoringCase(text, name)
    ensures score > 0.0 ==> name != "" && exists w :: w in Tokens(Lower(name)) + [Lower(name)] && Contains(Lower(text), w)
    ensures score == 0.5 <==>
      name != "" && !ContainsIgnoringCase(text, name)
      && exists w :: w in Tokens(Lower(name)) && Contains(Lower(text), w)
  {
    if name == "" then 0.0
    else if ContainsIgnoringCase(text, name) then
      assert Lower(name) in Tokens(Lower(name)) + [Lower(name)];
      1.0
    else if exists w :: w in Tokens(Lower(name)) && Contains(Lower(text), w) then 0.5
    else 0.0
  }

  /** A one-word name scores 0.0 or 1.0, never the partial 0.5. */
  lemma OneWordNameNeverPartial(name: string, text: string)
    requires NoSpace(name)
    ensures NodeRelevance(name, text) != 0.5
  {
    if name != "" {
      assert NoSpace(Lower(name)) by {
        forall i | 0 <= i < |name| ensures !IsSpace(Lower(name)[i]) {
          assert Lower(name)[i] == LowerChar(name[i]);
        }
      }
      TokensOfWord(Lower(name));
    }
  }

  /** `_calculate_relevance`: the mean node score, 0.0 without nodes. */
  function Relevance(r: ExtractionResult, text: string): (score: real)
    ensures InUnitRange(score)
    ensures r.nodes == [] ==> score == 0.0
    ensures score == 1.0 <==> r.nodes != [] && forall i :: 0 <= i < |r.nodes| ==> NodeRelevance(r.nodes[i].name, text) == 1.0
  {
    var scores := seq(|r.nodes|, i requires 0 <= i < |r.nodes| => NodeRelevance(r.nodes[i].name, text));
    assert AllInUnitRange(scores);
    assert forall i :: 0 <= i < |r.nodes| ==> scores[i] == NodeRelevance(r.nodes[i].name, text);
    MeanOfUnitScores(scores);
    MeanIsOneIffAllOne(scores);
    Mean(scores)
  }

  function SampleNamed(name: string): Node {
    Node("", name, "", [], "", map[])
  }

  /** A name that occurs in the text scores 1.0. */
  lemma RelevanceExampleFound()
    ensures Relevance(ExtractionResult([SampleNamed("Alice")], []), "Alice works at Acme Corp") == 1.0
  {
    assert OccursAt(Lower("Alice works at Acme Corp"), Lower("Alice"), 0);
  }

  // ---------------------------------------------------------------------
  // One test case
  // ---------------------------------------------------------------------

  const Completeness_ := "completeness"
  const Accuracy_ := "accuracy"
  const Consistency_ := "consistency"
  const Relevance_ := "relevance"

  /** The metric names the evaluator computes; any other requested name is never scored. */
  const KnownMetrics: set<string> := {Completeness_, Accuracy_, Consistency_, Relevance_}

  function MetricScore(metric: string, r: ExtractionResult, text: string, triplets: seq<string>): (score: real)
    requires metric in KnownMetrics
    ensures InUnitRange(score)
    ensures metric == Completeness_ ==> score == Completeness(r, text)
    ensures metric == Accuracy_ ==> score == Accuracy(r, text, triplets)
    ensures metric == Consistency_ ==> score == Consistency(r)
    ensures metric == Relevance_ ==> score == Relevance(r, text)
  {
    if metric == Completeness_ then Completeness(r, text)
    else if metric == Accuracy_ then Accuracy(r, text, triplets)
    else if metric == Consistency_ then Consistency(r)
    else Relevance(r, text)
  }

  /**
   * `_evaluate_single_result`: a score for every requested metric the
   * evaluator knows, and for no other name; each key holds the score of
   * the metric it names.
   */
  function EvaluateSingleResult(r: ExtractionResult, text: string, triplets: seq<string>, metrics: seq<string>)
    : (scores: map<string, real>)
    ensures forall m :: m in scores <==> m in KnownMetrics && m in metrics
    ensures forall m :: m in scores ==> InUnitRange(scores[m])
    ensures forall m :: m in scores ==> scores[m] == MetricScore(m, r, text, triplets)
  {
    map m | m in KnownMetrics && m in metrics :: MetricScore(m, r, text, triplets)
  }
}
