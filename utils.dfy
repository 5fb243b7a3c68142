/**
 * The triplet schema grammar of `app/utils.py`.
 *
 * A schema triplet is a string shaped `Source-RELATION->Target`. Three regular
 * expressions pick its parts apart:
 *   - the source type: `([A-Za-z0-9_]+)-` anchored at the start (`re.match`),
 *   - the relation type: `-([A-Za-z0-9_]+)->` anywhere (`re.search`),
 *   - the target type: `->([A-Za-z0-9_]+)` anywhere (`re.search`).
 * Each extractor is written here as a scan over the characters and proved to
 * return exactly the group of the leftmost match the regular expression
 * defines. The two aggregators collect the parsed parts of many triplets into
 * ascending lists without repetitions.
 */
module Utils {
  import opened Wrappers
  import opened Text

  // ---------------------------------------------------------------------
  // Word runs
  // ---------------------------------------------------------------------

  /** All of `t[lo..hi]` belongs to `[A-Za-z0-9_]`. */
  predicate WordBetween(t: string, lo: int, hi: int) {
    forall j :: lo <= j < hi ==> 0 <= j < |t| && IsWordChar(t[j])
  }

  /** Length of the maximal run of `[A-Za-z0-9_]` characters of `t` starting at `i`. */
  function WordRunFrom(t: string, i: nat): (k: nat)
    requires i <= |t|
    ensures i + k <= |t|
    ensures WordBetween(t, i, i + k)
    ensures i + k < |t| ==> !IsWordChar(t[i + k])
    decreases |t| - i
  {
    if i < |t| && IsWordChar(t[i]) then 1 + WordRunFrom(t, i + 1) else 0
  }

  /** A run of word characters that is not followed by one is the maximal run. */
  lemma WordRunExact(t: string, i: nat, k: nat)
    requires i + k <= |t| && WordBetween(t, i, i + k)
    requires i + k < |t| ==> !IsWordChar(t[i + k])
    ensures WordRunFrom(t, i) == k
  {
  }

  // ---------------------------------------------------------------------
  // The three regular expressions, stated as match predicates
  // ---------------------------------------------------------------------

  /** `([A-Za-z0-9_]+)-` matches at the start of `t` with group `t[..k]`. */
  predicate SourceMatch(t: string, k: int) {
    0 < k < |t| && WordBetween(t, 0, k) && t[k] == '-'
  }

  /** `-([A-Za-z0-9_]+)->` matches at index `i` with group `t[i+1..i+1+k]`. */
  predicate RelationMatchAt(t: string, i: int, k: int) {
    0 <= i && 0 < k && i + k + 3 <= |t|
    && t[i] == '-' && WordBetween(t, i + 1, i + 1 + k) && t[i + 1 + k] == '-' && t[i + 2 + k] == '>'
  }

  /**
   * `->([A-Za-z0-9_]+)` matches at index `i` with group `t[i+2..i+2+k]`; the
   * group is greedy and nothing follows it in the pattern, so it is the
   * maximal run.
   */
  predicate TargetMatchAt(t: string, i: int, k: int) {
    0 <= i && 0 < k && i + 2 + k <= |t|
    && t[i] == '-' && t[i + 1] == '>' && WordBetween(t, i + 2, i + 2 + k)
    && (i + 2 + k < |t| ==> !IsWordChar(t[i + 2 + k]))
  }

  // ---------------------------------------------------------------------
  // The extractors
  // ---------------------------------------------------------------------

  /** `extract_entity_type_from_triplet`: the source type of a triplet, if any. */
  function ExtractEntityType(t: string): (r: Option<string>)
    ensures r.Some? <==> exists k :: SourceMatch(t, k)
    ensures r.Some? ==> SourceMatch(t, |r.value|) && r.value == t[..|r.value|]
    ensures r.Some? ==> |r.value| > 0 && AllWord(r.value)
  {
    var k := WordRunFrom(t, 0);
    forall m | SourceMatch(t, m) ensures m == k {
      WordRunExact(t, 0, m);
    }
    assert (exists m :: SourceMatch(t, m)) ==> SourceMatch(t, k);
    if 0 < k < |t| && t[k] == '-' then Some(t[..k]) else None
  }

  /** At most one group length makes the relation pattern match at a given index. */
  lemma RelationMatchLength(t: string, i: nat, k: int)
    requires RelationMatchAt(t, i, k)
    ensures k == WordRunFrom(t, i + 1)
  {
    WordRunExact(t, i + 1, k);
  }

  /** The relation pattern tried at every index from `from` on: (index, group length). */
  function SearchRelation(t: string, from: nat): (r: Option<(nat, nat)>)
    requires from <= |t|
    ensures r.Some? ==> from <= r.value.0 && RelationMatchAt(t, r.value.0, r.value.1)
    ensures r.Some? ==> forall j, k :: from <= j < r.value.0 ==> !RelationMatchAt(t, j, k)
    ensures r.None? ==> forall j, k :: from <= j ==> !RelationMatchAt(t, j, k)
    decreases |t| - from
  {
    if from == |t| then None
    else
      var k := WordRunFrom(t, from + 1);
      if t[from] == '-' && k > 0 && from + k + 3 <= |t| && t[from + 1 + k] == '-' && t[from + 2 + k] == '>' then
        Some((from, k))
      else
        forall k' | RelationMatchAt(t, from, k') ensures false {
          RelationMatchLength(t, from, k');
        }
        SearchRelation(t, from + 1)
  }

  /** `extract_relation_type`: the group of the leftmost match of `-([A-Za-z0-9_]+)->`. */
  function ExtractRelationType(t: string): (r: Option<string>)
    ensures r.Some? <==> exists i, k :: RelationMatchAt(t, i, k)
    ensures r.Some? ==> exists i :: RelationMatchAt(t, i, |r.value|) && r.value == t[i + 1..i + 1 + |r.value|]
                                    && forall j, k :: 0 <= j < i ==> !RelationMatchAt(t, j, k)
    ensures r.Some? ==> |r.value| > 0 && AllWord(r.value)
  {
    match SearchRelation(t, 0)
    case None => None
    case Some((i, k)) =>
      assert RelationMatchAt(t, i, |t[i + 1..i + 1 + k]|);
      Some(t[i + 1..i + 1 + k])
  }

  /** At most one group length makes the target pattern match at a given index. */
  lemma TargetMatchLength(t: string, i: nat, k: int)
    requires TargetMatchAt(t, i, k)
    ensures k == WordRunFrom(t, i + 2)
  {
    WordRunExact(t, i + 2, k);
  }

  /** The target pattern tried at every index from `from` on: (index, group length). */
  function SearchTarget(t: string, from: nat): (r: Option<(nat, nat)>)
    requires from <= |t|
    ensures r.Some? ==> from <= r.value.0 && TargetMatchAt(t, r.value.0, r.value.1)
    ensures r.Some? ==> forall j, k :: from <= j < r.value.0 ==> !TargetMatchAt(t, j, k)
    ensures r.None? ==> forall j, k :: from <= j ==> !TargetMatchAt(t, j, k)
    decreases |t| - from
  {
    if from + 2 > |t| then None
    else
      var k := WordRunFrom(t, from + 2);
      if t[from] == '-' && t[from + 1] == '>' && k > 0 then
        Some((from, k))
      else
        forall k' | TargetMatchAt(t, from, k') ensures false {
          TargetMatchLength(t, from, k');
        }
        SearchTarget(t, from + 1)
  }

  /** `extract_target_type`: the group of the leftmost match of `->([A-Za-z0-9_]+)`. */
  function ExtractTargetType(t: string): (r: Option<string>)
    ensures r.Some? <==> exists i, k :: TargetMatchAt(t, i, k)
    ensures r.Some? ==> exists i :: TargetMatchAt(t, i, |r.value|) && r.value == t[i + 2..i + 2 + |r.value|]
                                    && forall j, k :: 0 <= j < i ==> !TargetMatchAt(t, j, k)
    ensures r.Some? ==> |r.value| > 0 && AllWord(r.value)
  {
    match SearchTarget(t, 0)
    case None => None
    case Some((i, k)) =>
      assert TargetMatchAt(t, i, |t[i + 2..i + 2 + k]|);
      Some(t[i + 2..i + 2 + k])
  }

  /** The triplet `a-b->c`. */
  function Triplet(a: string, b: string, c: string): string {
    a + "-" + b + "->" + c
  }

  /** Where the three parts and the two separators of `a-b->c` sit. */
  lemma TripletLayout(a: string, b: string, c: string)
    ensures var t, p, q := Triplet(a, b, c), |a|, |a| + 1 + |b|;
      && |t| == q + 2 + |c|
      && (forall j :: 0 <= j < p ==> t[j] == a[j])
      && t[p] == '-'
      && (forall j :: p + 1 <= j < q ==> t[j] == b[j - p - 1])
      && t[q] == '-' && t[q + 1] == '>'
      && (forall j :: q + 2 <= j < |t| ==> t[j] == c[j - q - 2])
      && t[..p] == a && t[p + 1..q] == b && t[q + 2..] == c
  {
  }

  /** A triplet made of three non-empty word runs has the first one as source type. */
  lemma {:induction false} WellFormedSource(a: string, b: string, c: string)
    requires |a| > 0 && AllWord(a)
    ensures ExtractEntityType(Triplet(a, b, c)) == Some(a)
  {
    var t, p := Triplet(a, b, c), |a|;
    TripletLayout(a, b, c);
    assert SourceMatch(t, p);
    var src := ExtractEntityType(t).value;
    WordRunExact(t, 0, |src|);
    WordRunExact(t, 0, p);
  }

  /** A relation match with no dash before it is the leftmost one, so its word is the relation type. */
  lemma RelationFoundAt(t: string, p: nat, kb: nat)
    requires RelationMatchAt(t, p, kb)
    requires forall j :: 0 <= j < p ==> t[j] != '-'
    ensures ExtractRelationType(t) == Some(t[p + 1..p + 1 + kb])
  {
    var found := SearchRelation(t, 0);
    assert found.Some?;
    var i, k := found.value.0, found.value.1;
    assert i == p;
    RelationMatchLength(t, p, k);
    RelationMatchLength(t, p, kb);
  }

  /** ... the second one as relation type ... */
  lemma {:induction false} WellFormedRelation(a: string, b: string, c: string)
    requires |b| > 0 && AllWord(a) && AllWord(b)
    ensures ExtractRelationType(Triplet(a, b, c)) == Some(b)
  {
    var t, p := Triplet(a, b, c), |a|;
    TripletLayout(a, b, c);
    assert RelationMatchAt(t, p, |b|);
    assert forall j :: 0 <= j < p ==> t[j] != '-';
    RelationFoundAt(t, p, |b|);
  }

  /** A target match with no arrow before it is the leftmost one, so its word is the target type. */
  lemma TargetFoundAt(t: string, q: nat, kc: nat)
    requires TargetMatchAt(t, q, kc)
    requires forall j :: 0 <= j < q ==> !(t[j] == '-' && t[j + 1] == '>')
    ensures ExtractTargetType(t) == Some(t[q + 2..q + 2 + kc])
  {
    var found := SearchTarget(t, 0);
    assert found.Some?;
    var i, k := found.value.0, found.value.1;
    assert i == q;
    TargetMatchLength(t, q, k);
    TargetMatchLength(t, q, kc);
  }

  /** ... and the third one as target type. */
  lemma {:induction false} WellFormedTarget(a: string, b: string, c: string)
    requires |b| > 0 && |c| > 0 && AllWord(a) && AllWord(b) && AllWord(c)
    ensures ExtractTargetType(Triplet(a, b, c)) == Some(c)
  {
    var t, p, q := Triplet(a, b, c), |a|, |a| + 1 + |b|;
    TripletLayout(a, b, c);
    assert TargetMatchAt(t, q, |c|);
    forall j | 0 <= j < q ensures !(t[j] == '-' && t[j + 1] == '>') {
      if j < p {
        assert t[j] == a[j];
      } else if j == p {
        assert t[j + 1] == b[0];
      } else {
        assert t[j] == b[j - p - 1];
      }
    }
    TargetFoundAt(t, q, |c|);
    assert t[q + 2..q + 2 + |c|] == c;
  }

  /** The example in the docstrings: `Person-HAS_PHONE->Phone`. */
  lemma ExtractExample(t: string)
    requires t == "Person-HAS_PHONE->Phone"
    ensures ExtractEntityType(t) == Some("Person")
    ensures ExtractRelationType(t) == Some("HAS_PHONE")
    ensures ExtractTargetType(t) == Some("Phone")
  {
    ExampleIsTriplet(t);
    ExampleParts();
    WellFormedSource("Person", "HAS_PHONE", "Phone");
    WellFormedRelation("Person", "HAS_PHONE", "Phone");
    WellFormedTarget("Person", "HAS_PHONE", "Phone");
  }

  lemma ExampleIsTriplet(t: string)
    requires t == "Person-HAS_PHONE->Phone"
    ensures t == Triplet("Person", "HAS_PHONE", "Phone")
  {
  }

  lemma ExampleParts()
    ensures AllWord("Person") && AllWord("HAS_PHONE") && AllWord("Phone")
  {
  }

  // ---------------------------------------------------------------------
  // Aggregators
  // ---------------------------------------------------------------------

  /** `x` is the parsed source or the parsed target of some triplet of `ts`. */
  predicate NodeTypeOf(ts: seq<string>, x: string) {
    exists t :: t in ts && (ExtractEntityType(t) == Some(x) || ExtractTargetType(t) == Some(x))
  }

  /** `x` is the parsed relation of some triplet of `ts`. */
  predicate RelationOf(ts: seq<string>, x: string) {
    exists t :: t in ts && ExtractRelationType(t) == Some(x)
  }

  /** What `get_allowed_node_types` promises of its result `r`. */
  ghost predicate IsAllowedNodeTypes(ts: seq<string>, r: seq<string>) {
    StrictlySorted(r) && forall x :: x in r <==> NodeTypeOf(ts, x)
  }

  /** What `get_allowed_relations` promises of its result `r`. */
  ghost predicate IsAllowedRelations(ts: seq<string>, r: seq<string>) {
    StrictlySorted(r) && forall x :: x in r <==> RelationOf(ts, x)
  }

  /** `get_allowed_node_types`: sorted distinct source and target types. */
  method GetAllowedNodeTypes(ts: seq<string>) returns (r: seq<string>)
    ensures StrictlySorted(r)
    ensures forall x :: x in r <==> NodeTypeOf(ts, x)
  {
    var nodeTypes: set<string> := {};
    for i := 0 to |ts|
      invariant forall x :: x in nodeTypes <==> NodeTypeOf(ts[..i], x)
    {
      var src := ExtractEntityType(ts[i]);
      var tgt := ExtractTargetType(ts[i]);
      if src.Some? {
        nodeTypes := nodeTypes + {src.value};
      }
      if tgt.Some? {
        nodeTypes := nodeTypes + {tgt.value};
      }
      assert ts[..i + 1] == ts[..i] + [ts[i]];
    }
    assert ts[..|ts|] == ts;
    r := SortedList(nodeTypes);
  }

  /** `get_allowed_relations`: sorted distinct relation types. */
  method GetAllowedRelations(ts: seq<string>) returns (r: seq<string>)
    ensures StrictlySorted(r)
    ensures forall x :: x in r <==> RelationOf(ts, x)
  {
    var relations: set<string> := {};
    for i := 0 to |ts|
      invariant forall x :: x in relations <==> RelationOf(ts[..i], x)
    {
      var rel := ExtractRelationType(ts[i]);
      if rel.Some? {
        relations := relations + {rel.value};
      }
      assert ts[..i + 1] == ts[..i] + [ts[i]];
    }
    assert ts[..|ts|] == ts;
    r := SortedList(relations);
  }

  /**
   * The derived lists depend only on which triplets occur: reordering or
   * repeating entries leaves them unchanged.
   */
  lemma {:induction false} AllowedListsDependOnSet(ts1: seq<string>, ts2: seq<string>,
                                                  n1: seq<string>, n2: seq<string>,
                                                  r1: seq<string>, r2: seq<string>)
    requires forall t :: t in ts1 <==> t in ts2
    requires IsAllowedNodeTypes(ts1, n1) && IsAllowedNodeTypes(ts2, n2)
    requires IsAllowedRelations(ts1, r1) && IsAllowedRelations(ts2, r2)
    ensures n1 == n2 && r1 == r2
  {
    forall x ensures x in n1 <==> x in n2 {
      assert NodeTypeOf(ts1, x) <==> NodeTypeOf(ts2, x);
    }
    StrictlySortedUnique(n1, n2);
    forall x ensures x in r1 <==> x in r2 {
      assert RelationOf(ts1, x) <==> RelationOf(ts2, x);
    }
    StrictlySortedUnique(r1, r2);
  }

  // ---------------------------------------------------------------------
  // Identifiers
  // ---------------------------------------------------------------------

  function DigitChar(d: nat): char
    requires d < 10
  {
    ('0' as int + d) as char
  }

  /** The decimal digits of `n`, without leading zeros (`str(n)`). */
  function Digits(n: nat): (s: string)
    ensures |s| > 0 && AllDigits(s)
    ensures |s| > 1 ==> s[0] != '0'
  {
    if n < 10 then [DigitChar(n)] else Digits(n / 10) + [DigitChar(n % 10)]
  }

  /** The number a string of decimal digits denotes. */
  function DecimalValue(s: string): nat
    requires AllDigits(s)
  {
    if s == [] then 0 else 10 * DecimalValue(s[..|s| - 1]) + (s[|s| - 1] as int - '0' as int)
  }

  /** `Digits` and `DecimalValue` are inverse. */
  lemma {:induction false} DigitsRoundTrip(n: nat)
    ensures DecimalValue(Digits(n)) == n
  {
    if n >= 10 {
      DigitsRoundTrip(n / 10);
      var s := Digits(n);
      assert s[..|s| - 1] == Digits(n / 10);
    }
  }

  /** Leading zeros do not change the value of a digit string. */
  lemma {:induction false} LeadingZeros(z: nat, s: string)
    requires AllDigits(s)
    ensures AllDigits(Zeros(z) + s) && DecimalValue(Zeros(z) + s) == DecimalValue(s)
    decreases |s|
  {
    var w := Zeros(z) + s;
    assert AllDigits(w);
    if s != [] {
      assert w[..|w| - 1] == Zeros(z) + s[..|s| - 1];
      LeadingZeros(z, s[..|s| - 1]);
    } else {
      assert w == Zeros(z);
      ZerosValue(z);
    }
  }

  lemma {:induction false} ZerosValue(z: nat)
    ensures AllDigits(Zeros(z)) && DecimalValue(Zeros(z)) == 0
  {
    if z > 0 {
      assert Zeros(z)[..z - 1] == Zeros(z - 1);
      ZerosValue(z - 1);
    }
  }

  function Zeros(z: nat): (s: string)
    ensures |s| == z && forall i :: 0 <= i < z ==> s[i] == '0'
  {
    seq(z, _ => '0')
  }

  /** `s` left-padded with zeros to at least `width` characters. */
  function ZeroPad(s: string, width: nat): string {
    if |s| >= width then s else Zeros(width - |s|) + s
  }

  /** Python's `format(index, "03d")`: the sign counts towards the width of three. */
  function FormatIndex(index: int): string {
    if index >= 0 then ZeroPad(Digits(index), 3) else "-" + ZeroPad(Digits(-index), 2)
  }

  /** The digits `FormatIndex` writes read back as the index, padded no further than needed. */
  lemma FormatIndexReadsBack(index: int)
    ensures index >= 0 ==>
      var d := FormatIndex(index);
      |d| >= 3 && AllDigits(d) && DecimalValue(d) == index && (|d| > 3 ==> d[0] != '0')
    ensures index < 0 ==>
      var d := FormatIndex(index);
      |d| >= 3 && d[0] == '-' && AllDigits(d[1..]) && DecimalValue(d[1..]) == -index
      && (|d| > 3 ==> d[1] != '0')
  {
    if index >= 0 {
      DigitsRoundTrip(index);
      var ds := Digits(index);
      if |ds| < 3 {
        LeadingZeros(3 - |ds|, ds);
      }
    } else {
      DigitsRoundTrip(-index);
      var ds := Digits(-index);
      assert FormatIndex(index)[1..] == ZeroPad(ds, 2);
      if |ds| < 2 {
        LeadingZeros(2 - |ds|, ds);
      }
    }
  }

  /**
   * `generate_id`: the lowercased type, an underscore and the index in
   * decimal, zero-padded to three characters. The number after the underscore
   * reads back as the index.
   */
  function GenerateId(entityType: string, index: int): (id: string)
    ensures |id| >= |entityType| + 4
    ensures id[..|entityType| + 1] == Lower(entityType) + "_"
    ensures index >= 0 ==>
      var d := id[|entityType| + 1..];
      AllDigits(d) && DecimalValue(d) == index && (|d| > 3 ==> d[0] != '0')
    ensures index < 0 ==>
      var d := id[|entityType| + 2..];
      id[|entityType| + 1] == '-' && AllDigits(d) && DecimalValue(d) == -index && (|d| > 2 ==> d[0] != '0')
  {
    FormatIndexReadsBack(index);
    var id := Lower(entityType) + "_" + FormatIndex(index);
    assert id[|entityType| + 1..] == FormatIndex(index);
    assert id[|entityType| + 2..] == FormatIndex(index)[1..];
    id
  }

  lemma GenerateIdExample()
    ensures GenerateId("Person", 1) == "person_001"
  {
    assert Digits(1) == "1";
    assert Lower("Person") == "person";
  }
}
