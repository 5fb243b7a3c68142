/**
 * `EnhancedPromptManager` of `app/prompt_manager.py`: a store of prompt
 * templates keyed by id, kept in insertion order, with an index from
 * language to its default template.
 *
 * Fresh ids (`uuid4`) and the current time (`datetime.now`) are parameters;
 * timestamps are whole seconds. Writing the store to its JSON file is not
 * modelled; reading it is the `loaded` parameter of the constructor.
 */
module PromptManager {
  import opened Wrappers
  import opened Text
  import Utils

  // ---------------------------------------------------------------------
  // Templates
  // ---------------------------------------------------------------------

  /** A JSON value of a template's metadata. */
  datatype Value =
    | Null
    | Bool(b: bool)
    | Number(n: int)
    | Str(s: string)
    | Items(items: seq<Value>)
    | Object(fields: map<string, Value>)

  /** Python truthiness of a metadata value. */
  predicate Truthy(v: Value) {
    match v
    case Null => false
    case Bool(b) => b
    case Number(n) => n != 0
    case Str(s) => s != ""
    case Items(items) => items != []
    case Object(fields) => fields != map[]
  }

  datatype Template = Template(
    id: string,
    name: string,
    description: string,
    language: string,
    content: string,
    version: string,
    tags: seq<string>,
    metadata: map<string, Value>,
    createdAt: int,
    updatedAt: int)

  /** `tpl.metadata.get("is_default")` is truthy (a missing key reads as None). */
  predicate IsDefault(t: Template) {
    "is_default" in t.metadata && Truthy(t.metadata["is_default"])
  }

  datatype CreateRequest = CreateRequest(
    name: string,
    description: string,
    language: string,
    content: string,
    tags: seq<string>,
    metadata: map<string, Value>)

  /** A field that is `None` leaves the template's field as it is. */
  datatype UpdateRequest = UpdateRequest(
    name: Option<string>,
    description: Option<string>,
    content: Option<string>,
    tags: Option<seq<string>>,
    metadata: Option<map<string, Value>>)

  /** The search filters; "" (or no tags) stands for an absent filter, as Python's falsy `None` and `""` do. */
  datatype SearchRequest = SearchRequest(
    language: string,
    tags: seq<string>,
    keyword: string,
    page: int,
    pageSize: int)

  datatype ListResult = ListResult(templates: seq<Template>, total: nat, page: int, pageSize: int)

  /** The variables `render_prompt` hands to the template engine. */
  datatype RenderVars = RenderVars(
    text: string,
    allowedNodeTypes: seq<string>,
    allowedRelations: seq<string>,
    allowedTriplets: seq<string>)

  datatype LanguageStats = LanguageStats(language: string, total: nat, defaults: nat)

  datatype Statistics = Statistics(
    totalTemplates: nat,
    languages: seq<LanguageStats>,
    defaultTemplates: nat,
    recentCreated: nat,
    recentUpdated: nat)

  /** The seeded Chinese default template. */
  function DefaultZhTemplate(id: string, content: string, now: int): Template {
    Template(id, "默认中文模板", "系统默认的中文提示词模板", "zh", content, "1.0.0",
             ["默认", "中文"], map["is_default" := Bool(true)], now, now)
  }

  /** The seeded English default template. */
  function DefaultEnTemplate(id: string, content: string, now: int): Template {
    Template(id, "默认英文模板", "系统默认的英文提示词模板", "en", content, "1.0.0",
             ["默认", "英文"], map["is_default" := Bool(true)], now, now)
  }

  // ---------------------------------------------------------------------
  // Insertion-ordered keys
  // ---------------------------------------------------------------------

  predicate Distinct(xs: seq<string>) {
    forall i, j :: 0 <= i < j < |xs| ==> xs[i] != xs[j]
  }

  /** The keys of `xs` in order, without `x` (`del d[x]` on the key order of a dict). */
  function Without(xs: seq<string>, x: string): (r: seq<string>)
    ensures forall y :: y in r <==> y in xs && y != x
    ensures Distinct(xs) ==> Distinct(r)
    ensures x !in xs ==> r == xs
  {
    if xs == [] then []
    else
      var rest := Without(xs[1..], x);
      assert forall y :: y in xs <==> y == xs[0] || y in xs[1..] by {
        assert xs == [xs[0]] + xs[1..];
      }
      assert Distinct(xs) ==> Distinct(xs[1..]) by {
        if Distinct(xs) {
          forall i, j | 0 <= i < j < |xs[1..]| ensures xs[1..][i] != xs[1..][j] {
            assert xs[1..][i] == xs[i + 1] && xs[1..][j] == xs[j + 1];
          }
        }
      }
      if xs[0] == x then rest
      else
        assert Distinct(xs) ==> Distinct([xs[0]] + rest) by {
          if Distinct(xs) {
            assert xs[0] !in xs[1..] by {
              forall j | 0 <= j < |xs[1..]| ensures xs[1..][j] != xs[0] {
                assert xs[1..][j] == xs[j + 1];
              }
            }
            forall i, j | 0 <= i < j < |[xs[0]] + rest| ensures ([xs[0]] + rest)[i] != ([xs[0]] + rest)[j] {
              if i == 0 {
                assert ([xs[0]] + rest)[j] == rest[j - 1];
                assert rest[j - 1] in rest;
              } else {
                assert ([xs[0]] + rest)[i] == rest[i - 1] && ([xs[0]] + rest)[j] == rest[j - 1];
              }
            }
          }
        }
        if x !in xs then
          assert [xs[0]] + xs[1..] == xs;
          [xs[0]] + rest
        else
          [xs[0]] + rest
  }

  /** A key sequence without repeats has as many elements as its set. */
  lemma {:induction false} DistinctCardinality(xs: seq<string>)
    requires Distinct(xs)
    ensures |set x | x in xs| == |xs|
  {
    if xs != [] {
      var init := xs[..|xs| - 1];
      var last := xs[|xs| - 1];
      assert Distinct(init) by {
        forall i, j | 0 <= i < j < |init| ensures init[i] != init[j] {
          assert init[i] == xs[i] && init[j] == xs[j];
        }
      }
      DistinctCardinality(init);
      assert (set x | x in xs) == (set x | x in init) + {last} by {
        assert xs == init + [last];
      }
      assert last !in init by {
        forall j | 0 <= j < |init| ensures init[j] != last {
          assert init[j] == xs[j];
        }
      }
    }
  }

  // ---------------------------------------------------------------------
  // The default index
  // ---------------------------------------------------------------------

  /** Template `tid` is flagged as default for `lang`. */
  predicate FlaggedFor(templates: map<string, Template>, tid: string, lang: string) {
    tid in templates && IsDefault(templates[tid]) && templates[tid].language == lang
  }

  /**
   * The index the loading loop builds: scanning the keys in order, every
   * template flagged as default becomes its language's default.
   */
  function DefaultIndex(order: seq<string>, templates: map<string, Template>): (index: map<string, string>)
    requires forall k :: k in order ==> k in templates
    ensures forall lang :: lang in index ==> index[lang] in order && FlaggedFor(templates, index[lang], lang)
  {
    if order == [] then map[]
    else
      var tid := order[|order| - 1];
      var rest := DefaultIndex(order[..|order| - 1], templates);
      if IsDefault(templates[tid]) then rest[templates[tid].language := tid] else rest
  }

  /** Some template of `lang` in `order` is flagged as default. */
  predicate SomeFlagged(order: seq<string>, templates: map<string, Template>, lang: string) {
    exists i :: 0 <= i < |order| && FlaggedFor(templates, order[i], lang)
  }

  /** `order[i]` is the last template of `lang` flagged as default. */
  predicate LastFlaggedAt(order: seq<string>, templates: map<string, Template>, lang: string, i: int) {
    && 0 <= i < |order|
    && FlaggedFor(templates, order[i], lang)
    && forall j :: i < j < |order| ==> !FlaggedFor(templates, order[j], lang)
  }

  /** A language is indexed exactly when some template of it is flagged as default. */
  lemma {:induction false} DefaultIndexDomain(order: seq<string>, templates: map<string, Template>, lang: string)
    requires forall k :: k in order ==> k in templates
    ensures lang in DefaultIndex(order, templates) <==> SomeFlagged(order, templates, lang)
  {
    if order != [] {
      var n := |order| - 1;
      var init := order[..n];
      DefaultIndexDomain(init, templates, lang);
      if !FlaggedFor(templates, order[n], lang) {
        if SomeFlagged(order, templates, lang) {
          var i :| 0 <= i < |order| && FlaggedFor(templates, order[i], lang);
          assert init[i] == order[i];
        }
        if SomeFlagged(init, templates, lang) {
          var i :| 0 <= i < |init| && FlaggedFor(templates, init[i], lang);
          assert init[i] == order[i];
        }
      }
    }
  }

  /** A language's default is the last template of it flagged as default, in key order. */
  lemma {:induction false} DefaultIndexIsLastFlagged(order: seq<string>, templates: map<string, Template>, lang: string)
    requires forall k :: k in order ==> k in templates
    requires lang in DefaultIndex(order, templates)
    ensures exists i :: LastFlaggedAt(order, templates, lang, i) && order[i] == DefaultIndex(order, templates)[lang]
  {
    var n := |order| - 1;
    var init := order[..n];
    var index := DefaultIndex(order, templates);
    if FlaggedFor(templates, order[n], lang) {
      assert LastFlaggedAt(order, templates, lang, n);
    } else {
      DefaultIndexIsLastFlagged(init, templates, lang);
      var i :| LastFlaggedAt(init, templates, lang, i) && init[i] == DefaultIndex(init, templates)[lang];
      assert init[i] == order[i];
      forall j | i < j < |order| ensures !FlaggedFor(templates, order[j], lang) {
        if j < n {
          assert init[j] == order[j];
        }
      }
      assert LastFlaggedAt(order, templates, lang, i);
    }
  }

  /** The index reads only the templates under the keys it scans. */
  lemma {:induction false} DefaultIndexFrame(order: seq<string>, templates: map<string, Template>, k: string, t: Template)
    requires forall x :: x in order ==> x in templates
    requires k !in order
    ensures DefaultIndex(order, templates[k := t]) == DefaultIndex(order, templates)
  {
    if order != [] {
      var init := order[..|order| - 1];
      assert forall x :: x in init ==> x in order;
      DefaultIndexFrame(init, templates, k, t);
    }
  }

  /**
   * A copy keeps the original's metadata, `is_default` included: once the
   * store is reloaded, the copy of a default template appended last becomes
   * its language's default, and every other language keeps its default.
   */
  lemma CopyOfDefaultTakesOverOnReload(order: seq<string>, templates: map<string, Template>, original: string,
                                       freshId: string, copy: Template)
    requires forall x :: x in order ==> x in templates
    requires original in templates && freshId !in order
    requires copy.metadata == templates[original].metadata && copy.language == templates[original].language
    ensures var reloaded := DefaultIndex(order + [freshId], templates[freshId := copy]);
      && (IsDefault(templates[original]) ==> reloaded == DefaultIndex(order, templates)[copy.language := freshId])
      && (!IsDefault(templates[original]) ==> reloaded == DefaultIndex(order, templates))
  {
    var extended := templates[freshId := copy];
    assert (order + [freshId])[..|order|] == order;
    DefaultIndexFrame(order, templates, freshId, copy);
    assert forall x :: x in order + [freshId] ==> x in extended;
  }

  // ---------------------------------------------------------------------
  // Listing: filters and paging
  // ---------------------------------------------------------------------

  function FilterSeq(ts: seq<Template>, keep: Template -> bool): (r: seq<Template>)
    ensures |r| <= |ts|
    ensures forall t :: t in r <==> t in ts && keep(t)
  {
    if ts == [] then []
    else
      assert forall t :: t in ts <==> t == ts[0] || t in ts[1..] by {
        assert ts == [ts[0]] + ts[1..];
      }
      (if keep(ts[0]) then [ts[0]] else []) + FilterSeq(ts[1..], keep)
  }

  /** Filtering keeps the order: the filter of a concatenation is the concatenation of the filters. */
  lemma {:induction false} FilterSeqAppend(xs: seq<Template>, ys: seq<Template>, keep: Template -> bool)
    ensures FilterSeq(xs + ys, keep) == FilterSeq(xs, keep) + FilterSeq(ys, keep)
  {
    if xs == [] {
      assert xs + ys == ys;
    } else {
      assert (xs + ys)[1..] == xs[1..] + ys;
      FilterSeqAppend(xs[1..], ys, keep);
    }
  }

  /** Filtering twice is filtering once by both conditions. */
  lemma {:induction false} FilterSeqTwice(ts: seq<Template>, p: Template -> bool, q: Template -> bool, both: Template -> bool)
    requires forall t :: both(t) == (p(t) && q(t))
    ensures FilterSeq(FilterSeq(ts, p), q) == FilterSeq(ts, both)
  {
    if ts != [] {
      FilterSeqTwice(ts[1..], p, q, both);
      var head := if p(ts[0]) then [ts[0]] else [];
      FilterSeqAppend(head, FilterSeq(ts[1..], p), q);
      if p(ts[0]) {
        assert head[1..] == [];
      }
    }
  }

  predicate HasLanguage(t: Template, req: SearchRequest) {
    req.language == "" || t.language == req.language
  }

  predicate HasAnyTag(t: Template, req: SearchRequest) {
    req.tags == [] || exists tag :: tag in req.tags && tag in t.tags
  }

  predicate HasKeyword(t: Template, req: SearchRequest) {
    req.keyword == ""
    || Contains(Lower(t.name), Lower(req.keyword))
    || Contains(Lower(t.description), Lower(req.keyword))
  }

  /** The three filters of `list_templates`, applied one after the other. */
  function FilterTemplates(ts: seq<Template>, req: SearchRequest): seq<Template> {
    var byLanguage := FilterSeq(ts, t => HasLanguage(t, req));
    var byTags := FilterSeq(byLanguage, t => HasAnyTag(t, req));
    FilterSeq(byTags, t => HasKeyword(t, req))
  }

  predicate MatchesSearch(t: Template, req: SearchRequest) {
    HasLanguage(t, req) && HasAnyTag(t, req) && HasKeyword(t, req)
  }

  /** The templates of `ts` matching every filter of `req`, in order. */
  function Matching(ts: seq<Template>, req: SearchRequest): seq<Template> {
    FilterSeq(ts, t => MatchesSearch(t, req))
  }

  /** The filters are conjunctive: the three passes keep, in order, exactly the templates matching all three. */
  lemma FiltersAreConjunctive(ts: seq<Template>, req: SearchRequest)
    ensures FilterTemplates(ts, req) == Matching(ts, req)
  {
    var p := (t: Template) => HasLanguage(t, req);
    var q := (t: Template) => HasAnyTag(t, req);
    var r := (t: Template) => HasKeyword(t, req);
    var pq := (t: Template) => HasLanguage(t, req) && HasAnyTag(t, req);
    FilterSeqTwice(ts, p, q, pq);
    FilterSeqTwice(ts, pq, r, t => MatchesSearch(t, req));
  }

  /** A bound of a Python slice, after negative indices count from the end and clamping. */
  function SliceBound(i: int, len: nat): (b: nat)
    ensures b <= len
    ensures 0 <= i <= len ==> b == i
    ensures i > len ==> b == len
  {
    if i < 0 then (if i + len < 0 then 0 else i + len)
    else if i > len then len
    else i
  }

  /** Python's `xs[start:end]`. */
  function PySlice<T>(xs: seq<T>, start: int, end: int): seq<T> {
    var s, e := SliceBound(start, |xs|), SliceBound(end, |xs|);
    if s < e then xs[s..e] else []
  }

  function Min(a: int, b: int): int { if a <= b then a else b }

  /** The page of `list_templates`: `xs[(page - 1) * size:(page - 1) * size + size]`. */
  function Page<T>(xs: seq<T>, page: int, size: int): seq<T> {
    var start := (page - 1) * size;
    PySlice(xs, start, start + size)
  }

  /** A page holds only elements of the list. */
  lemma PageOfList<T>(xs: seq<T>, page: int, size: int)
    ensures forall x :: x in Page(xs, page, size) ==> x in xs
  {
    var s, e := SliceBound((page - 1) * size, |xs|), SliceBound((page - 1) * size + size, |xs|);
    if s < e {
      forall x | x in xs[s..e] ensures x in xs {
        var i :| 0 <= i < e - s && xs[s..e][i] == x;
        assert xs[s + i] == x;
      }
    }
  }

  /** A slice from a non-negative start is the window from it, cut at the end of the sequence. */
  lemma SliceWindow<T>(xs: seq<T>, start: int, size: int)
    requires start >= 0 && size >= 1
    ensures PySlice(xs, start, start + size) == xs[Min(start, |xs|)..Min(start + size, |xs|)]
  {
  }

  lemma PageStart(page: int, size: int)
    requires page >= 1 && size >= 1
    ensures (page - 1) * size >= 0
    ensures page * size == (page - 1) * size + size
  {
    assert (page - 1) * size >= 0 * size;
  }

  /**
   * For a page number and size of at least one, the page is the window of
   * `size` items starting at `(page - 1) * size`, cut at the end of the list,
   * and empty past it.
   */
  lemma PageWindow<T>(xs: seq<T>, page: int, size: int)
    requires page >= 1 && size >= 1
    ensures var start := (page - 1) * size;
      && Page(xs, page, size) == xs[Min(start, |xs|)..Min(start + size, |xs|)]
      && |Page(xs, page, size)| <= size
      && (start >= |xs| ==> Page(xs, page, size) == [])
  {
    PageStart(page, size);
    SliceWindow(xs, (page - 1) * size, size);
  }

  /** Consecutive pages are adjacent windows: together they cover twice the page size. */
  lemma PagesAreAdjacent<T>(xs: seq<T>, page: int, size: int)
    requires page >= 1 && size >= 1
    ensures var start := (page - 1) * size;
      Page(xs, page, size) + Page(xs, page + 1, size) == xs[Min(start, |xs|)..Min(start + 2 * size, |xs|)]
  {
    var start := (page - 1) * size;
    PageStart(page, size);
    SliceWindow(xs, start, size);
    SliceWindow(xs, start + size, size);
    assert Page(xs, page + 1, size) == PySlice(xs, start + size, start + size + size);
    var a, b, c := Min(start, |xs|), Min(start + size, |xs|), Min(start + 2 * size, |xs|);
    assert xs[a..b] + xs[b..c] == xs[a..c];
  }

  // ---------------------------------------------------------------------
  // Statistics
  // ---------------------------------------------------------------------

  /** Count one template of `lang` (flagged default or not) in an ordered tally. */
  function Bump(tally: seq<LanguageStats>, lang: string, isDefault: bool): (r: seq<LanguageStats>)
    ensures |r| >= 1
  {
    if tally == [] then [LanguageStats(lang, 1, if isDefault then 1 else 0)]
    else if tally[0].language == lang then
      [LanguageStats(lang, tally[0].total + 1, tally[0].defaults + if isDefault then 1 else 0)] + tally[1..]
    else [tally[0]] + Bump(tally[1..], lang, isDefault)
  }

  /** The per-language counts of `ts`, languages in order of first appearance. */
  function Tally(ts: seq<Template>, defaultIds: set<string>): seq<LanguageStats> {
    if ts == [] then []
    else
      var t := ts[|ts| - 1];
      Bump(Tally(ts[..|ts| - 1], defaultIds), t.language, t.id in defaultIds)
  }

  function SumTotals(tally: seq<LanguageStats>): nat {
    if tally == [] then 0 else tally[0].total + SumTotals(tally[1..])
  }

  /** The total of `lang` in a tally (its one entry's, when languages are distinct). */
  function TotalFor(tally: seq<LanguageStats>, lang: string): nat {
    if tally == [] then 0
    else (if tally[0].language == lang then tally[0].total else 0) + TotalFor(tally[1..], lang)
  }

  function DefaultsFor(tally: seq<LanguageStats>, lang: string): nat {
    if tally == [] then 0
    else (if tally[0].language == lang then tally[0].defaults else 0) + DefaultsFor(tally[1..], lang)
  }

  function CountLanguage(ts: seq<Template>, lang: string): (n: nat)
    ensures n <= |ts|
  {
    if ts == [] then 0
    else CountLanguage(ts[..|ts| - 1], lang) + if ts[|ts| - 1].language == lang then 1 else 0
  }

  function CountDefaultsOf(ts: seq<Template>, lang: string, defaultIds: set<string>): (n: nat)
    ensures n <= CountLanguage(ts, lang)
  {
    if ts == [] then 0
    else
      var t := ts[|ts| - 1];
      CountDefaultsOf(ts[..|ts| - 1], lang, defaultIds) + if t.language == lang && t.id in defaultIds then 1 else 0
  }

  lemma {:induction false} BumpCounts(tally: seq<LanguageStats>, lang: string, isDefault: bool, other: string)
    ensures SumTotals(Bump(tally, lang, isDefault)) == SumTotals(tally) + 1
    ensures TotalFor(Bump(tally, lang, isDefault), other) == TotalFor(tally, other) + if other == lang then 1 else 0
    ensures DefaultsFor(Bump(tally, lang, isDefault), other) ==
      DefaultsFor(tally, other) + if other == lang && isDefault then 1 else 0
  {
    if tally != [] && tally[0].language != lang {
      BumpCounts(tally[1..], lang, isDefault, other);
      assert Bump(tally, lang, isDefault)[1..] == Bump(tally[1..], lang, isDefault);
    }
  }

  /**
   * The tally counts every template once: its totals add up to the number of
   * templates, and each language's entry holds the number of its templates
   * and of those whose id is a default.
   */
  lemma {:induction false} TallyCounts(ts: seq<Template>, defaultIds: set<string>, lang: string)
    ensures SumTotals(Tally(ts, defaultIds)) == |ts|
    ensures TotalFor(Tally(ts, defaultIds), lang) == CountLanguage(ts, lang)
    ensures DefaultsFor(Tally(ts, defaultIds), lang) == CountDefaultsOf(ts, lang, defaultIds)
  {
    if ts != [] {
      var t := ts[|ts| - 1];
      TallyCounts(ts[..|ts| - 1], defaultIds, lang);
      BumpCounts(Tally(ts[..|ts| - 1], defaultIds), t.language, t.id in defaultIds, lang);
    }
  }

  function Languages(tally: seq<LanguageStats>): (langs: seq<string>)
    ensures |langs| == |tally|
    ensures forall i :: 0 <= i < |tally| ==> langs[i] == tally[i].language
  {
    seq(|tally|, i requires 0 <= i < |tally| => tally[i].language)
  }

  /** A list with a head is without repeats exactly when its tail is and does not hold the head. */
  lemma DistinctCons(h: string, tail: seq<string>)
    ensures Distinct([h] + tail) <==> h !in tail && Distinct(tail)
  {
    var xs := [h] + tail;
    if Distinct(xs) {
      forall j | 0 <= j < |tail| ensures tail[j] != h {
        assert xs[0] == h && xs[j + 1] == tail[j];
        assert xs[0] != xs[j + 1];
      }
      forall i, j | 0 <= i < j < |tail| ensures tail[i] != tail[j] {
        assert xs[i + 1] == tail[i] && xs[j + 1] == tail[j];
      }
    }
    if h !in tail && Distinct(tail) {
      forall i, j | 0 <= i < j < |xs| ensures xs[i] != xs[j] {
        assert xs[j] == tail[j - 1];
        if i > 0 {
          assert xs[i] == tail[i - 1];
        }
      }
    }
  }

  lemma LanguagesCons(tally: seq<LanguageStats>)
    requires tally != []
    ensures Languages(tally) == [tally[0].language] + Languages(tally[1..])
  {
  }

  lemma {:induction false} BumpLanguages(tally: seq<LanguageStats>, lang: string, isDefault: bool)
    requires Distinct(Languages(tally))
    ensures Distinct(Languages(Bump(tally, lang, isDefault)))
    ensures forall x :: x in Languages(Bump(tally, lang, isDefault)) <==> x == lang || x in Languages(tally)
  {
    var r := Bump(tally, lang, isDefault);
    if tally == [] {
      assert Languages(r) == [lang];
    } else if tally[0].language == lang {
      assert Languages(r) == Languages(tally);
    } else {
      var tail := tally[1..];
      LanguagesCons(tally);
      DistinctCons(tally[0].language, Languages(tail));
      BumpLanguages(tail, lang, isDefault);
      var bumped := Bump(tail, lang, isDefault);
      assert r == [tally[0]] + bumped;
      LanguagesCons(r);
      assert r[1..] == bumped;
      DistinctCons(tally[0].language, Languages(bumped));
    }
  }

  /**
   * The tally lists each language once, and lists exactly the languages some
   * template is written in.
   */
  lemma {:induction false} TallyLanguages(ts: seq<Template>, defaultIds: set<string>)
    ensures Distinct(Languages(Tally(ts, defaultIds)))
    ensures forall x :: x in Languages(Tally(ts, defaultIds)) <==> CountLanguage(ts, x) > 0
  {
    if ts != [] {
      var t := ts[|ts| - 1];
      TallyLanguages(ts[..|ts| - 1], defaultIds);
      BumpLanguages(Tally(ts[..|ts| - 1], defaultIds), t.language, t.id in defaultIds);
    }
  }

  /** The counts over one more template: the counts so far, updated by that template. */
  lemma CountsSnoc(ts: seq<Template>, i: nat, defaultIds: set<string>, now: int)
    requires i < |ts|
    ensures Tally(ts[..i + 1], defaultIds) == Bump(Tally(ts[..i], defaultIds), ts[i].language, ts[i].id in defaultIds)
    ensures CountRecentlyCreated(ts[..i + 1], now) ==
      CountRecentlyCreated(ts[..i], now) + if WithinWeek(now, ts[i].createdAt) then 1 else 0
    ensures CountRecentlyUpdated(ts[..i + 1], now) ==
      CountRecentlyUpdated(ts[..i], now) + if WithinWeek(now, ts[i].updatedAt) then 1 else 0
  {
    assert ts[..i + 1][..i] == ts[..i];
  }

  /** `(now - t).days <= 7`, where `.days` rounds the difference in seconds down to whole days. */
  predicate WithinWeek(now: int, t: int) {
    (now - t) / 86400 <= 7
  }

  function CountRecentlyCreated(ts: seq<Template>, now: int): (n: nat)
    ensures n <= |ts|
  {
    if ts == [] then 0
    else CountRecentlyCreated(ts[..|ts| - 1], now) + if WithinWeek(now, ts[|ts| - 1].createdAt) then 1 else 0
  }

  function CountRecentlyUpdated(ts: seq<Template>, now: int): (n: nat)
    ensures n <= |ts|
  {
    if ts == [] then 0
    else CountRecentlyUpdated(ts[..|ts| - 1], now) + if WithinWeek(now, ts[|ts| - 1].updatedAt) then 1 else 0
  }

  /** A template stamped less than eight days before `now`, or at any later time, is recent. */
  lemma WithinWeekBound(now: int, t: int)
    ensures now - t < 8 * 86400 ==> WithinWeek(now, t)
    ensures now - t >= 8 * 86400 ==> !WithinWeek(now, t)
  {
  }

  // ---------------------------------------------------------------------
  // The manager
  // ---------------------------------------------------------------------

  class Manager {
    /** The keys of `templates` in insertion order (the order of a Python dict). */
    var order: seq<string>
    var templates: map<string, Template>
    /** language -> template id */
    var defaults: map<string, string>

    ghost predicate Valid()
      reads this
    {
      Distinct(order) && forall k :: k in templates <==> k in order
    }

    /** `list(self.templates.values())` */
    function Values(): (vs: seq<Template>)
      reads this
      requires Valid()
      ensures |vs| == |order|
      ensures forall i :: 0 <= i < |order| ==> vs[i] == templates[order[i]]
    {
      var keys, stored := order, templates;
      seq(|keys|, i requires 0 <= i < |keys| && keys[i] in stored => stored[keys[i]])
    }

    lemma ValuesAreStored()
      requires Valid()
      ensures forall t :: t in Values() ==> t in templates.Values
    {
      forall t | t in Values() ensures t in templates.Values {
        var i :| 0 <= i < |Values()| && Values()[i] == t;
        assert order[i] in templates;
      }
    }

    lemma SizeIsOrderLength()
      requires Valid()
      ensures |templates| == |order|
    {
      assert templates.Keys == set x | x in order;
      DistinctCardinality(order);
    }

    /**
     * `__init__`: load the stored templates (`loaded`, or `None` when there is
     * no file), rebuild the default index, and seed one Chinese and one
     * English default when the store is empty.
     */
    constructor(loaded: Option<seq<(string, Template)>>, zhId: string, enId: string, now: int,
                zhContent: string, enContent: string)
      requires loaded.Some? ==> Distinct(KeysOf(loaded.value))
      requires zhId != enId
      ensures Valid()
      ensures loaded.Some? && loaded.value != [] ==>
        && order == KeysOf(loaded.value)
        && (forall i :: 0 <= i < |loaded.value| ==> templates[loaded.value[i].0] == loaded.value[i].1)
        && defaults == DefaultIndex(order, templates)
      ensures loaded.None? || loaded.value == [] ==>
        && order == [zhId, enId]
        && templates == map[zhId := DefaultZhTemplate(zhId, zhContent, now), enId := DefaultEnTemplate(enId, enContent, now)]
        && defaults == map["zh" := zhId, "en" := enId]
    {
      order := [];
      templates := map[];
      defaults := map[];
      new;
      LoadTemplates(loaded);
      InitDefaultTemplates(zhId, enId, now, zhContent, enContent);
    }

    /** `load_templates` */
    method LoadTemplates(loaded: Option<seq<(string, Template)>>)
      requires loaded.Some? ==> Distinct(KeysOf(loaded.value))
      modifies this
      ensures Valid()
      ensures loaded.None? ==> order == [] && templates == map[] && defaults == map[]
      ensures loaded.Some? ==>
        && order == KeysOf(loaded.value)
        && (forall i :: 0 <= i < |loaded.value| ==> templates[loaded.value[i].0] == loaded.value[i].1)
        && defaults == DefaultIndex(order, templates)
    {
      if loaded.None? {
        order, templates, defaults := [], map[], map[];
        return;
      }
      var entries := loaded.value;
      var keys: seq<string>, stored: map<string, Template> := [], map[];
      for i := 0 to |entries|
        invariant keys == KeysOf(entries[..i])
        invariant forall k :: k in stored <==> k in keys
        invariant forall j :: 0 <= j < i ==> stored[entries[j].0] == entries[j].1
      {
        KeysOfDistinctEntries(entries, i);
        keys := keys + [entries[i].0];
        stored := stored[entries[i].0 := entries[i].1];
        assert entries[..i + 1] == entries[..i] + [entries[i]];
      }
      assert entries[..|entries|] == entries;
      var index: map<string, string> := map[];
      for i := 0 to |keys|
        invariant index == DefaultIndex(keys[..i], stored)
      {
        var tid := keys[i];
        assert keys[..i + 1][..i] == keys[..i];
        if IsDefault(stored[tid]) {
          index := index[stored[tid].language := tid];
        }
      }
      assert keys[..|keys|] == keys;
      order, templates, defaults := keys, stored, index;
    }

    /** `_init_default_templates`: seed both defaults when the store is empty. */
    method InitDefaultTemplates(zhId: string, enId: string, now: int, zhContent: string, enContent: string)
      requires Valid() && zhId != enId
      modifies this
      ensures Valid()
      ensures old(templates) != map[] ==> order == old(order) && templates == old(templates) && defaults == old(defaults)
      ensures old(templates) == map[] ==>
        && order == [zhId, enId]
        && templates == map[zhId := DefaultZhTemplate(zhId, zhContent, now), enId := DefaultEnTemplate(enId, enContent, now)]
        && defaults == old(defaults)["zh" := zhId]["en" := enId]
    {
      if templates == map[] {
        SizeIsOrderLength();
        var zh := DefaultZhTemplate(zhId, zhContent, now);
        templates := templates[zh.id := zh];
        order := order + [zh.id];
        defaults := defaults["zh" := zh.id];
        var en := DefaultEnTemplate(enId, enContent, now);
        templates := templates[en.id := en];
        order := order + [en.id];
        defaults := defaults["en" := en.id];
      }
    }

    /** `create_template`: add a new template under the fresh id `freshId`. */
    method CreateTemplate(req: CreateRequest, freshId: string, now: int) returns (t: Template)
      requires Valid() && freshId !in templates
      modifies this
      ensures Valid()
      ensures t == Template(freshId, req.name, req.description, req.language, req.content, "1.0.0",
                            req.tags, req.metadata, now, now)
      ensures templates == old(templates)[freshId := t] && order == old(order) + [freshId]
      ensures defaults == old(defaults)
    {
      t := Template(freshId, req.name, req.description, req.language, req.content, "1.0.0",
                    req.tags, req.metadata, now, now);
      templates := templates[freshId := t];
      order := order + [freshId];
    }

    /**
     * `update_template`: an unknown id is an error and changes nothing;
     * otherwise every field given in the request is overwritten and the
     * update time is refreshed, and nothing else changes.
     */
    method UpdateTemplate(templateId: string, req: UpdateRequest, now: int) returns (r: Result<Template>)
      requires Valid()
      modifies this
      ensures Valid()
      ensures order == old(order) && defaults == old(defaults)
      ensures r.Err? <==> templateId !in old(templates)
      ensures r.Err? ==> templates == old(templates)
      ensures r.Ok? ==> templates == old(templates)[templateId := r.value]
      ensures r.Ok? ==> var before := old(templates)[templateId];
        && r.value.id == before.id && r.value.language == before.language
        && r.value.version == before.version && r.value.createdAt == before.createdAt
        && r.value.updatedAt == now
        && r.value.name == (if req.name.Some? then req.name.value else before.name)
        && r.value.description == (if req.description.Some? then req.description.value else before.description)
        && r.value.content == (if req.content.Some? then req.content.value else before.content)
        && r.value.tags == (if req.tags.Some? then req.tags.value else before.tags)
        && r.value.metadata == (if req.metadata.Some? then req.metadata.value else before.metadata)
    {
      if templateId !in templates {
        return Err("模板不存在: " + templateId);
      }
      var t := templates[templateId];
      if req.name.Some? {
        t := t.(name := req.name.value);
      }
      if req.description.Some? {
        t := t.(description := req.description.value);
      }
      if req.content.Some? {
        t := t.(content := req.content.value);
      }
      if req.tags.Some? {
        t := t.(tags := req.tags.value);
      }
      if req.metadata.Some? {
        t := t.(metadata := req.metadata.value);
      }
      t := t.(updatedAt := now);
      templates := templates[templateId := t];
      r := Ok(t);
    }

    /** `delete_template`: remove the template when it exists and say whether it did. */
    method DeleteTemplate(templateId: string) returns (removed: bool)
      requires Valid()
      modifies this
      ensures Valid()
      ensures removed == (templateId in old(templates))
      ensures templates == old(templates) - {templateId} && templateId !in templates
      ensures order == Without(old(order), templateId)
      ensures defaults == old(defaults)
      ensures forall lang :: lang in defaults && defaults[lang] == templateId ==> GetDefaultTemplate(lang).None?
    {
      if templateId !in templates {
        assert templateId !in order;
        return false;
      }
      templates := templates - {templateId};
      order := Without(order, templateId);
      return true;
    }

    /** `get_template` */
    function GetTemplate(templateId: string): (r: Option<Template>)
      reads this
      ensures r.None? <==> templateId !in templates
      ensures r.Some? ==> r.value == templates[templateId]
    {
      if templateId in templates then Some(templates[templateId]) else None
    }

    /**
     * `list_templates`: the templates in store order that pass all filters,
     * their number before paging, and the requested page of them.
     */
    function ListTemplates(req: SearchRequest): (r: ListResult)
      reads this
      requires Valid()
      ensures r.total == |Matching(Values(), req)| <= |templates|
      ensures r.templates == Page(Matching(Values(), req), req.page, req.pageSize)
      ensures forall t :: t in r.templates ==> t in templates.Values && MatchesSearch(t, req)
      ensures r.page == req.page && r.pageSize == req.pageSize
    {
      var filtered := FilterTemplates(Values(), req);
      FiltersAreConjunctive(Values(), req);
      SizeIsOrderLength();
      ValuesAreStored();
      var page := Page(filtered, req.page, req.pageSize);
      PageOfList(filtered, req.page, req.pageSize);
      ListResult(page, |filtered|, req.page, req.pageSize)
    }

    /** `get_default_template`: `None` for an unindexed language or a default that is no longer stored. */
    function GetDefaultTemplate(language: string): (r: Option<Template>)
      reads this
      ensures r.Some? <==> language in defaults && defaults[language] in templates
      ensures r.Some? ==> r.value == templates[defaults[language]]
    {
      if language !in defaults then None
      else if defaults[language] in templates then Some(templates[defaults[language]])
      else None
    }

    /** The template `render_prompt` renders: the one named by a non-empty id, else the language's default. */
    function SelectTemplate(language: string, templateId: string): (r: Result<Template>)
      reads this
      ensures templateId != "" ==> (r.Ok? <==> templateId in templates)
      ensures templateId != "" && r.Ok? ==> r.value == templates[templateId]
      ensures templateId == "" ==> (r.Ok? <==> GetDefaultTemplate(language).Some?)
      ensures templateId == "" && r.Ok? ==> r.value == GetDefaultTemplate(language).value
    {
      if templateId != "" then
        if templateId !in templates then Err("模板不存在: " + templateId) else Ok(templates[templateId])
      else
        match GetDefaultTemplate(language)
        case None => Err("未找到语言 '" + language + "' 的默认模板")
        case Some(t) => Ok(t)
    }

    /**
     * `render_prompt`: select the template, compute the sorted node types and
     * relations of the schema, and hand them with the text and the raw
     * triplets to the template engine `render`.
     */
    method RenderPrompt(language: string, text: string, triplets: seq<string>, templateId: string,
                        render: (string, RenderVars) -> Result<string>)
      returns (r: Result<string>)
      requires Valid()
      ensures SelectTemplate(language, templateId).Err? ==> r == Err(SelectTemplate(language, templateId).message)
      ensures SelectTemplate(language, templateId).Ok? ==>
        exists vars: RenderVars ::
          && vars.text == text && vars.allowedTriplets == triplets
          && Utils.IsAllowedNodeTypes(triplets, vars.allowedNodeTypes)
          && Utils.IsAllowedRelations(triplets, vars.allowedRelations)
          && r == render(SelectTemplate(language, templateId).value.content, vars)
    {
      var selected := SelectTemplate(language, templateId);
      if selected.Err? {
        return Err(selected.message);
      }
      var nodeTypes := Utils.GetAllowedNodeTypes(triplets);
      var relations := Utils.GetAllowedRelations(triplets);
      var vars := RenderVars(text, nodeTypes, relations, triplets);
      r := render(selected.value.content, vars);
    }

    /**
     * `duplicate_template`: an unknown id is an error; otherwise a copy under
     * the fresh id with the new name, a description naming the original, the
     * original's language, content and metadata, its tags plus `复制`, and
     * version 1.0.0. The original is untouched.
     */
    method DuplicateTemplate(templateId: string, newName: string, freshId: string, now: int)
      returns (r: Result<Template>)
      requires Valid() && freshId !in templates
      modifies this
      ensures Valid()
      ensures defaults == old(defaults)
      ensures r.Err? <==> templateId !in old(templates)
      ensures r.Err? ==> templates == old(templates) && order == old(order)
      ensures r.Ok? ==> var original := old(templates)[templateId];
        && r.value == Template(freshId, newName, "复制自: " + original.name, original.language, original.content,
                               "1.0.0", original.tags + ["复制"], original.metadata, now, now)
        && templates == old(templates)[freshId := r.value] && order == old(order) + [freshId]
        && templates[templateId] == original
    {
      if templateId !in templates {
        return Err("模板不存在: " + templateId);
      }
      var original := templates[templateId];
      var copy := Template(freshId, newName, "复制自: " + original.name, original.language, original.content,
                           "1.0.0", original.tags + ["复制"], original.metadata, now, now);
      templates := templates[copy.id := copy];
      order := order + [copy.id];
      r := Ok(copy);
    }

    /**
     * `get_template_statistics`: the number of templates, a per-language
     * tally in order of first appearance, the size of the default index, and
     * the templates created and updated within the last week.
     */
    method GetTemplateStatistics(now: int) returns (stats: Statistics)
      requires Valid()
      ensures stats.totalTemplates == |templates|
      ensures stats.languages == Tally(Values(), defaults.Values)
      ensures stats.defaultTemplates == |defaults|
      ensures stats.recentCreated == CountRecentlyCreated(Values(), now)
      ensures stats.recentUpdated == CountRecentlyUpdated(Values(), now)
    {
      var values := Values();
      var languages: seq<LanguageStats> := [];
      for i := 0 to |values|
        invariant languages == Tally(values[..i], defaults.Values)
      {
        var t := values[i];
        CountsSnoc(values, i, defaults.Values, now);
        languages := Bump(languages, t.language, t.id in defaults.Values);
      }
      var recentCreated, recentUpdated := 0, 0;
      for i := 0 to |values|
        invariant recentCreated == CountRecentlyCreated(values[..i], now)
        invariant recentUpdated == CountRecentlyUpdated(values[..i], now)
      {
        var t := values[i];
        CountsSnoc(values, i, defaults.Values, now);
        if WithinWeek(now, t.createdAt) {
          recentCreated := recentCreated + 1;
        }
        if WithinWeek(now, t.updatedAt) {
          recentUpdated := recentUpdated + 1;
        }
      }
      assert values[..|values|] == values;
      SizeIsOrderLength();
      stats := Statistics(|templates|, languages, |defaults|, recentCreated, recentUpdated);
    }
  }

  /** The per-language totals of the statistics add up to the number of templates. */
  lemma LanguageTotalsAddUp(m: Manager, now: int)
    requires m.Valid()
    ensures SumTotals(Tally(m.Values(), m.defaults.Values)) == |m.templates|
  {
    TallyCounts(m.Values(), m.defaults.Values, "");
    m.SizeIsOrderLength();
  }

  /** The keys of the loaded entries, in file order. */
  function KeysOf(entries: seq<(string, Template)>): (keys: seq<string>)
    ensures |keys| == |entries|
    ensures forall i :: 0 <= i < |entries| ==> keys[i] == entries[i].0
  {
    seq(|entries|, i requires 0 <= i < |entries| => entries[i].0)
  }

  lemma KeysOfDistinctEntries(entries: seq<(string, Template)>, i: nat)
    requires i < |entries| && Distinct(KeysOf(entries))
    ensures KeysOf(entries[..i + 1]) == KeysOf(entries[..i]) + [entries[i].0]
    ensures entries[i].0 !in KeysOf(entries[..i])
  {
    var keys := KeysOf(entries);
    forall j | 0 <= j < i ensures KeysOf(entries[..i])[j] != entries[i].0 {
      assert KeysOf(entries[..i])[j] == keys[j];
      assert keys[i] == entries[i].0;
    }
  }
}
