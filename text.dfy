/**
 * The string operations of Python that the extraction tooling relies on:
 * character classes, `str.lower`, the `in` substring test, `str.split(sep)`,
 * `str.split()` on whitespace, and the code-point ordering used by `sorted`.
 */
module Text {
  import opened Wrappers

  // ---------------------------------------------------------------------
  // Character classes
  // ---------------------------------------------------------------------

  /** The regex class `[A-Za-z0-9_]`. */
  predicate IsWordChar(c: char) {
    'A' <= c <= 'Z' || 'a' <= c <= 'z' || '0' <= c <= '9' || c == '_'
  }

  /** The regex class `[a-zA-Z_]`. */
  predicate IsLetterOrUnderscore(c: char) {
    'A' <= c <= 'Z' || 'a' <= c <= 'z' || c == '_'
  }

  predicate IsDigit(c: char) {
    '0' <= c <= '9'
  }

  predicate AllWord(s: string) {
    forall i :: 0 <= i < |s| ==> IsWordChar(s[i])
  }

  predicate AllLetterOrUnderscore(s: string) {
    forall i :: 0 <= i < |s| ==> IsLetterOrUnderscore(s[i])
  }

  predicate AllDigits(s: string) {
    forall i :: 0 <= i < |s| ==> IsDigit(s[i])
  }

  /** The characters Python's `str.split()` (no separator) treats as whitespace. */
  predicate IsSpace(c: char) {
    c == ' ' || c == '\t' || c == '\n' || c == '\r' || c == '\U{0B}' || c == '\U{0C}'
    || ('\U{1C}' <= c <= '\U{1F}') || c == '\U{85}' || c == '\U{A0}' || c == '\U{1680}'
    || ('\U{2000}' <= c <= '\U{200A}') || c == '\U{2028}' || c == '\U{2029}'
    || c == '\U{202F}' || c == '\U{205F}' || c == '\U{3000}'
  }

  // ---------------------------------------------------------------------
  // Case folding (ASCII letters only)
  // ---------------------------------------------------------------------

  function LowerChar(c: char): char {
    if 'A' <= c <= 'Z' then (c as int + 32) as char else c
  }

  function Lower(s: string): string {
    seq(|s|, i requires 0 <= i < |s| => LowerChar(s[i]))
  }

  // ---------------------------------------------------------------------
  // Substrings
  // ---------------------------------------------------------------------

  /** `pat` occurs in `s` starting at index `i`. */
  predicate OccursAt(s: string, pat: string, i: int) {
    0 <= i <= |s| - |pat| && pat <= s[i..]
  }

  /** Python's `needle in hay` for strings. */
  predicate Contains(hay: string, needle: string) {
    exists i | 0 <= i <= |hay| - |needle| :: OccursAt(hay, needle, i)
  }

  /** The index of the leftmost occurrence of `pat` at or after `from` (`str.find`). */
  function FindFrom(s: string, pat: string, from: nat): (r: Option<nat>)
    requires |pat| > 0
    ensures r.Some? ==> from <= r.value && OccursAt(s, pat, r.value)
    ensures r.Some? ==> forall j :: from <= j < r.value ==> !OccursAt(s, pat, j)
    ensures r.None? ==> forall j :: from <= j ==> !OccursAt(s, pat, j)
    decreases |s| - from
  {
    if from + |pat| > |s| then None
    else if pat <= s[from..] then Some(from)
    else FindFrom(s, pat, from + 1)
  }

  function Find(s: string, pat: string): (r: Option<nat>)
    requires |pat| > 0
    ensures r.Some? ==> OccursAt(s, pat, r.value)
    ensures r.Some? ==> forall j :: 0 <= j < r.value ==> !OccursAt(s, pat, j)
    ensures r.None? <==> !Contains(s, pat)
  {
    FindFrom(s, pat, 0)
  }

  /** Python's `sep.join(parts)`. */
  function Join(parts: seq<string>, sep: string): string
    requires |parts| >= 1
  {
    if |parts| == 1 then parts[0] else parts[0] + sep + Join(parts[1..], sep)
  }

  /**
   * Python's `s.split(sep)` for a non-empty separator: joining the parts
   * with `sep` gives `s` back, and no part contains `sep`.
   */
  function Split(s: string, sep: string): (parts: seq<string>)
    requires |sep| > 0
    ensures |parts| >= 1
    ensures |parts| >= 2 <==> Contains(s, sep)
    ensures Join(parts, sep) == s
    ensures forall k :: 0 <= k < |parts| ==> !Contains(parts[k], sep)
    decreases |s|
  {
    match Find(s, sep)
    case None => [s]
    case Some(i) =>
      var rest := Split(s[i + |sep|..], sep);
      SplitStep(s, sep, i, rest);
      [s[..i]] + rest
  }

  /** Cutting `s` at the leftmost separator keeps both halves of the split's contract. */
  lemma SplitStep(s: string, sep: string, i: nat, rest: seq<string>)
    requires |sep| > 0 && OccursAt(s, sep, i)
    requires forall j :: 0 <= j < i ==> !OccursAt(s, sep, j)
    requires |rest| >= 1 && Join(rest, sep) == s[i + |sep|..]
    requires forall k :: 0 <= k < |rest| ==> !Contains(rest[k], sep)
    ensures Join([s[..i]] + rest, sep) == s
    ensures forall k :: 0 <= k < |rest| + 1 ==> !Contains(([s[..i]] + rest)[k], sep)
  {
    var parts := [s[..i]] + rest;
    BeforeFirstHasNoSep(s, sep, i);
    assert parts[1..] == rest;
    assert Join(parts, sep) == s[..i] + sep + s[i + |sep|..];
    CutAtOccurrence(s, sep, i);
  }

  lemma CutAtOccurrence(s: string, sep: string, i: nat)
    requires OccursAt(s, sep, i)
    ensures s[..i] + sep + s[i + |sep|..] == s
  {
    assert s[i..i + |sep|] == sep;
    assert s == s[..i] + s[i..i + |sep|] + s[i + |sep|..];
  }

  /** The text before the leftmost occurrence of `sep` does not contain it. */
  lemma BeforeFirstHasNoSep(s: string, sep: string, i: nat)
    requires |sep| > 0 && OccursAt(s, sep, i)
    requires forall j :: 0 <= j < i ==> !OccursAt(s, sep, j)
    ensures !Contains(s[..i], sep)
  {
    forall j | 0 <= j <= i - |sep| ensures !OccursAt(s[..i], sep, j) {
      assert j < i && !OccursAt(s, sep, j);
      assert s[..i][j..][..|sep|] == s[j..][..|sep|];
    }
  }

  /** Python's `s.split(sep, 1)`. */
  function SplitOnce(s: string, sep: string): (parts: seq<string>)
    requires |sep| > 0
    ensures 1 <= |parts| <= 2
    ensures |parts| == 2 <==> Contains(s, sep)
  {
    match Find(s, sep)
    case None => [s]
    case Some(i) => [s[..i], s[i + |sep|..]]
  }

  /** The first part of a split is the text before the leftmost separator. */
  lemma SplitHead(s: string, sep: string, i: nat)
    requires |sep| > 0 && OccursAt(s, sep, i)
    requires forall j :: 0 <= j < i ==> !OccursAt(s, sep, j)
    ensures Split(s, sep)[0] == s[..i]
    ensures SplitOnce(s, sep) == [s[..i], s[i + |sep|..]]
  {
    var f := Find(s, sep);
    assert f.Some? by {
      assert OccursAt(s, sep, i);
    }
  }

  // ---------------------------------------------------------------------
  // Whitespace tokens
  // ---------------------------------------------------------------------

  /** Length of the longest prefix of `s` made of non-whitespace characters. */
  function NonSpaceRun(s: string): (k: nat)
    ensures k <= |s|
    ensures forall i :: 0 <= i < k ==> !IsSpace(s[i])
    ensures k < |s| ==> IsSpace(s[k])
  {
    if s == [] || IsSpace(s[0]) then 0 else 1 + NonSpaceRun(s[1..])
  }

  predicate NoSpace(s: string) {
    forall i :: 0 <= i < |s| ==> !IsSpace(s[i])
  }

  /** Python's `s.split()`: the maximal runs of non-whitespace characters, in order. */
  function Tokens(s: string): (ts: seq<string>)
    ensures forall k :: 0 <= k < |ts| ==> |ts[k]| > 0 && NoSpace(ts[k]) && Contains(s, ts[k])
    decreases |s|
  {
    if s == [] then []
    else if IsSpace(s[0]) then
      var rest := Tokens(s[1..]);
      forall k | 0 <= k < |rest| ensures Contains(s, rest[k]) {
        ContainsSuffix(s, 1, rest[k]);
      }
      rest
    else
      var n := NonSpaceRun(s);
      var rest := Tokens(s[n..]);
      forall k | 0 <= k < |rest| ensures Contains(s, rest[k]) {
        ContainsSuffix(s, n, rest[k]);
      }
      assert OccursAt(s, s[..n], 0);
      [s[..n]] + rest
  }

  lemma ContainsSuffix(s: string, n: nat, t: string)
    requires n <= |s| && Contains(s[n..], t)
    ensures Contains(s, t)
  {
    var i :| 0 <= i <= |s[n..]| - |t| && OccursAt(s[n..], t, i);
    assert s[n..][i..] == s[n + i..];
    assert OccursAt(s, t, n + i);
  }

  /** A non-empty string without whitespace is its own single token. */
  lemma {:induction false} TokensOfWord(s: string)
    requires |s| > 0 && NoSpace(s)
    ensures Tokens(s) == [s]
  {
    var n := NonSpaceRun(s);
    assert n == |s|;
    assert s[n..] == [];
    assert s[..n] == s;
  }

  /**
   * `w` is a maximal run of non-whitespace characters of `s` starting at `i`:
   * it occurs there, and whitespace or an end of `s` lies on either side.
   */
  predicate TokenAt(s: string, w: string, i: int) {
    |w| > 0 && NoSpace(w) && OccursAt(s, w, i)
    && (i == 0 || IsSpace(s[i - 1]))
    && (i + |w| == |s| || IsSpace(s[i + |w|]))
  }

  ghost predicate IsToken(s: string, w: string) {
    exists i :: TokenAt(s, w, i)
  }

  /** The tokens of `s` are exactly its maximal runs of non-whitespace characters. */
  lemma {:induction false} TokensAreMaximalRuns(s: string)
    ensures forall w :: w in Tokens(s) <==> IsToken(s, w)
    decreases |s|
  {
    if s == [] {
    } else if IsSpace(s[0]) {
      TokensAreMaximalRuns(s[1..]);
      forall w ensures IsToken(s, w) <==> IsToken(s[1..], w) {
        if IsToken(s, w) {
          var i :| TokenAt(s, w, i);
          assert s[i] == w[0];
          TokenInSuffix(s, 1, w, i);
        }
        if IsToken(s[1..], w) {
          var j :| TokenAt(s[1..], w, j);
          TokenFromSuffix(s, 1, w, j);
        }
      }
    } else {
      var n := NonSpaceRun(s);
      TokensAreMaximalRuns(s[n..]);
      assert Tokens(s) == [s[..n]] + Tokens(s[n..]);
      assert TokenAt(s, s[..n], 0);
      forall w ensures IsToken(s, w) <==> w == s[..n] || IsToken(s[n..], w) {
        if IsToken(s, w) {
          var i :| TokenAt(s, w, i);
          if i == 0 {
            FirstTokenIsRun(s, w, n);
          } else {
            assert IsSpace(s[i - 1]);
            TokenInSuffix(s, n, w, i);
          }
        }
        if IsToken(s[n..], w) {
          var j :| TokenAt(s[n..], w, j);
          assert s[n..][j] == w[0];
          TokenFromSuffix(s, n, w, j);
        }
      }
    }
  }

  /** A token at the start of `s` is the leading non-whitespace run. */
  lemma FirstTokenIsRun(s: string, w: string, n: nat)
    requires TokenAt(s, w, 0) && n == NonSpaceRun(s)
    ensures w == s[..n]
  {
    assert forall j :: 0 <= j < |w| ==> s[j] == w[j] && !IsSpace(s[j]);
    assert |w| == n;
  }

  /** A token of `s` at or after `k` is a token of `s[k..]`. */
  lemma TokenInSuffix(s: string, k: nat, w: string, i: int)
    requires TokenAt(s, w, i) && k <= i
    ensures TokenAt(s[k..], w, i - k)
  {
    assert s[k..][i - k..] == s[i..];
    if i - k > 0 {
      assert s[k..][i - k - 1] == s[i - 1];
    }
    if i + |w| < |s| {
      assert s[k..][i - k + |w|] == s[i + |w|];
    }
  }

  /** A token of `s[k..]` not glued to a non-whitespace character before `k` is a token of `s`. */
  lemma TokenFromSuffix(s: string, k: nat, w: string, j: int)
    requires k <= |s| && TokenAt(s[k..], w, j)
    requires k == 0 || j > 0 || IsSpace(s[k - 1])
    ensures TokenAt(s, w, k + j)
  {
    assert s[k..][j..] == s[k + j..];
    if j > 0 {
      assert s[k..][j - 1] == s[k + j - 1];
    }
    if j + |w| < |s[k..]| {
      assert s[k..][j + |w|] == s[k + j + |w|];
    }
  }

  /**
   * A whitespace character separates tokens: the tokens of `a + [c] + b` are
   * those of `a` followed by those of `b`. With TokensOfWord and
   * TokensOfBlank this fixes the tokens, their order and their number.
   */
  lemma {:induction false} TokensSplitAtSpace(a: string, c: char, b: string)
    requires IsSpace(c)
    ensures Tokens(a + [c] + b) == Tokens(a) + Tokens(b)
    decreases |a|
  {
    var s := a + [c] + b;
    if a == [] {
      assert s[1..] == b;
    } else if IsSpace(a[0]) {
      assert s[1..] == a[1..] + [c] + b;
      TokensSplitAtSpace(a[1..], c, b);
    } else {
      var m := NonSpaceRun(a);
      NonSpaceRunBeforeSpace(a, c, b);
      assert s[..m] == a[..m];
      assert s[m..] == a[m..] + [c] + b;
      TokensSplitAtSpace(a[m..], c, b);
    }
  }

  /** The leading run of `a + [c] + b` ends inside `a` or at the whitespace `c`. */
  lemma NonSpaceRunBeforeSpace(a: string, c: char, b: string)
    requires IsSpace(c)
    ensures NonSpaceRun(a + [c] + b) == NonSpaceRun(a)
  {
    var s := a + [c] + b;
    var m := NonSpaceRun(a);
    assert forall j :: 0 <= j < m ==> s[j] == a[j] && !IsSpace(s[j]);
    assert IsSpace(s[m]);
  }

  /** A string that is all whitespace has no tokens. */
  lemma {:induction false} TokensOfBlank(s: string)
    requires forall i :: 0 <= i < |s| ==> IsSpace(s[i])
    ensures Tokens(s) == []
    decreases |s|
  {
    if s != [] {
      TokensOfBlank(s[1..]);
    }
  }

  // ---------------------------------------------------------------------
  // Code-point ordering of strings (Python's `<` on `str`)
  // ---------------------------------------------------------------------

  predicate LexLess(a: string, b: string)
    decreases |a|
  {
    if a == [] then b != []
    else if b == [] then false
    else a[0] < b[0] || (a[0] == b[0] && LexLess(a[1..], b[1..]))
  }

  lemma {:induction false} LexLessIrreflexive(a: string)
    ensures !LexLess(a, a)
    decreases |a|
  {
    if a != [] {
      LexLessIrreflexive(a[1..]);
    }
  }

  lemma {:induction false} LexLessTransitive(a: string, b: string, c: string)
    requires LexLess(a, b) && LexLess(b, c)
    ensures LexLess(a, c)
    decreases |a|
  {
    if a != [] && b != [] && c != [] && a[0] == b[0] == c[0] {
      LexLessTransitive(a[1..], b[1..], c[1..]);
    }
  }

  lemma {:induction false} LexLessTotal(a: string, b: string)
    requires a != b
    ensures LexLess(a, b) || LexLess(b, a)
    decreases |a|
  {
    if a != [] && b != [] && a[0] == b[0] {
      assert a == [a[0]] + a[1..] && b == [b[0]] + b[1..];
      LexLessTotal(a[1..], b[1..]);
    }
  }

  lemma LexLessAsymmetric(a: string, b: string)
    requires LexLess(a, b)
    ensures !LexLess(b, a)
  {
    if LexLess(b, a) {
      LexLessTransitive(a, b, a);
      LexLessIrreflexive(a);
    }
  }

  /** Ascending without repetitions: what `sorted(set(...))` returns. */
  predicate StrictlySorted(xs: seq<string>) {
    forall i, j :: 0 <= i < j < |xs| ==> LexLess(xs[i], xs[j])
  }

  /** Inserts `x` at its place in an ascending list, unless it is already there. */
  function Insert(xs: seq<string>, x: string): (r: seq<string>)
    requires StrictlySorted(xs)
    ensures StrictlySorted(r)
    ensures forall y :: y in r <==> y in xs || y == x
    decreases |xs|
  {
    if xs == [] then [x]
    else if x == xs[0] then xs
    else if LexLess(x, xs[0]) then
      forall j | 0 <= j < |xs| ensures LexLess(x, xs[j]) {
        if j > 0 { LexLessTransitive(x, xs[0], xs[j]); }
      }
      [x] + xs
    else
      LexLessTotal(x, xs[0]);
      var rest := Insert(xs[1..], x);
      assert forall y :: y in rest ==> LexLess(xs[0], y);
      [xs[0]] + rest
  }

  /** An ascending list without repetitions is fixed by its elements. */
  lemma {:induction false} StrictlySortedUnique(xs: seq<string>, ys: seq<string>)
    requires StrictlySorted(xs) && StrictlySorted(ys)
    requires forall z :: z in xs <==> z in ys
    ensures xs == ys
    decreases |xs|
  {
    HeadIsMember(xs);
    HeadIsMember(ys);
    if xs != [] && ys != [] {
      if xs[0] != ys[0] {
        assert ys[0] in xs;
        assert xs[0] in ys;
        var i :| 0 <= i < |xs| && xs[i] == ys[0];
        var j :| 0 <= j < |ys| && ys[j] == xs[0];
        assert i > 0 && j > 0;
        assert LexLess(xs[0], ys[0]) && LexLess(ys[0], xs[0]);
        LexLessAsymmetric(xs[0], ys[0]);
      }
      forall z ensures z in xs[1..] <==> z in ys[1..] {
        if z in xs[1..] {
          TailMember(xs, z);
          TailMember(ys, z);
        }
        if z in ys[1..] {
          TailMember(ys, z);
          TailMember(xs, z);
        }
      }
      StrictlySortedUnique(xs[1..], ys[1..]);
    }
  }

  lemma HeadIsMember(s: seq<string>)
    ensures s != [] ==> s[0] in s
  {
  }

  /** In an ascending list, the members after the head are those that differ from it. */
  lemma TailMember(xs: seq<string>, z: string)
    requires StrictlySorted(xs) && xs != []
    ensures z in xs[1..] <==> z in xs && z != xs[0]
  {
    if z in xs[1..] {
      var i :| 0 <= i < |xs[1..]| && xs[1..][i] == z;
      assert LexLess(xs[0], xs[i + 1]);
      LexLessIrreflexive(z);
    }
    if z in xs && z != xs[0] {
      var i :| 0 <= i < |xs| && xs[i] == z;
      assert xs[1..][i - 1] == z;
    }
  }

  /** `sorted(s)` for a set of strings. */
  method SortedList(s: set<string>) returns (r: seq<string>)
    ensures StrictlySorted(r)
    ensures forall y :: y in r <==> y in s
  {
    r := [];
    var rest := s;
    while rest != {}
      invariant rest <= s
      invariant StrictlySorted(r)
      invariant forall y :: y in r <==> y in s - rest
      decreases rest
    {
      var x :| x in rest;
      r := Insert(r, x);
      rest := rest - {x};
    }
  }
}
