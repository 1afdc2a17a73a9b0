/**
 * Import stripping: `content.replace(/^\s*import(\s+)[\s\S]*?;\s*$/gm, "").trim()`.
 *
 * The expression is encoded as the backtracking matcher evaluates it at one
 * start position `p`:
 *  - `^` holds at the start of the text and after a line terminator;
 *  - the greedy `\s*` can only stop where `import` begins, which is the end
 *    of the white-space run at `p` (`i` is not white space), and it may run
 *    across blank lines;
 *  - `(\s+)` needs at least one white-space character after `import`;
 *    shortening it never helps, because the lazy `[\s\S]*?` then has to
 *    cross the same white space, which holds no `;`;
 *  - the lazy `[\s\S]*?` stops at the first `;` after which `\s*$` can
 *    match, possibly on a later line;
 *  - the greedy `\s*` before `$` stops at the last position of the
 *    white-space run after the `;` where `$` holds.
 * A global replace tries the start positions from left to right and
 * resumes after each match; every match is at least `import ;` long.
 */
module ImportPattern {
  import opened Text

  datatype Option<T> = None | Some(value: T)

  const Keyword: string := "import"

  predicate AtLineStart(s: string, p: nat)
    requires p <= |s|
  {
    p == 0 || IsLineTerminator(s[p - 1])
  }

  predicate AtLineEnd(s: string, t: nat)
    requires t <= |s|
  {
    t == |s| || IsLineTerminator(s[t])
  }

  /** The end of the run of white space that starts at `i`. */
  function SkipSpaces(s: string, i: nat): (k: nat)
    requires i <= |s|
    ensures i <= k <= |s|
    ensures forall m :: i <= m < k ==> IsSpace(s[m])
    ensures k == |s| || !IsSpace(s[k])
    decreases |s| - i
  {
    if i < |s| && IsSpace(s[i]) then SkipSpaces(s, i + 1) else i
  }

  /** The last position in `lo..hi` where `$` holds: where a greedy `\s*` followed by `$` stops. */
  function LastLineEnd(s: string, lo: nat, hi: nat): (t: Option<nat>)
    requires lo <= hi <= |s|
    ensures t.Some? ==> lo <= t.value <= hi && AtLineEnd(s, t.value)
    ensures t.Some? ==> forall m :: t.value < m <= hi ==> !AtLineEnd(s, m)
    ensures t.None? ==> forall m :: lo <= m <= hi ==> !AtLineEnd(s, m)
    decreases hi
  {
    if AtLineEnd(s, hi) then Some(hi)
    else if hi == lo then None
    else LastLineEnd(s, lo, hi - 1)
  }

  /** Where `;\s*$` ends when it matches with its `;` at `j`. */
  function SemicolonEnd(s: string, j: nat): (t: Option<nat>)
    requires j < |s|
    ensures t.Some? ==> s[j] == ';' && j < t.value <= |s| && AtLineEnd(s, t.value)
    ensures t.Some? ==> forall m :: j < m < t.value ==> IsSpace(s[m])
  {
    if s[j] == ';' then LastLineEnd(s, j + 1, SkipSpaces(s, j + 1)) else None
  }

  /** The first `j >= i` at which `;\s*$` matches: where the lazy `[\s\S]*?` stops. */
  function FindSemicolon(s: string, i: nat): (j: Option<nat>)
    requires i <= |s|
    ensures j.Some? ==> i <= j.value < |s| && SemicolonEnd(s, j.value).Some?
    ensures j.Some? ==> forall k :: i <= k < j.value ==> SemicolonEnd(s, k).None?
    ensures j.None? ==> forall k :: i <= k < |s| ==> SemicolonEnd(s, k).None?
    decreases |s| - i
  {
    if i == |s| then None
    else if SemicolonEnd(s, i).Some? then Some(i)
    else FindSemicolon(s, i + 1)
  }

  /** The end of the match of the import expression that starts at `p`, if there is one. */
  function MatchAt(s: string, p: nat): (t: Option<nat>)
    requires p <= |s|
    ensures t.Some? ==> p < t.value <= |s|
  {
    if !AtLineStart(s, p) then None
    else
      var q := SkipSpaces(s, p);
      if q + |Keyword| <= |s| && s[q..q + |Keyword|] == Keyword then
        var w := SkipSpaces(s, q + |Keyword|);
        if w == q + |Keyword| then None
        else
          match FindSemicolon(s, w)
          case None => None
          case Some(j) => SemicolonEnd(s, j)
      else None
  }

  /** The global replace by the empty string, from scan position `p` on. */
  function RemoveImportsFrom(s: string, p: nat): string
    requires p <= |s|
    decreases |s| - p
  {
    if p == |s| then []
    else
      match MatchAt(s, p)
      case Some(t) => RemoveImportsFrom(s, t)
      case None => [s[p]] + RemoveImportsFrom(s, p + 1)
  }

  /** `getFileWithoutImports`: the text with every import statement removed, then trimmed. */
  function StripImports(content: string): string {
    Trim(RemoveImportsFrom(content, 0))
  }

  /** The stripped text neither begins nor ends with white space. */
  lemma StripImportsHasNoOuterSpace(content: string)
    ensures var r := StripImports(content); r == [] || (!IsSpace(r[0]) && !IsSpace(r[|r| - 1]))
  {
    TrimHasNoOuterSpace(RemoveImportsFrom(content, 0));
  }

  /** `a` is obtained from `b` by deleting characters. */
  ghost predicate IsSubsequence(a: string, b: string)
    decreases |b|
  {
    a == [] || (b != [] && ((a[0] == b[0] && IsSubsequence(a[1..], b[1..])) || IsSubsequence(a, b[1..])))
  }

  /**
   * The text `s[p..t]` is an import statement as the expression reads it:
   * white space from `p` to `q`, the keyword, at least one white-space
   * character, anything, a `;` at `j`, then only white space up to `t`.
   */
  ghost predicate IsImportSpan(s: string, p: nat, q: nat, j: nat, t: nat) {
    p <= q && q + |Keyword| < j < t <= |s|
    && (forall m :: p <= m < q ==> IsSpace(s[m]))
    && s[q..q + |Keyword|] == Keyword && IsSpace(s[q + |Keyword|])
    && s[j] == ';' && (forall m :: j < m < t ==> IsSpace(s[m]))
  }

  /** Every match is an import statement that starts at a line start and ends at a line end. */
  lemma ImportMatchShape(s: string, p: nat)
    requires p <= |s| && MatchAt(s, p).Some?
    ensures AtLineStart(s, p) && AtLineEnd(s, MatchAt(s, p).value)
    ensures exists q, j :: IsImportSpan(s, p, q, j, MatchAt(s, p).value)
  {
    var t := MatchAt(s, p).value;
    var q := SkipSpaces(s, p);
    var w := SkipSpaces(s, q + |Keyword|);
    var j := FindSemicolon(s, w).value;
    assert SemicolonEnd(s, j) == Some(t);
    assert IsImportSpan(s, p, q, j, t);
  }

  /** At a line start, a span of the import shape that ends at a line end is matched. */
  lemma ImportSpanIsMatched(s: string, p: nat, q: nat, j: nat, t: nat)
    requires IsImportSpan(s, p, q, j, t) && AtLineStart(s, p) && AtLineEnd(s, t)
    ensures MatchAt(s, p).Some?
  {
    var k := q + |Keyword|;
    assert s[q] == s[q..k][0] == 'i';
    SkipStopsAt(s, p, q);
    var w := SkipSpaces(s, k);
    SkipStopsBefore(s, k, j);
    SkipRunsOver(s, j + 1, t);
    assert SemicolonEnd(s, j).Some?;
    assert FindSemicolon(s, w).Some?;
    MatchAtFound(s, p, q, w);
  }

  /** A white-space run that ends at a non-space is skipped up to that character. */
  lemma {:induction false} SkipStopsAt(s: string, i: nat, q: nat)
    requires i <= q < |s| && !IsSpace(s[q])
    requires forall m :: i <= m < q ==> IsSpace(s[m])
    ensures SkipSpaces(s, i) == q
    decreases q - i
  {
    if i < q {
      SkipStopsAt(s, i + 1, q);
    }
  }

  /** Skipping white space stops at or before any later non-space. */
  lemma SkipStopsBefore(s: string, i: nat, j: nat)
    requires i <= j < |s| && !IsSpace(s[j])
    ensures SkipSpaces(s, i) <= j
  {
  }

  /** Skipping white space goes at least across a run of white space. */
  lemma {:induction false} SkipRunsOver(s: string, i: nat, t: nat)
    requires i <= t <= |s|
    requires forall m :: i <= m < t ==> IsSpace(s[m])
    ensures t <= SkipSpaces(s, i)
    decreases t - i
  {
    if i < t {
      SkipRunsOver(s, i + 1, t);
    }
  }

  /** The keyword after the leading white space, white space after it, and a `;` found: the expression matches. */
  lemma MatchAtFound(s: string, p: nat, q: nat, w: nat)
    requires p <= |s| && AtLineStart(s, p) && SkipSpaces(s, p) == q
    requires q + |Keyword| <= |s| && s[q..q + |Keyword|] == Keyword
    requires w == SkipSpaces(s, q + |Keyword|) && w != q + |Keyword|
    requires FindSemicolon(s, w).Some?
    ensures MatchAt(s, p).Some?
  {
  }

  /**
   * `s[p..t]`, with its `;` at `j`, is the import-shaped span the expression
   * takes: no other such span from `p` that ends at a line end has an earlier
   * `;` (the lazy `[\s\S]*?`), or the same `;` and a later end (the greedy `\s*`).
   */
  ghost predicate IsFirstSpan(s: string, p: nat, q: nat, j: nat, t: nat) {
    IsImportSpan(s, p, q, j, t)
    && forall q': nat, j': nat, t': nat :: IsImportSpan(s, p, q', j', t') && AtLineEnd(s, t') ==> j <= j' && (j' == j ==> t' <= t)
  }

  /** A match ends at the first `;` followed by white space up to a line end, and at the last such line end. */
  lemma MatchEndsAtFirstSemicolon(s: string, p: nat)
    requires p <= |s| && MatchAt(s, p).Some?
    ensures exists q: nat, j: nat :: IsFirstSpan(s, p, q, j, MatchAt(s, p).value)
  {
    var t := MatchAt(s, p).value;
    var q := SkipSpaces(s, p);
    var j := FindSemicolon(s, SkipSpaces(s, q + |Keyword|)).value;
    assert SemicolonEnd(s, j) == Some(t);
    assert IsImportSpan(s, p, q, j, t);
    EarliestSpan(s, p, q, j, t);
  }

  /** The span the scan finds has the earliest `;` of all spans, and the latest end for that `;`. */
  lemma EarliestSpan(s: string, p: nat, q: nat, j: nat, t: nat)
    requires IsImportSpan(s, p, q, j, t) && SkipSpaces(s, p) == q
    requires FindSemicolon(s, SkipSpaces(s, q + |Keyword|)) == Some(j)
    requires SemicolonEnd(s, j) == Some(t)
    ensures IsFirstSpan(s, p, q, j, t)
  {
    assert LastLineEnd(s, j + 1, SkipSpaces(s, j + 1)) == Some(t);
    forall q': nat, j': nat, t': nat | IsImportSpan(s, p, q', j', t') && AtLineEnd(s, t')
      ensures j <= j' && (j' == j ==> t' <= t)
    {
      SpanWithinScan(s, p, q', j', t');
    }
  }

  /** The steps of the expression's scan pass over every import-shaped span that ends at a line end. */
  lemma SpanWithinScan(s: string, p: nat, q: nat, j: nat, t: nat)
    requires IsImportSpan(s, p, q, j, t) && AtLineEnd(s, t)
    ensures SkipSpaces(s, p) == q && SkipSpaces(s, q + |Keyword|) <= j
    ensures SemicolonEnd(s, j).Some? && t <= SkipSpaces(s, j + 1)
  {
    assert s[q] == s[q..q + |Keyword|][0] == 'i';
    SkipStopsAt(s, p, q);
    SkipStopsBefore(s, q + |Keyword|, j);
    SkipRunsOver(s, j + 1, t);
  }

  /** The expression matches at `p` exactly when an import statement begins at a line start there and ends at a line end. */
  lemma ImportMatchIff(s: string, p: nat)
    requires p <= |s|
    ensures MatchAt(s, p).Some? <==>
      AtLineStart(s, p) && exists q, j, t :: IsImportSpan(s, p, q, j, t) && AtLineEnd(s, t)
  {
    if MatchAt(s, p).Some? {
      ImportMatchShape(s, p);
      var q, j :| IsImportSpan(s, p, q, j, MatchAt(s, p).value);
    }
    if AtLineStart(s, p) && exists q, j, t :: IsImportSpan(s, p, q, j, t) && AtLineEnd(s, t) {
      var q, j, t :| IsImportSpan(s, p, q, j, t) && AtLineEnd(s, t);
      ImportSpanIsMatched(s, p, q, j, t);
    }
  }

  /** The result of the expression at every start position `0..|s|`. */
  ghost function Matches(s: string): (ms: seq<Option<nat>>)
    ensures |ms| == |s| + 1 && forall k :: 0 <= k <= |s| ==> ms[k] == MatchAt(s, k)
  {
    seq(|s| + 1, k requires 0 <= k <= |s| => MatchAt(s, k))
  }

  /**
   * `spans` are the matches a global replace takes from scan position `p`
   * on, given the result `ms[k]` of the expression at each start `k`, as
   * `(start, end)` pairs: each is the first position at or after the
   * previous end where the expression matches, and after the last one it
   * matches nowhere.
   */
  ghost predicate IsScan(ms: seq<Option<nat>>, p: nat, spans: seq<(nat, nat)>)
    decreases |spans|
  {
    p < |ms|
    && if spans == [] then forall k :: p <= k < |ms| ==> ms[k].None?
       else
         p <= spans[0].0 < spans[0].1 < |ms|
         && (forall k :: p <= k < spans[0].0 ==> ms[k].None?)
         && ms[spans[0].0] == Some(spans[0].1)
         && IsScan(ms, spans[0].1, spans[1..])
  }

  /** The text between the matches: before the first, between neighbours, and after the last. */
  ghost function Gaps(s: string, ms: seq<Option<nat>>, p: nat, spans: seq<(nat, nat)>): string
    requires |ms| == |s| + 1 && IsScan(ms, p, spans)
    decreases |spans|
  {
    if spans == [] then s[p..] else s[p..spans[0].0] + Gaps(s, ms, spans[0].1, spans[1..])
  }

  /** The scan takes one sequence of matches only. */
  lemma {:induction false} ScanUnique(ms: seq<Option<nat>>, p: nat, a: seq<(nat, nat)>, b: seq<(nat, nat)>)
    requires IsScan(ms, p, a) && IsScan(ms, p, b)
    ensures a == b
    decreases |a|
  {
    assert a != [] ==> ms[a[0].0] == Some(a[0].1);
    assert b != [] ==> ms[b[0].0] == Some(b[0].1);
    if a != [] && b != [] {
      ScanUnique(ms, a[0].1, a[1..], b[1..]);
      assert a == [a[0]] + a[1..] && b == [b[0]] + b[1..];
    }
  }

  /** Where a match starts, the gaps begin after it. */
  lemma GapsAfterMatch(s: string, ms: seq<Option<nat>>, p: nat, t: nat, rest: seq<(nat, nat)>)
    requires |ms| == |s| + 1 && p < t < |ms| && ms[p] == Some(t) && IsScan(ms, t, rest)
    ensures IsScan(ms, p, [(p, t)] + rest)
    ensures Gaps(s, ms, p, [(p, t)] + rest) == Gaps(s, ms, t, rest)
  {
    var spans := [(p, t)] + rest;
    assert spans[0] == (p, t) && spans[1..] == rest;
    assert s[p..p] == [];
  }

  /** Where no match starts, the character begins the first gap. */
  lemma GapsAfterCopy(s: string, ms: seq<Option<nat>>, p: nat, spans: seq<(nat, nat)>)
    requires |ms| == |s| + 1 && p < |s| && ms[p].None? && IsScan(ms, p + 1, spans)
    ensures IsScan(ms, p, spans)
    ensures Gaps(s, ms, p, spans) == [s[p]] + Gaps(s, ms, p + 1, spans)
  {
    if spans == [] {
      assert s[p..] == [s[p]] + s[p + 1..];
    } else {
      var a := spans[0].0;
      var g := Gaps(s, ms, spans[0].1, spans[1..]);
      assert s[p..a] == [s[p]] + s[p + 1..a];
      assert ([s[p]] + s[p + 1..a]) + g == [s[p]] + (s[p + 1..a] + g);
    }
  }

  /** The matches the replace takes from `p` on, and that what it keeps is the text between them. */
  lemma {:induction false} RemoveImportsScan(s: string, p: nat) returns (spans: seq<(nat, nat)>)
    requires p <= |s|
    ensures IsScan(Matches(s), p, spans) && RemoveImportsFrom(s, p) == Gaps(s, Matches(s), p, spans)
    decreases |s| - p
  {
    var ms := Matches(s);
    if p == |s| {
      spans := [];
    } else if ms[p].Some? {
      var t := ms[p].value;
      var rest := RemoveImportsScan(s, t);
      RemovalAtMatch(s, p);
      GapsAfterMatch(s, ms, p, t, rest);
      spans := [(p, t)] + rest;
    } else {
      spans := RemoveImportsScan(s, p + 1);
      RemovalElsewhere(s, p);
      GapsAfterCopy(s, ms, p, spans);
    }
  }

  /** A match at the scan position is removed and the scan resumes after it. */
  lemma RemovalAtMatch(s: string, p: nat)
    requires p < |s| && MatchAt(s, p).Some?
    ensures RemoveImportsFrom(s, p) == RemoveImportsFrom(s, MatchAt(s, p).value)
  {
  }

  /** Without a match at the scan position, its character is kept. */
  lemma RemovalElsewhere(s: string, p: nat)
    requires p < |s| && MatchAt(s, p).None?
    ensures RemoveImportsFrom(s, p) == [s[p]] + RemoveImportsFrom(s, p + 1)
  {
  }

  /**
   * The global replace removes exactly the matches that a left-to-right
   * scan takes, and keeps all the text between them, in order.
   */
  lemma RemoveImportsCharacterized(s: string)
    ensures exists spans :: IsScan(Matches(s), 0, spans) && RemoveImportsFrom(s, 0) == Gaps(s, Matches(s), 0, spans)
  {
    var spans := RemoveImportsScan(s, 0);
  }

  /** Wherever the expression never matches, the replace copies the text. */
  lemma {:induction false} RemoveImportsWithoutMatch(s: string, p: nat)
    requires p <= |s|
    requires forall k :: p <= k <= |s| ==> MatchAt(s, k).None?
    ensures RemoveImportsFrom(s, p) == s[p..]
    decreases |s| - p
  {
    if p < |s| {
      RemoveImportsWithoutMatch(s, p + 1);
      assert s[p..] == [s[p]] + s[p + 1..];
    }
  }

  /** Text in which no import statement matches is only trimmed. */
  lemma StripWithoutMatchOnlyTrims(content: string)
    requires forall k :: 0 <= k <= |content| ==> MatchAt(content, k).None?
    ensures StripImports(content) == Trim(content)
  {
    RemoveImportsWithoutMatch(content, 0);
    assert content[0..] == content;
  }

  lemma {:induction false} SubsequenceOfLonger(a: string, c: string, b: string)
    requires IsSubsequence(a, b)
    ensures IsSubsequence(a, c + b)
    decreases |c|
  {
    if c != [] {
      SubsequenceOfLonger(a, c[1..], b);
      assert (c + b)[1..] == c[1..] + b;
    } else {
      assert c + b == b;
    }
  }

  /** A match at `p` removes `s[p..t]`, so what is kept from `t` on is kept from `p` on. */
  lemma SkipKeepsOrder(s: string, p: nat, t: nat)
    requires p < t <= |s| && MatchAt(s, p) == Some(t)
    requires IsSubsequence(RemoveImportsFrom(s, t), s[t..])
    ensures IsSubsequence(RemoveImportsFrom(s, p), s[p..])
  {
    RemovalAtMatch(s, p);
    SubsequenceOfSuffix(s, p, t, RemoveImportsFrom(s, t));
  }

  lemma SubsequenceOfSuffix(s: string, p: nat, t: nat, kept: string)
    requires p <= t <= |s| && IsSubsequence(kept, s[t..])
    ensures IsSubsequence(kept, s[p..])
  {
    SubsequenceOfLonger(kept, s[p..t], s[t..]);
    assert s[p..t] + s[t..] == s[p..];
  }

  /** Without a match at `p`, `s[p]` is copied in front of what is kept from `p + 1` on. */
  lemma CopyKeepsOrder(s: string, p: nat)
    requires p < |s| && MatchAt(s, p).None?
    requires IsSubsequence(RemoveImportsFrom(s, p + 1), s[p + 1..])
    ensures IsSubsequence(RemoveImportsFrom(s, p), s[p..])
  {
    RemovalElsewhere(s, p);
    SubsequenceAfterCopy(s, p, RemoveImportsFrom(s, p + 1));
  }

  lemma SubsequenceAfterCopy(s: string, p: nat, kept: string)
    requires p < |s| && IsSubsequence(kept, s[p + 1..])
    ensures IsSubsequence([s[p]] + kept, s[p..])
  {
    assert ([s[p]] + kept)[1..] == kept && s[p..][1..] == s[p + 1..];
  }

  /** The text that is kept keeps its order: the removal only deletes characters. */
  lemma {:induction false} RemoveImportsKeepsOrder(s: string, p: nat)
    requires p <= |s|
    ensures IsSubsequence(RemoveImportsFrom(s, p), s[p..])
    decreases |s| - p
  {
    if p < |s| {
      var next := KeepsOrderStep(s, p);
      RemoveImportsKeepsOrder(s, next);
    }
  }

  /** Where the scan goes on from `p`, and that keeping order from there keeps it from `p`. */
  lemma KeepsOrderStep(s: string, p: nat) returns (next: nat)
    requires p < |s|
    ensures p < next <= |s|
    ensures IsSubsequence(RemoveImportsFrom(s, next), s[next..]) ==> IsSubsequence(RemoveImportsFrom(s, p), s[p..])
  {
    match MatchAt(s, p)
    case Some(t) =>
      next := t;
      if IsSubsequence(RemoveImportsFrom(s, t), s[t..]) {
        SkipKeepsOrder(s, p, t);
      }
    case None =>
      next := p + 1;
      if IsSubsequence(RemoveImportsFrom(s, p + 1), s[p + 1..]) {
        CopyKeepsOrder(s, p);
      }
  }

  // One file that imports another and declares a contract.
  const SampleBody: string := "contract A {}"
  const Sample: string := "import \"./X.sol\";" + "\n" + SampleBody

  lemma SampleFirstMatch()
    ensures MatchAt(Sample, 0) == Some(17)
  {
    var s := Sample;
    assert s[0..6] == Keyword;
    assert SkipSpaces(s, 0) == 0;
    assert SkipSpaces(s, 6) == 7;
    assert SkipSpaces(s, 17) == 18;
    assert SemicolonEnd(s, 16) == Some(17);
    forall k | 7 <= k < 16 ensures SemicolonEnd(s, k).None? { }
  }

  lemma SampleNoFurtherMatch()
    ensures forall k :: 17 <= k <= |Sample| ==> MatchAt(Sample, k).None?
  {
    var s := Sample;
    forall k | 17 <= k <= |s| ensures MatchAt(s, k).None? {
      if k == 18 {
        assert s[18] == 'c';
        assert s[18..24][0] == 'c';
      } else {
        assert !AtLineStart(s, k);
      }
    }
  }

  lemma SampleBodyTrimmed()
    ensures Trim("\n" + SampleBody) == SampleBody
  {
    assert SampleBody[0] == 'c' && SampleBody[|SampleBody| - 1] == '}';
    TrimAfterLineBreak(SampleBody);
  }

  /** The import line is removed and the declaration that follows it is kept. */
  lemma SampleStripped()
    ensures StripImports(Sample) == SampleBody
  {
    SampleFirstMatch();
    SampleNoFurtherMatch();
    RemoveImportsWithoutMatch(Sample, 17);
    assert Sample[17..] == "\n" + SampleBody;
    SampleBodyTrimmed();
  }
}
