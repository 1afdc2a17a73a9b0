/**
 * Text operations of the flattener: JavaScript's notion of white space and
 * `String.prototype.trim`, and global replacement of a literal pattern, which
 * scans left to right and takes non-overlapping occurrences.
 */
module Text {
  import opened Sequences

  /**
   * The characters of the regular-expression class `\s`, which are also the
   * ones `trim` removes: the ECMAScript white space (tab, vertical tab, form
   * feed, the byte order mark, every space separator) and line terminators.
   */
  predicate IsSpace(c: char) {
    c == '\t' || c == '\n' || c == '\U{000B}' || c == '\U{000C}' || c == '\r'
    || c == ' ' || c == '\U{00A0}' || c == '\U{1680}'
    || ('\U{2000}' <= c <= '\U{200A}')
    || c == '\U{2028}' || c == '\U{2029}' || c == '\U{202F}' || c == '\U{205F}'
    || c == '\U{3000}' || c == '\U{FEFF}'
  }

  /** The characters at which `^` and `$` of a multiline expression hold. */
  predicate IsLineTerminator(c: char) {
    c == '\n' || c == '\r' || c == '\U{2028}' || c == '\U{2029}'
  }

  ghost predicate AllSpace(s: string) {
    forall i {:trigger IsSpace(s[i])} :: 0 <= i < |s| ==> IsSpace(s[i])
  }

  /** `s.trimStart()`: the suffix of `s` left after its leading white space. */
  function TrimStart(s: string): (r: string)
    ensures |r| <= |s| && r == s[|s| - |r|..]
    ensures AllSpace(s[..|s| - |r|])
    ensures r == [] || !IsSpace(r[0])
  {
    if s != [] && IsSpace(s[0]) then
      var r := TrimStart(s[1..]);
      SpaceThenSuffix(s, r);
      r
    else s
  }

  /** A suffix of `s[1..]` behind white space is a suffix of `s` behind white space, when `s[0]` is white space. */
  lemma SpaceThenSuffix(s: string, r: string)
    requires s != [] && IsSpace(s[0])
    requires |r| <= |s| - 1 && r == s[1..][|s| - 1 - |r|..] && AllSpace(s[1..][..|s| - 1 - |r|])
    ensures r == s[|s| - |r|..] && AllSpace(s[..|s| - |r|])
  {
  }

  /** `s.trimEnd()`: the prefix of `s` left before its trailing white space. */
  function TrimEnd(s: string): (r: string)
    ensures |r| <= |s| && r == s[..|r|]
    ensures AllSpace(s[|r|..])
    ensures r == [] || !IsSpace(r[|r| - 1])
  {
    if s != [] && IsSpace(s[|s| - 1]) then
      var r := TrimEnd(s[..|s| - 1]);
      PrefixThenSpace(s, r);
      r
    else s
  }

  /** A prefix of `s[..|s| - 1]` before white space is a prefix of `s` before white space, when the last character is white space. */
  lemma PrefixThenSpace(s: string, r: string)
    requires s != [] && IsSpace(s[|s| - 1])
    requires |r| <= |s| - 1 && r == s[..|s| - 1][..|r|] && AllSpace(s[..|s| - 1][|r|..])
    ensures r == s[..|r|] && AllSpace(s[|r|..])
  {
    assert forall i :: 0 <= i < |s| - 1 - |r| ==> s[|r|..][i] == s[..|s| - 1][|r|..][i];
  }

  /** `s` is `r` with the white space `pre` before it and the white space `post` after it. */
  ghost predicate PaddedBy(s: string, r: string, pre: string, post: string) {
    s == pre + r + post && AllSpace(pre) && AllSpace(post)
  }

  /** `String.prototype.trim` */
  function Trim(s: string): string {
    TrimEnd(TrimStart(s))
  }

  /** The trimmed text has no white space at either end. */
  lemma TrimHasNoOuterSpace(s: string)
    ensures Trim(s) == [] || (!IsSpace(Trim(s)[0]) && !IsSpace(Trim(s)[|Trim(s)| - 1]))
  {
    var t := TrimStart(s);
    if Trim(s) != [] {
      assert Trim(s)[0] == t[0];
    }
  }

  /** The trimmed text is `s` with a white-space prefix and a white-space suffix cut off. */
  lemma TrimCutsOnlySpace(s: string)
    ensures exists pre, post :: PaddedBy(s, Trim(s), pre, post)
  {
    PaddedBetweenSpace(s, TrimStart(s), Trim(s));
  }

  /** A prefix `r` of a suffix `t` of `s`, with only white space cut off on either side. */
  lemma PaddedBetweenSpace(s: string, t: string, r: string)
    requires |t| <= |s| && t == s[|s| - |t|..] && AllSpace(s[..|s| - |t|])
    requires |r| <= |t| && r == t[..|r|] && AllSpace(t[|r|..])
    ensures exists pre, post :: PaddedBy(s, r, pre, post)
  {
    var pre, post := s[..|s| - |t|], t[|r|..];
    assert s == pre + t;
    assert t == r + post;
    assert PaddedBy(s, r, pre, post);
  }

  /** A line break in front of text that neither begins nor ends with white space is all that trimming removes. */
  lemma TrimAfterLineBreak(b: string)
    requires b != [] && !IsSpace(b[0]) && !IsSpace(b[|b| - 1])
    ensures Trim("\n" + b) == b
  {
    var s := "\n" + b;
    assert s[1..] == b;
    assert TrimStart(b) == b;
  }

  /** Trimming leaves a prefix that is not white space alone as long as some non-space follows it. */
  lemma {:induction false} TrimEndKeepsPrefix(h: string, z: string, k: nat)
    requires k < |z| && !IsSpace(z[k])
    ensures TrimEnd(h + z) == h + TrimEnd(z)
    decreases |z|
  {
    if IsSpace(z[|z| - 1]) {
      assert (h + z)[..|h + z| - 1] == h + z[..|z| - 1];
      TrimEndKeepsPrefix(h, z[..|z| - 1], k);
    }
  }

  lemma TrimKeepsPrefix(h: string, z: string)
    requires h != [] && !IsSpace(h[0])
    requires z != [] && !IsSpace(z[0])
    ensures Trim(h + z) == h + TrimEnd(z)
  {
    assert (h + z)[0] == h[0];
    assert TrimStart(h + z) == h + z;
    TrimEndKeepsPrefix(h, z, 0);
  }

  /** Whether `pat` occurs in `s` at position `k`. */
  ghost predicate OccursAt(s: string, pat: string, k: nat) {
    k + |pat| <= |s| && s[k..k + |pat|] == pat
  }

  ghost predicate Contains(s: string, pat: string) {
    exists k: nat :: OccursAt(s, pat, k)
  }

  /**
   * No two occurrences of `pat` can overlap: no proper non-empty prefix of it
   * is also a suffix of it.
   */
  ghost predicate SelfOverlapFree(pat: string) {
    forall k :: 0 < k < |pat| ==> pat[k..] != pat[..|pat| - k]
  }

  /** A pattern whose last character occurs nowhere else in it cannot overlap itself. */
  lemma LastCharOnceNoOverlap(pat: string)
    requires pat != [] && pat[|pat| - 1] !in pat[..|pat| - 1]
    ensures SelfOverlapFree(pat)
  {
    forall k | 0 < k < |pat|
      ensures pat[k..] != pat[..|pat| - k]
    {
      assert pat[k..][|pat| - k - 1] == pat[|pat| - 1];
      assert pat[..|pat| - k][|pat| - k - 1] == pat[..|pat| - 1][|pat| - k - 1];
    }
  }

  predicate StartsWith(s: string, pat: string) {
    |pat| <= |s| && s[..|pat|] == pat
  }

  /**
   * The pieces of `s` between the occurrences of `pat` that a global
   * replace finds: scanning from the left, an occurrence at the scan
   * position is taken whole and the scan resumes after it.
   */
  function Split(s: string, pat: string): (parts: seq<string>)
    requires pat != []
    ensures |parts| >= 1
    decreases |s|
  {
    if |s| < |pat| then [s]
    else if s[..|pat|] == pat then [""] + Split(s[|pat|..], pat)
    else
      var rest := Split(s[1..], pat);
      [[s[0]] + rest[0]] + rest[1..]
  }

  /** The pieces with `sep` between every two neighbours. */
  function Join(parts: seq<string>, sep: string): string
    requires |parts| >= 1
    decreases |parts|
  {
    if |parts| == 1 then parts[0] else parts[0] + sep + Join(parts[1..], sep)
  }

  /** `s.replace(/pat/g, rep)` for a pattern made of literal characters. */
  function ReplaceAll(s: string, pat: string, rep: string): string
    requires pat != []
  {
    Join(Split(s, pat), rep)
  }

  /**
   * `s.replace(/pat/g, ((i) => (m) => (!i++ ? m : ""))(0))`: the first
   * occurrence stays, every later one is deleted.
   */
  function KeepFirst(s: string, pat: string): string
    requires pat != []
  {
    var parts := Split(s, pat);
    if |parts| == 1 then s else parts[0] + pat + Join(parts[1..], "")
  }

  /** One step of a split where the pattern starts: an empty piece, then the split of the rest. */
  lemma SplitAtOccurrence(s: string, pat: string)
    requires pat != [] && StartsWith(s, pat)
    ensures Split(s, pat) == [""] + Split(s[|pat|..], pat)
  {
  }

  /** One step of a split elsewhere: the character joins the first piece of the split of the rest. */
  lemma SplitElsewhere(s: string, pat: string)
    requires pat != [] && s != [] && !StartsWith(s, pat)
    ensures Split(s, pat) == [[s[0]] + Split(s[1..], pat)[0]] + Split(s[1..], pat)[1..]
  {
    if |s| < |pat| {
      assert Split(s[1..], pat) == [s[1..]];
      assert s == [s[0]] + s[1..];
    }
  }

  lemma JoinFront(x: string, rest: seq<string>, sep: string)
    requires |rest| >= 1
    ensures Join([x] + rest, sep) == x + sep + Join(rest, sep)
  {
    assert ([x] + rest)[1..] == rest;
  }

  lemma JoinCons(c: char, rest: seq<string>, sep: string)
    requires |rest| >= 1
    ensures Join([[c] + rest[0]] + rest[1..], sep) == [c] + Join(rest, sep)
  {
    var parts := [[c] + rest[0]] + rest[1..];
    if |rest| > 1 {
      assert parts[1..] == rest[1..];
      assert Join(rest, sep) == rest[0] + sep + Join(rest[1..], sep);
    }
  }

  lemma {:induction false} JoinSnoc(parts: seq<string>, last: string, sep: string)
    requires |parts| >= 1
    ensures Join(parts + [last], sep) == Join(parts, sep) + sep + last
    decreases |parts|
  {
    if |parts| == 1 {
      assert (parts + [last])[1..] == [last];
    } else {
      assert (parts + [last])[1..] == parts[1..] + [last];
      JoinSnoc(parts[1..], last, sep);
    }
  }

  /** Where piece `i` begins in the joined text: every earlier piece and one separator each. */
  function JoinOffset(parts: seq<string>, sep: string, i: nat): nat
    requires i <= |parts|
  {
    if i == 0 then 0 else |parts[0]| + |sep| + JoinOffset(parts[1..], sep, i - 1)
  }

  /** A slice behind a prefix is the slice of what follows the prefix. */
  lemma SliceBehind(x: string, y: string, lo: nat, hi: nat)
    requires lo <= hi <= |y|
    ensures (x + y)[|x| + lo..|x| + hi] == y[lo..hi]
  {
  }

  /** Piece `i` of a join sits at its offset, and nothing of piece `i` reaches the next one. */
  lemma {:induction false} JoinAt(parts: seq<string>, sep: string, i: nat)
    requires i < |parts|
    ensures JoinOffset(parts, sep, i) + |parts[i]| <= |Join(parts, sep)|
    ensures Join(parts, sep)[JoinOffset(parts, sep, i)..JoinOffset(parts, sep, i) + |parts[i]|] == parts[i]
    ensures i + 1 < |parts| ==> JoinOffset(parts, sep, i) + |parts[i]| + |sep| == JoinOffset(parts, sep, i + 1)
    ensures i + 1 == |parts| ==> JoinOffset(parts, sep, i) + |parts[i]| == |Join(parts, sep)|
    decreases i
  {
    if i > 0 {
      JoinAt(parts[1..], sep, i - 1);
      var o := JoinOffset(parts[1..], sep, i - 1);
      assert parts[1..][i - 1] == parts[i];
      SliceBehind(parts[0] + sep, Join(parts[1..], sep), o, o + |parts[i]|);
    } else if |parts| > 1 {
      assert (parts[0] + (sep + Join(parts[1..], sep)))[..|parts[0]|] == parts[0];
    }
  }

  /** Between piece `i` and piece `i + 1` of a join stands the separator. */
  lemma {:induction false} JoinSeparatorAt(parts: seq<string>, sep: string, i: nat)
    requires i + 1 < |parts|
    ensures JoinOffset(parts, sep, i) + |parts[i]| + |sep| <= |Join(parts, sep)|
    ensures Join(parts, sep)[JoinOffset(parts, sep, i) + |parts[i]|..JoinOffset(parts, sep, i) + |parts[i]| + |sep|] == sep
    decreases i
  {
    var j := Join(parts[1..], sep);
    if i == 0 {
      SliceBehind(parts[0], sep + j, 0, |sep|);
      assert (sep + j)[0..|sep|] == sep;
    } else {
      JoinSeparatorAt(parts[1..], sep, i - 1);
      assert parts[1..][i - 1] == parts[i];
      var o := JoinOffset(parts[1..], sep, i - 1) + |parts[i]|;
      SliceBehind(parts[0] + sep, j, o, o + |sep|);
    }
  }

  /** Joining the pieces of a split with the pattern itself gives back the text. */
  lemma {:induction false} SplitJoin(s: string, pat: string)
    requires pat != []
    ensures Join(Split(s, pat), pat) == s
    decreases |s|
  {
    if s == [] {
    } else if StartsWith(s, pat) {
      SplitAtOccurrence(s, pat);
      SplitJoin(s[|pat|..], pat);
      JoinFront("", Split(s[|pat|..], pat), pat);
      assert s == s[..|pat|] + s[|pat|..];
    } else {
      SplitElsewhere(s, pat);
      SplitJoin(s[1..], pat);
      JoinCons(s[0], Split(s[1..], pat), pat);
      assert s == [s[0]] + s[1..];
    }
  }

  /** The first piece of a split is a prefix of the text. */
  lemma SplitHeadIsPrefix(s: string, pat: string)
    requires pat != []
    ensures |Split(s, pat)[0]| <= |s| && s[..|Split(s, pat)[0]|] == Split(s, pat)[0]
  {
    SplitJoin(s, pat);
    JoinHeadIsPrefix(Split(s, pat), pat);
  }

  /** The first piece of a join is a prefix of it. */
  lemma JoinHeadIsPrefix(parts: seq<string>, sep: string)
    requires |parts| >= 1
    ensures |parts[0]| <= |Join(parts, sep)| && Join(parts, sep)[..|parts[0]|] == parts[0]
  {
    if |parts| > 1 {
      var tail := Join(parts[1..], sep);
      assert Join(parts, sep) == parts[0] + (sep + tail);
    }
  }

  /** No piece of a split contains the pattern: every occurrence was taken. */
  lemma {:induction false} SplitPiecesFree(s: string, pat: string)
    requires pat != []
    ensures forall i :: 0 <= i < |Split(s, pat)| ==> !Contains(Split(s, pat)[i], pat)
    decreases |s|
  {
    var parts := Split(s, pat);
    if |s| < |pat| {
      assert parts == [s];
    } else if StartsWith(s, pat) {
      SplitAtOccurrence(s, pat);
      SplitPiecesFree(s[|pat|..], pat);
      var rest := Split(s[|pat|..], pat);
      forall i | 0 <= i < |parts| ensures !Contains(parts[i], pat) {
        if i > 0 { assert parts[i] == rest[i - 1]; }
      }
    } else {
      SplitElsewhere(s, pat);
      SplitPiecesFree(s[1..], pat);
      var rest := Split(s[1..], pat);
      SplitHeadIsPrefix(s[1..], pat);
      var head := [s[0]] + rest[0];
      forall k: nat ensures !OccursAt(head, pat, k) {
        if k > 0 && k + |pat| <= |head| {
          assert head[k..k + |pat|] == rest[0][k - 1..k - 1 + |pat|];
          assert !OccursAt(rest[0], pat, k - 1);
        }
      }
      forall i | 0 <= i < |parts| ensures !Contains(parts[i], pat) {
        if i > 0 { assert parts[i] == rest[i]; }
      }
    }
  }

  /** A split yields more than one piece exactly when the pattern occurs. */
  lemma SplitOnceIff(s: string, pat: string)
    requires pat != []
    ensures |Split(s, pat)| == 1 <==> !Contains(s, pat)
  {
    var parts := Split(s, pat);
    SplitJoin(s, pat);
    SplitPiecesFree(s, pat);
    if |parts| == 1 {
      assert !Contains(parts[0], pat);
    } else {
      JoinSeparatorAt(parts, pat, 0);
      assert OccursAt(s, pat, |parts[0]|);
    }
  }

  /** When no occurrence starts inside `h`, the split of `h + pat + z` has `h` as its first piece. */
  lemma {:induction false} SplitAfterFreeHead(h: string, z: string, pat: string)
    requires pat != []
    requires forall k :: 0 <= k < |h| ==> !StartsWith((h + pat + z)[k..], pat)
    ensures Split(h + pat + z, pat) == [h] + Split(z, pat)
    decreases |h|
  {
    var s := h + pat + z;
    if h == [] {
      assert s == pat + z;
      SplitAtOccurrence(s, pat);
      assert s[|pat|..] == z;
    } else {
      assert s[0..] == s;
      SplitElsewhere(s, pat);
      assert s[1..] == h[1..] + pat + z;
      forall k | 0 <= k < |h[1..]|
        ensures !StartsWith((h[1..] + pat + z)[k..], pat)
      {
        assert (h[1..] + pat + z)[k..] == s[k + 1..];
      }
      SplitAfterFreeHead(h[1..], z, pat);
      assert [h[0]] + h[1..] == h;
    }
  }

  /**
   * In `h + pat + z` with `h` free of a pattern that cannot overlap itself, no
   * occurrence starts inside `h`: it would lie within `h`, or overlap the
   * occurrence that follows `h`.
   */
  lemma NoEarlierOccurrence(h: string, z: string, pat: string)
    requires pat != [] && SelfOverlapFree(pat) && !Contains(h, pat)
    ensures forall k :: 0 <= k < |h| ==> !StartsWith((h + pat + z)[k..], pat)
  {
    var s := h + pat + z;
    forall k | 0 <= k < |h|
      ensures !StartsWith(s[k..], pat)
    {
      if k + |pat| <= |s| {
        assert s[k..][..|pat|] == s[k..k + |pat|];
        if k + |pat| <= |h| {
          assert !OccursAt(h, pat, k);
          assert s[k..k + |pat|] == h[k..k + |pat|];
        } else {
          var d := |h| - k;
          assert pat[d..] != pat[..|pat| - d];
          assert s[k..k + |pat|][d..] == s[|h|..k + |pat|] == pat[..|pat| - d];
        }
      }
    }
  }

  /**
   * For a pattern that cannot overlap itself, the split is the only way to
   * cut the text at occurrences of the pattern into pieces free of it.
   */
  lemma {:induction false} CutIsUnique(s: string, pat: string, parts: seq<string>)
    requires pat != [] && SelfOverlapFree(pat)
    requires |parts| >= 1 && Join(parts, pat) == s
    requires forall i :: 0 <= i < |parts| ==> !Contains(parts[i], pat)
    ensures parts == Split(s, pat)
    decreases |parts|
  {
    if |parts| == 1 {
      SplitOnceIff(s, pat);
      SplitJoin(s, pat);
    } else {
      var z := Join(parts[1..], pat);
      assert s == parts[0] + pat + z;
      NoEarlierOccurrence(parts[0], z, pat);
      SplitAfterFreeHead(parts[0], z, pat);
      CutIsUnique(z, pat, parts[1..]);
      assert parts == [parts[0]] + parts[1..];
    }
  }

  /**
   * A global replace cuts the text at occurrences of the pattern into pieces
   * that hold no occurrence, and puts the replacement where each occurrence was.
   */
  lemma ReplaceAllCharacterized(s: string, pat: string, rep: string)
    requires pat != []
    ensures exists parts: seq<string> ::
      |parts| >= 1 && Join(parts, pat) == s
      && (forall i :: 0 <= i < |parts| ==> !Contains(parts[i], pat))
      && ReplaceAll(s, pat, rep) == Join(parts, rep)
  {
    var parts := Split(s, pat);
    SplitJoin(s, pat);
    SplitPiecesFree(s, pat);
    assert ReplaceAll(s, pat, rep) == Join(parts, rep);
  }

  /**
   * Keep-first cuts the text the same way, keeps the first occurrence in
   * place and deletes every later one; the pieces between them stay as they are.
   */
  lemma KeepFirstCharacterized(s: string, pat: string)
    requires pat != []
    ensures exists parts: seq<string> ::
      |parts| >= 1 && Join(parts, pat) == s
      && (forall i :: 0 <= i < |parts| ==> !Contains(parts[i], pat))
      && (|parts| == 1 ==> KeepFirst(s, pat) == s)
      && (|parts| >= 2 ==> KeepFirst(s, pat) == parts[0] + pat + Join(parts[1..], ""))
  {
    var parts := Split(s, pat);
    SplitJoin(s, pat);
    SplitPiecesFree(s, pat);
    assert |parts| >= 2 ==> KeepFirst(s, pat) == parts[0] + pat + Join(parts[1..], "");
  }

  /** Text without the pattern goes through both rewrites unchanged. */
  lemma NoOccurrenceUnchanged(s: string, pat: string, rep: string)
    requires pat != []
    requires !Contains(s, pat)
    ensures ReplaceAll(s, pat, rep) == s
    ensures KeepFirst(s, pat) == s
  {
    SplitOnceIff(s, pat);
    SplitJoin(s, pat);
  }

  /** Replacing an occurrence at the scan position emits the replacement and skips the occurrence. */
  lemma ReplaceAllAtOccurrence(s: string, pat: string, rep: string)
    requires pat != [] && StartsWith(s, pat)
    ensures ReplaceAll(s, pat, rep) == rep + ReplaceAll(s[|pat|..], pat, rep)
  {
    SplitAtOccurrence(s, pat);
    JoinFront("", Split(s[|pat|..], pat), rep);
    assert "" + rep == rep;
  }

  /** Where no occurrence starts, the character is copied and the scan moves on by one. */
  lemma ReplaceAllElsewhere(s: string, pat: string, rep: string)
    requires pat != [] && s != [] && !StartsWith(s, pat)
    ensures ReplaceAll(s, pat, rep) == [s[0]] + ReplaceAll(s[1..], pat, rep)
  {
    SplitElsewhere(s, pat);
    JoinCons(s[0], Split(s[1..], pat), rep);
  }

  lemma KeepFirstAtOccurrence(s: string, pat: string)
    requires pat != [] && StartsWith(s, pat)
    ensures KeepFirst(s, pat) == pat + ReplaceAll(s[|pat|..], pat, "")
  {
    var rest := Split(s[|pat|..], pat);
    SplitAtOccurrence(s, pat);
    assert ([""] + rest)[1..] == rest;
    assert [] + pat == pat;
  }


  /** Keep-first on pieces whose first piece starts with `c`: `c`, then keep-first on the rest. */
  lemma KeepFirstOfCons(c: char, rest: seq<string>, pat: string)
    requires |rest| >= 2
    ensures var parts := [[c] + rest[0]] + rest[1..];
      parts[0] + pat + Join(parts[1..], "") == [c] + (rest[0] + pat + Join(rest[1..], ""))
  {
    var parts := [[c] + rest[0]] + rest[1..];
    assert parts[1..] == rest[1..];
  }

  lemma KeepFirstElsewhere(s: string, pat: string)
    requires pat != [] && s != [] && !StartsWith(s, pat)
    ensures KeepFirst(s, pat) == [s[0]] + KeepFirst(s[1..], pat)
  {
    var rest := Split(s[1..], pat);
    SplitElsewhere(s, pat);
    if |rest| == 1 {
      assert s == [s[0]] + s[1..];
    } else {
      KeepFirstOfCons(s[0], rest, pat);
    }
  }

  /** A prefix in which no occurrence can start passes through keep-first unchanged. */
  lemma {:induction false} KeepFirstAfterPrefix(h: string, y: string, pat: string)
    requires pat != [] && pat[0] !in h
    ensures KeepFirst(h + y, pat) == h + KeepFirst(y, pat)
    decreases |h|
  {
    if h != [] {
      NotStartsWith(h + y, pat);
      KeepFirstElsewhere(h + y, pat);
      assert (h + y)[1..] == h[1..] + y;
      KeepFirstAfterPrefix(h[1..], y, pat);
      HeadThenTail(h, KeepFirst(y, pat));
    } else {
      assert h + y == y;
    }
  }


  /** A text whose first character differs from the pattern's does not start with it. */
  lemma NotStartsWith(s: string, pat: string)
    requires s != [] && pat != [] && s[0] != pat[0]
    ensures !StartsWith(s, pat)
  {
    if |pat| <= |s| {
      assert s[..|pat|][0] == s[0];
    }
  }

  /** The length of `n` copies of a text of length `k`. */
  function Copies(n: nat, k: nat): nat {
    if n == 0 then 0 else k + Copies(n - 1, k)
  }

  /** Joining without separators saves one separator per pair of neighbours. */
  lemma {:induction false} JoinWithoutSeparators(parts: seq<string>, sep: string, n: nat)
    requires |parts| == n + 1
    ensures |Join(parts, sep)| == |Join(parts, "")| + Copies(n, |sep|)
    decreases n
  {
    if n > 0 {
      JoinWithoutSeparators(parts[1..], sep, n - 1);
    }
  }

  /** Keeping the first separator of a join and dropping the others shortens it by the dropped ones. */
  lemma KeepFirstOfPartsLength(parts: seq<string>, sep: string)
    requires |parts| >= 2
    ensures |parts[0] + sep + Join(parts[1..], "")| + Copies(|parts| - 2, |sep|) == |Join(parts, sep)|
  {
    JoinWithoutSeparators(parts[1..], sep, |parts| - 2);
    assert |Join(parts, sep)| == |parts[0]| + |sep| + |Join(parts[1..], sep)|;
  }


  /**
   * Keep-first deletes exactly the occurrences after the first: when the
   * scan takes `n` occurrences, the text shrinks by `n - 1` copies of it.
   */
  lemma KeepFirstLength(s: string, pat: string)
    requires pat != []
    ensures |Split(s, pat)| >= 2 ==> |KeepFirst(s, pat)| + Copies(|Split(s, pat)| - 2, |pat|) == |s|
  {
    var parts := Split(s, pat);
    if |parts| >= 2 {
      var kept := parts[0] + pat + Join(parts[1..], "");
      assert KeepFirst(s, pat) == kept;
      SplitJoin(s, pat);
      KeepFirstOfPartsLength(parts, pat);
    }
  }


  /** Dropping the later separators of a join changes it exactly when there are at least two of them. */
  lemma KeepFirstOfPartsUnchangedIff(parts: seq<string>, sep: string)
    requires |parts| >= 2 && sep != []
    ensures parts[0] + sep + Join(parts[1..], "") == Join(parts, sep) <==> |parts| == 2
  {
    if |parts| == 2 {
      assert parts[1..] == [parts[1]];
    } else {
      KeepFirstOfPartsLength(parts, sep);
      assert Copies(|parts| - 2, |sep|) >= |sep|;
    }
  }

  /** Keep-first changes the text exactly when the scan takes at least two occurrences. */
  lemma KeepFirstUnchangedIff(s: string, pat: string)
    requires pat != []
    ensures KeepFirst(s, pat) == s <==> |Split(s, pat)| <= 2
  {
    var parts := Split(s, pat);
    SplitJoin(s, pat);
    if |parts| >= 2 {
      KeepFirstOfPartsUnchangedIff(parts, pat);
    }
  }
}
