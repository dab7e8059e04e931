/**
 * The regular expressions `parseCurl` runs over the normalised transcript,
 * each written out as the match JavaScript's backtracking matcher finds at a
 * given position, together with the leftmost search of `String.prototype.match`
 * and the `lastIndex`-driven loop of a global `RegExp.prototype.exec`.
 *
 * For every pattern, a ghost predicate states when a split of the text at `i`
 * belongs to the pattern's language; the matcher is proved to succeed exactly
 * when such a split exists and to return the capture that split determines.
 */
module Patterns {
  import opened Options
  import opened JsText

  /** The three shapes of pattern in `parseCurl`. */
  datatype Pattern =
      // flag\s+\^?"([^"]+)"  (lines 36, 48 and 68)
    | QuotedArg(flag: string)
      // -X\s+(\w+) with the `i` flag  (line 42)
    | MethodFlag
      // (?:--data-raw|--data|-d)\s+\^?"(.+)"$ without the `m` flag  (line 79)
    | DataFlag

  const CurlUrl: Pattern := QuotedArg("curl")
  const HeaderArg: Pattern := QuotedArg("-H")
  const CookieArg: Pattern := QuotedArg("-b")

  /** The alternatives of the data pattern, in the order the matcher tries them. */
  const DataFlags: seq<string> := ["--data-raw", "--data", "-d"]

  /** A match: where it starts, where it ends (exclusive), and capture group 1. */
  datatype Match = Match(start: nat, end: nat, capture: string)

  /** The first double quote at or after `from`, or `|s|`. */
  function NextQuote(s: string, from: nat): (q: nat)
    requires from <= |s|
    ensures from <= q <= |s|
    ensures forall x :: from <= x < q ==> s[x] != '"'
    ensures q == |s| || s[q] == '"'
    decreases |s| - from
  {
    if from < |s| && s[from] != '"' then NextQuote(s, from + 1) else from
  }

  /** The end of the maximal run of `\w` characters starting at `from`. */
  function SkipWord(s: string, from: nat): (e: nat)
    requires from <= |s|
    ensures from <= e <= |s|
    ensures forall x :: from <= x < e ==> IsWordChar(s[x])
    ensures e == |s| || !IsWordChar(s[e])
    decreases |s| - from
  {
    if from < |s| && IsWordChar(s[from]) then SkipWord(s, from + 1) else from
  }

  predicate HasPrefixAt(s: string, i: nat, flag: string) {
    i + |flag| <= |s| && s[i..i + |flag|] == flag
  }

  // ---------------------------------------------------------------------------
  // flag\s+\^?"([^"]+)"

  /**
   * `s[i..q+1]` splits as `flag`, white space `s[i+|flag|..j]` (at least one),
   * an optional caret `s[j..k]`, a quote at `k`, a non-empty quote-free
   * capture `s[k+1..q]` and a quote at `q`.
   */
  ghost predicate IsQuotedMatch(s: string, i: int, flag: string, j: int, k: int, q: int) {
    && 0 <= i && i + |flag| < j <= k && k + 1 < q < |s|
    && s[i..i + |flag|] == flag
    && (forall x :: i + |flag| <= x < j ==> IsSpace(s[x]))
    && (k == j || (k == j + 1 && s[j] == '^'))
    && s[k] == '"' && s[q] == '"'
    && (forall x :: k < x < q ==> s[x] != '"')
  }

  /** The walk the backtracking matcher ends up taking for `flag\s+\^?"([^"]+)"` at `i`. */
  function QuotedMatchAt(s: string, i: nat, flag: string): (r: Option<Match>)
    ensures r.Some? ==> r.value.start == i < r.value.end <= |s|
  {
    if HasPrefixAt(s, i, flag) then
      var j := SkipSpaces(s, i + |flag|);
      if j == i + |flag| || j == |s| then None
      else
        var k := if s[j] == '^' then j + 1 else j;
        if k < |s| && s[k] == '"' then
          var q := NextQuote(s, k + 1);
          if k + 1 < q < |s| then Some(Match(i, q + 1, s[k + 1..q])) else None
        else None
    else None
  }

  /**
   * The walk finds a match exactly when the text splits as the pattern
   * demands at `i`; the split is then unique, so it fixes the match and the capture.
   */
  lemma QuotedMatchAtIsTheSplit(s: string, i: nat, flag: string)
    ensures QuotedMatchAt(s, i, flag).Some? <==> exists j, k, q :: IsQuotedMatch(s, i, flag, j, k, q)
    ensures forall j, k, q :: IsQuotedMatch(s, i, flag, j, k, q) ==>
              QuotedMatchAt(s, i, flag) == Some(Match(i, q + 1, s[k + 1..q]))
  {
    if HasPrefixAt(s, i, flag) {
      var j := SkipSpaces(s, i + |flag|);
      forall j', k', q' | IsQuotedMatch(s, i, flag, j', k', q')
        ensures QuotedMatchAt(s, i, flag) == Some(Match(i, q' + 1, s[k' + 1..q']))
      {
        assert !IsSpace(s[j']) by {
          assert s[j'] == '^' || s[j'] == '"';
        }
        assert j == j';
        var k := if s[j] == '^' then j + 1 else j;
        assert k == k';
        assert NextQuote(s, k + 1) == q';
      }
      if QuotedMatchAt(s, i, flag).Some? {
        var k := if s[j] == '^' then j + 1 else j;
        var q := NextQuote(s, k + 1);
        assert IsQuotedMatch(s, i, flag, j, k, q);
      }
    }
  }

  // ---------------------------------------------------------------------------
  // -X\s+(\w+) with the `i` flag

  /**
   * `s[i..e]` splits as `-X` or `-x`, white space `s[i+2..j]` (at least one)
   * and the word `s[j..e]`; greedy `\w+` takes the whole run, so `s[e]` is not
   * a word character.
   */
  ghost predicate IsMethodMatch(s: string, i: int, j: int, e: int) {
    && 0 <= i && i + 2 < j < e <= |s|
    && s[i] == '-' && (s[i + 1] == 'X' || s[i + 1] == 'x')
    && (forall x :: i + 2 <= x < j ==> IsSpace(s[x]))
    && (forall x :: j <= x < e ==> IsWordChar(s[x]))
    && (e == |s| || !IsWordChar(s[e]))
  }

  /** The match of `-X\s+(\w+)` with the `i` flag at `i`: greedy white space, then the greedy word. */
  function MethodMatchAt(s: string, i: nat): (r: Option<Match>)
    ensures r.Some? ==> r.value.start == i < r.value.end <= |s|
  {
    if i + 2 <= |s| && s[i] == '-' && (s[i + 1] == 'X' || s[i + 1] == 'x') then
      var j := SkipSpaces(s, i + 2);
      var e := SkipWord(s, j);
      if j > i + 2 && e > j then Some(Match(i, e, s[j..e])) else None
    else None
  }

  /** The method matcher succeeds exactly on the unique split the pattern describes. */
  lemma MethodMatchAtIsTheSplit(s: string, i: nat)
    ensures MethodMatchAt(s, i).Some? <==> exists j, e :: IsMethodMatch(s, i, j, e)
    ensures forall j, e :: IsMethodMatch(s, i, j, e) ==> MethodMatchAt(s, i) == Some(Match(i, e, s[j..e]))
  {
    if i + 2 <= |s| && s[i] == '-' && (s[i + 1] == 'X' || s[i + 1] == 'x') {
      var j := SkipSpaces(s, i + 2);
      var e := SkipWord(s, j);
      forall j', e' | IsMethodMatch(s, i, j', e') ensures j' == j && e' == e {
        assert !IsSpace(s[j']);
      }
      if j > i + 2 && e > j {
        assert IsMethodMatch(s, i, j, e);
      }
    }
  }

  // ---------------------------------------------------------------------------
  // (?:--data-raw|--data|-d)\s+\^?"(.+)"$

  /**
   * `s[i..]` splits as one of the data flags, white space `s[i+|flag|..j]` (at
   * least one), an optional caret `s[j..k]`, a quote at `k`, a non-empty
   * capture `s[k+1..|s|-1]` free of line terminators, and a final quote that
   * is the last character of the whole text.
   */
  ghost predicate IsDataMatch(s: string, i: int, flag: string, j: int, k: int) {
    && flag in DataFlags
    && 0 <= i && i + |flag| < j <= k && k + 2 < |s|
    && s[i..i + |flag|] == flag
    && (forall x :: i + |flag| <= x < j ==> IsSpace(s[x]))
    && (k == j || (k == j + 1 && s[j] == '^'))
    && s[k] == '"' && s[|s| - 1] == '"'
    && (forall x :: k < x < |s| - 1 ==> !IsLineTerminator(s[x]))
  }

  /** The match of one alternative of the data pattern at `i`. */
  function DataAlternativeAt(s: string, i: nat, flag: string): Option<Match> {
    if HasPrefixAt(s, i, flag) then
      var j := SkipSpaces(s, i + |flag|);
      if j == i + |flag| || j == |s| then None
      else
        var k := if s[j] == '^' then j + 1 else j;
        if k + 2 < |s| && s[k] == '"' && s[|s| - 1] == '"' && (forall x :: k < x < |s| - 1 ==> !IsLineTerminator(s[x]))
        then Some(Match(i, |s|, s[k + 1..|s| - 1]))
        else None
    else None
  }

  lemma DataAlternativeIsTheSplit(s: string, i: nat, flag: string)
    requires flag in DataFlags
    ensures DataAlternativeAt(s, i, flag).Some? ==> exists j, k :: IsDataMatch(s, i, flag, j, k)
    ensures forall j, k :: IsDataMatch(s, i, flag, j, k) ==>
              DataAlternativeAt(s, i, flag) == Some(Match(i, |s|, s[k + 1..|s| - 1]))
  {
    if HasPrefixAt(s, i, flag) {
      var j := SkipSpaces(s, i + |flag|);
      forall j', k' | IsDataMatch(s, i, flag, j', k')
        ensures DataAlternativeAt(s, i, flag) == Some(Match(i, |s|, s[k' + 1..|s| - 1]))
      {
        assert !IsSpace(s[j']) by {
          assert s[j'] == '^' || s[j'] == '"';
        }
        assert j == j';
      }
      if DataAlternativeAt(s, i, flag).Some? {
        var k := if s[j] == '^' then j + 1 else j;
        assert IsDataMatch(s, i, flag, j, k);
      }
    }
  }

  /** Two different data flags never both match at the same position. */
  lemma DataAlternativesExclusive(s: string, i: nat, flag: string, j: int, k: int, other: string)
    requires IsDataMatch(s, i, flag, j, k)
    requires other in DataFlags && other != flag
    ensures DataAlternativeAt(s, i, other).None?
  {
    assert s[i + 1] == flag[1];
    if flag == "--data-raw" && other == "--data" {
      assert s[i + 6] == '-';
      assert SkipSpaces(s, i + 6) == i + 6;
    } else if flag == "--data" && other == "--data-raw" {
      assert IsSpace(s[i + 6]);
      PrefixMismatch(s, i, other, 6);
    } else {
      PrefixMismatch(s, i, other, 1);
    }
  }

  /** A text whose character at `i + x` differs from `t[x]` has no `t` at `i`. */
  lemma PrefixMismatch(s: string, i: nat, t: string, x: nat)
    requires x < |t| && i + x < |s| && s[i + x] != t[x]
    ensures !HasPrefixAt(s, i, t)
  {
    if i + |t| <= |s| {
      assert s[i..i + |t|][x] == s[i + x];
    }
  }

  /** The data pattern at `i`: its alternatives tried in order. */
  function DataMatchAt(s: string, i: nat): (r: Option<Match>)
    ensures r.Some? ==> r.value.start == i < r.value.end <= |s|
  {
    match DataAlternativeAt(s, i, DataFlags[0])
    case Some(m) => Some(m)
    case None =>
      match DataAlternativeAt(s, i, DataFlags[1])
      case Some(m) => Some(m)
      case None => DataAlternativeAt(s, i, DataFlags[2])
  }

  /**
   * The data matcher succeeds exactly when some flag splits the rest of the
   * text as the pattern demands; whichever flag it is, the capture is the same.
   */
  lemma DataMatchAtIsTheSplit(s: string, i: nat)
    ensures DataMatchAt(s, i).Some? <==> exists flag, j, k :: IsDataMatch(s, i, flag, j, k)
    ensures forall flag, j, k :: IsDataMatch(s, i, flag, j, k) ==> DataMatchAt(s, i) == Some(Match(i, |s|, s[k + 1..|s| - 1]))
  {
    DataAlternativeIsTheSplit(s, i, DataFlags[0]);
    DataAlternativeIsTheSplit(s, i, DataFlags[1]);
    DataAlternativeIsTheSplit(s, i, DataFlags[2]);
    assert forall flag, j, k | IsDataMatch(s, i, flag, j, k) ::
        flag == DataFlags[0] || flag == DataFlags[1] || flag == DataFlags[2];
    forall flag, j, k, other | IsDataMatch(s, i, flag, j, k) && other in DataFlags && other != flag
      ensures DataAlternativeAt(s, i, other).None?
    {
      DataAlternativesExclusive(s, i, flag, j, k, other);
    }
  }

  // ---------------------------------------------------------------------------
  // Searching

  /** The match of pattern `p` starting exactly at `i`, if any. */
  function MatchAt(p: Pattern, s: string, i: nat): (r: Option<Match>)
    ensures r.Some? ==> r.value.start == i < r.value.end <= |s|
  {
    match p
    case QuotedArg(flag) => QuotedMatchAt(s, i, flag)
    case MethodFlag => MethodMatchAt(s, i)
    case DataFlag => DataMatchAt(s, i)
  }

  ghost predicate NoMatchIn(p: Pattern, s: string, lo: int, hi: int) {
    forall i: nat :: lo <= i < hi ==> MatchAt(p, s, i).None?
  }

  /**
   * `s.match(re)` for a non-global `re`, starting at `from`: the match at the
   * smallest position where there is one.
   */
  function Search(p: Pattern, s: string, from: nat): (r: Option<Match>)
    ensures r.Some? ==> from <= r.value.start && MatchAt(p, s, r.value.start) == r
    ensures NoMatchIn(p, s, from, if r.Some? then r.value.start else |s| + 1)
    ensures r.None? ==> forall i: nat :: from <= i ==> MatchAt(p, s, i).None?
    decreases |s| - from
  {
    if from >= |s| then None
    else match MatchAt(p, s, from)
      case Some(m) => Some(m)
      case None => Search(p, s, from + 1)
  }

  /** Some position of `s` starts a match of `p`. */
  ghost predicate Matches(p: Pattern, s: string) {
    exists i: nat :: MatchAt(p, s, i).Some?
  }

  /**
   * `ms` is what a global `exec` loop visits from `from` on: each search
   * resumes at the end of the previous match (`lastIndex`), so the matches are
   * genuine, in order, non-overlapping, no match starts in a gap, and none
   * starts after the last.
   */
  ghost predicate ExecOrder(p: Pattern, s: string, from: nat, ms: seq<Match>) {
    && (forall n :: 0 <= n < |ms| ==> from <= ms[n].start && MatchAt(p, s, ms[n].start) == Some(ms[n]))
    && (|ms| > 0 ==> NoMatchIn(p, s, from, ms[0].start))
    && (forall n :: 0 <= n < |ms| - 1 ==> ms[n].end <= ms[n + 1].start && NoMatchIn(p, s, ms[n].end, ms[n + 1].start))
    && (forall i: nat :: (if |ms| == 0 then from else ms[|ms| - 1].end) <= i ==> MatchAt(p, s, i).None?)
  }

  /** The leftmost match from `from`, followed by the matches from its end, is again in exec order. */
  lemma ExecOrderCons(p: Pattern, s: string, from: nat, m: Match, rest: seq<Match>)
    requires Search(p, s, from) == Some(m)
    requires ExecOrder(p, s, m.end, rest)
    ensures ExecOrder(p, s, from, [m] + rest)
  {
    var ms := [m] + rest;
    assert from <= m.start < m.end;
    forall n | 0 <= n < |ms|
      ensures from <= ms[n].start && MatchAt(p, s, ms[n].start) == Some(ms[n])
    {
      if n > 0 {
        assert ms[n] == rest[n - 1];
      }
    }
    forall n | 0 <= n < |ms| - 1
      ensures ms[n].end <= ms[n + 1].start && NoMatchIn(p, s, ms[n].end, ms[n + 1].start)
    {
      assert ms[n + 1] == rest[n];
      if n > 0 {
        assert ms[n] == rest[n - 1];
      }
    }
    assert ms[|ms| - 1] == if |rest| == 0 then m else rest[|rest| - 1];
  }

  /** The matches of the loop `while ((m = re.exec(s)) !== null)` for a global `re`, from `from` on. */
  function AllMatches(p: Pattern, s: string, from: nat): (ms: seq<Match>)
    ensures ExecOrder(p, s, from, ms)
    decreases |s| - from
  {
    match Search(p, s, from)
    case None => []
    case Some(m) =>
      var rest := AllMatches(p, s, m.end);
      ExecOrderCons(p, s, from, m, rest);
      [m] + rest
  }
}
