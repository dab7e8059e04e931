/**
 * The JavaScript string primitives the transcript parser relies on: the
 * character classes of its regular expressions, `trim`, case mapping,
 * `indexOf`, `includes`, and the three rewrites applied to every captured
 * value (caret unescaping, trailing-caret stripping, `\"` unescaping).
 *
 * Strings are sequences of Unicode scalar values; JavaScript's are UTF-16
 * code units. Every pattern and marker below is in the Basic Multilingual
 * Plane, so the two views give the same results here.
 */
module JsText {

  /** The characters JavaScript's `.` refuses to match. */
  predicate IsLineTerminator(c: char) {
    c == '\n' || c == '\r' || c == '\U{2028}' || c == '\U{2029}'
  }

  /** JavaScript's `\s`, which is also the set `String.prototype.trim` removes. */
  predicate IsSpace(c: char) {
    || c == '\t' || c == '\n' || c == '\U{000B}' || c == '\U{000C}' || c == '\r' || c == ' '
    || c == '\U{00A0}' || c == '\U{1680}' || ('\U{2000}' <= c <= '\U{200A}')
    || c == '\U{2028}' || c == '\U{2029}' || c == '\U{202F}' || c == '\U{205F}'
    || c == '\U{3000}' || c == '\U{FEFF}'
  }

  /** JavaScript's `\w` without the `u` flag, with or without `i`: ASCII letters, digits, `_`. */
  predicate IsWordChar(c: char) {
    ('a' <= c <= 'z') || ('A' <= c <= 'Z') || ('0' <= c <= '9') || c == '_'
  }

  predicate IsAsciiUpper(c: char) { 'A' <= c <= 'Z' }

  predicate IsAsciiLower(c: char) { 'a' <= c <= 'z' }

  /** The ASCII alphabet, in order, in each case: letter `n` of one is letter `n` of the other. */
  const LowerLetters: string := "abcdefghijklmnopqrstuvwxyz"
  const UpperLetters: string := "ABCDEFGHIJKLMNOPQRSTUVWXYZ"

  function UpperChar(c: char): (r: char)
    ensures !IsAsciiLower(r)
    ensures IsWordChar(c) <==> IsWordChar(r)
    ensures !IsAsciiLower(c) ==> r == c
    ensures IsAsciiLower(c) ==> IsAsciiUpper(r)
  {
    if IsAsciiLower(c) then (c as int - 32) as char else c
  }

  function LowerChar(c: char): (r: char)
    ensures !IsAsciiUpper(r)
    ensures !IsAsciiUpper(c) ==> r == c
    ensures IsAsciiUpper(c) ==> IsAsciiLower(r)
  {
    if IsAsciiUpper(c) then (c as int + 32) as char else c
  }

  /** Case mapping pairs letter `n` of the lower-case alphabet with letter `n` of the upper-case one. */
  lemma CaseTable(n: nat)
    requires n < 26
    ensures UpperChar(LowerLetters[n]) == UpperLetters[n]
    ensures LowerChar(UpperLetters[n]) == LowerLetters[n]
  {
    LowerLetterAt(n);
    UpperLetterAt(n);
  }

  /** Letter `n` of the lower-case alphabet is `n` code points after `a`. */
  lemma LowerLetterAt(n: nat)
    requires n < 26
    ensures LowerLetters[n] as int == 'a' as int + n
  {
  }

  /** Letter `n` of the upper-case alphabet is `n` code points after `A`. */
  lemma UpperLetterAt(n: nat)
    requires n < 26
    ensures UpperLetters[n] as int == 'A' as int + n
  {
  }

  /** `toUpperCase` on ASCII; the parser only upper-cases `\w` runs, which are ASCII. */
  function Upper(s: string): (r: string)
    ensures |r| == |s|
    ensures forall i :: 0 <= i < |r| ==> !IsAsciiLower(r[i]) && (IsWordChar(s[i]) <==> IsWordChar(r[i]))
    ensures forall i :: 0 <= i < |s| && !IsAsciiLower(s[i]) ==> r[i] == s[i]
    ensures forall i :: 0 <= i < |s| && IsAsciiLower(s[i]) ==> IsAsciiUpper(r[i])
    ensures forall i, n :: 0 <= i < |s| && 0 <= n < 26 && s[i] == LowerLetters[n] ==> r[i] == UpperLetters[n]
  {
    forall n | 0 <= n < 26 {
      CaseTable(n);
    }
    seq(|s|, i requires 0 <= i < |s| => UpperChar(s[i]))
  }

  /** `toLowerCase` on ASCII letters. */
  function Lower(s: string): (r: string)
    ensures |r| == |s|
    ensures forall i :: 0 <= i < |r| ==> !IsAsciiUpper(r[i])
    ensures forall i :: 0 <= i < |s| && !IsAsciiUpper(s[i]) ==> r[i] == s[i]
    ensures forall i :: 0 <= i < |s| && IsAsciiUpper(s[i]) ==> IsAsciiLower(r[i])
    ensures forall i, n :: 0 <= i < |s| && 0 <= n < 26 && s[i] == UpperLetters[n] ==> r[i] == LowerLetters[n]
  {
    forall n | 0 <= n < 26 {
      CaseTable(n);
    }
    seq(|s|, i requires 0 <= i < |s| => LowerChar(s[i]))
  }

  /** Lower-casing forgets an upper-casing and vice versa: case mapping only moves letters between the two cases. */
  lemma CaseRoundTrip(s: string)
    ensures Lower(Upper(s)) == Lower(s)
    ensures Upper(Lower(s)) == Upper(s)
  {
    assert forall i :: 0 <= i < |s| ==> Lower(Upper(s))[i] == Lower(s)[i];
    assert forall i :: 0 <= i < |s| ==> Upper(Lower(s))[i] == Upper(s)[i];
  }

  predicate AllSpace(s: string) {
    forall i :: 0 <= i < |s| ==> IsSpace(s[i])
  }

  /** The end of the maximal run of `\s` characters starting at `from`. */
  function SkipSpaces(s: string, from: nat): (r: nat)
    requires from <= |s|
    ensures from <= r <= |s|
    ensures forall x :: from <= x < r ==> IsSpace(s[x])
    ensures r == |s| || !IsSpace(s[r])
    decreases |s| - from
  {
    if from < |s| && IsSpace(s[from]) then SkipSpaces(s, from + 1) else from
  }

  /** `SkipSpaces` from `from` stops at the first character after an all-space stretch that is not white space. */
  lemma {:induction false} SkipSpacesTo(s: string, from: nat, k: nat)
    requires from <= k <= |s|
    requires forall x :: from <= x < k ==> IsSpace(s[x])
    requires k == |s| || !IsSpace(s[k])
    ensures SkipSpaces(s, from) == k
    decreases k - from
  {
    if from < k {
      assert IsSpace(s[from]);
      SkipSpacesTo(s, from + 1, k);
    }
  }

  /** `String.prototype.trim`: the slice left after removing leading and trailing `\s`. */
  function Trim(s: string): (r: string)
    ensures exists i, j :: TrimmedSlice(s, i, j) && r == s[i..j]
    ensures r == [] || (!IsSpace(r[0]) && !IsSpace(r[|r| - 1]))
    ensures |r| <= |s|
  {
    var i := SkipSpaces(s, 0);
    var j := TrimEndIndex(s, i, |s|);
    s[i..j]
  }

  /** `s[i..j]` is what remains when `s[..i]` and `s[j..]` are all white space. */
  ghost predicate TrimmedSlice(s: string, i: int, j: int) {
    && 0 <= i <= j <= |s|
    && (forall x :: 0 <= x < i ==> IsSpace(s[x]))
    && (forall x :: j <= x < |s| ==> IsSpace(s[x]))
  }

  /** The smallest `j` in `[lo, hi]` such that `s[j..hi]` is all white space. */
  function TrimEndIndex(s: string, lo: nat, hi: nat): (j: nat)
    requires lo <= hi <= |s|
    ensures lo <= j <= hi
    ensures forall x :: j <= x < hi ==> IsSpace(s[x])
    ensures j == lo || !IsSpace(s[j - 1])
    decreases hi - lo
  {
    if lo < hi && IsSpace(s[hi - 1]) then TrimEndIndex(s, lo, hi - 1) else hi
  }

  /** Trimming a string that neither starts nor ends with white space changes nothing. */
  lemma TrimIdentity(s: string)
    requires s == [] || (!IsSpace(s[0]) && !IsSpace(s[|s| - 1]))
    ensures Trim(s) == s
  {
    var i := SkipSpaces(s, 0);
    if s != [] {
      assert i == 0;
      var j := TrimEndIndex(s, 0, |s|);
      assert j == |s|;
    }
  }

  /** Trimming one leading space off a string that is already trimmed gives the string back. */
  lemma TrimAfterSpace(s: string)
    requires s == [] || (!IsSpace(s[0]) && !IsSpace(s[|s| - 1]))
    ensures Trim(" " + s) == s
  {
    var t := " " + s;
    var i := SkipSpaces(t, 0);
    assert IsSpace(t[0]);
    var j := TrimEndIndex(t, i, |t|);
    assert t[1..] == s;
  }

  /** `String.prototype.indexOf` for a single character: -1 when absent. */
  function IndexOf(s: string, c: char): (r: int)
    ensures -1 <= r < |s|
    ensures r == -1 <==> c !in s
    ensures 0 <= r ==> s[r] == c && c !in s[..r]
  {
    if |s| == 0 then -1
    else if s[0] == c then 0
    else
      var k := IndexOf(s[1..], c);
      assert s == [s[0]] + s[1..];
      if k == -1 then -1
      else
        assert s[..k + 1] == [s[0]] + s[1..][..k];
        k + 1
  }

  /** The first occurrence is the one with no occurrence before it. */
  lemma IndexOfFirst(s: string, c: char, n: nat)
    requires n < |s| && s[n] == c && c !in s[..n]
    ensures IndexOf(s, c) == n
  {
    var r := IndexOf(s, c);
    assert c in s by {
      assert s[n] in s;
    }
    forall j | 0 <= j < n
      ensures s[j] != c
    {
      assert s[..n][j] == s[j];
    }
    forall j | 0 <= j < r
      ensures s[j] != c
    {
      assert s[..r][j] == s[j];
    }
  }

  /** `t` occurs in `s` at index `i`. */
  ghost predicate OccursAt(s: string, t: string, i: int) {
    0 <= i && i + |t| <= |s| && s[i..i + |t|] == t
  }

  /** `String.prototype.includes`. */
  function Includes(s: string, t: string): (r: bool)
    ensures r <==> exists i :: OccursAt(s, t, i)
  {
    if t <= s then
      assert OccursAt(s, t, 0);
      true
    else if |s| == 0 then
      false
    else
      var r := Includes(s[1..], t);
      assert forall i :: OccursAt(s[1..], t, i) <==> OccursAt(s, t, i + 1) by {
        forall i ensures OccursAt(s[1..], t, i) <==> OccursAt(s, t, i + 1) {
          if 0 <= i && i + 1 + |t| <= |s| {
            assert s[1..][i..i + |t|] == s[i + 1..i + 1 + |t|];
          }
        }
      }
      assert !OccursAt(s, t, 0);
      assert forall i :: OccursAt(s, t, i) ==> i >= 1 && OccursAt(s[1..], t, i - 1);
      r
  }

  predicate EndsWithCaret(s: string) {
    |s| > 0 && s[|s| - 1] == '^'
  }

  /** `s.replace(/\^+$/, '')`: removes the run of carets that ends the string. */
  function StripTrailingCarets(s: string): (r: string)
    ensures r <= s
    ensures !EndsWithCaret(r)
    ensures forall i :: |r| <= i < |s| ==> s[i] == '^'
    decreases |s|
  {
    if EndsWithCaret(s) then StripTrailingCarets(s[..|s| - 1]) else s
  }

  /** A closing caret after text that does not end in one is exactly what stripping removes. */
  lemma StripClosingCaret(s: string)
    requires !EndsWithCaret(s)
    ensures StripTrailingCarets(s + "^") == s
  {
  }

  /** Position `i` starts a match of `/\^(.)/`: a caret followed by a non-terminator. */
  predicate CaretEscapeAt(s: string, i: int) {
    0 <= i && i + 1 < |s| && s[i] == '^' && !IsLineTerminator(s[i + 1])
  }

  /**
   * `s.replace(/\^(.)/g, '$1')`: scanning left to right, each caret followed by
   * a character other than a line terminator is dropped and the character kept;
   * scanning resumes after that character. It only ever deletes.
   */
  function UnescapeCarets(s: string): (r: string)
    ensures |r| <= |s|
    ensures (forall i :: !CaretEscapeAt(s, i)) ==> r == s
    ensures (exists i :: CaretEscapeAt(s, i)) ==> |r| < |s|
    decreases |s|
  {
    if |s| == 0 then s
    else if CaretEscapeAt(s, 0) then [s[1]] + UnescapeCarets(s[2..])
    else
      assert forall i :: CaretEscapeAt(s[1..], i) <==> CaretEscapeAt(s, i + 1);
      assert forall i :: CaretEscapeAt(s, i) ==> i >= 1 && CaretEscapeAt(s[1..], i - 1);
      [s[0]] + UnescapeCarets(s[1..])
  }

  /**
   * The shell-side escaping that `UnescapeCarets` undoes: a caret is put before
   * every caret and every character of `special`.
   */
  function CaretEscape(s: string, special: set<char>): (r: string)
    ensures |r| >= |s|
  {
    if |s| == 0 then s
    else if s[0] == '^' || s[0] in special then ['^', s[0]] + CaretEscape(s[1..], special)
    else [s[0]] + CaretEscape(s[1..], special)
  }

  /** An escaped character comes back out of caret unescaping on its own. */
  lemma UnescapeEscapedChar(c: char, rest: string)
    requires !IsLineTerminator(c)
    ensures UnescapeCarets(['^', c] + rest) == [c] + UnescapeCarets(rest)
  {
    var e := ['^', c] + rest;
    assert CaretEscapeAt(e, 0) && e[2..] == rest;
  }

  /** A character other than a caret passes through caret unescaping unchanged. */
  lemma UnescapePlainChar(c: char, rest: string)
    requires c != '^'
    ensures UnescapeCarets([c] + rest) == [c] + UnescapeCarets(rest)
  {
    var e := [c] + rest;
    assert !CaretEscapeAt(e, 0) && e[1..] == rest;
  }

  /**
   * A set of characters a shell exporter may caret-escape: line breaks are
   * never escaped, they end the line instead.
   */
  predicate EscapableSet(special: set<char>) {
    forall c :: c in special ==> !IsLineTerminator(c)
  }

  /** Unescaping an escaped string yields its first character, then the unescaped rest. */
  lemma UnescapeEscapeStep(s: string, special: set<char>, tail: string)
    requires |s| > 0
    requires EscapableSet(special)
    ensures UnescapeCarets(CaretEscape(s, special) + tail) == [s[0]] + UnescapeCarets(CaretEscape(s[1..], special) + tail)
  {
    var rest := CaretEscape(s[1..], special) + tail;
    if s[0] == '^' || s[0] in special {
      assert CaretEscape(s, special) + tail == ['^', s[0]] + rest;
      UnescapeEscapedChar(s[0], rest);
    } else {
      assert CaretEscape(s, special) + tail == [s[0]] + rest;
      UnescapePlainChar(s[0], rest);
    }
  }

  /**
   * Caret unescaping recovers any string escaped for the shell, provided no
   * line terminator was escaped, whatever text follows it.
   */
  lemma {:induction false} UnescapeCaretEscape(s: string, special: set<char>, tail: string)
    requires EscapableSet(special)
    ensures UnescapeCarets(CaretEscape(s, special) + tail) == s + UnescapeCarets(tail)
    decreases |s|
  {
    if |s| == 0 {
      assert CaretEscape(s, special) + tail == tail;
    } else {
      UnescapeEscapeStep(s, special, tail);
      UnescapeCaretEscape(s[1..], special, tail);
      ConsAppend(s, UnescapeCarets(tail));
    }
  }

  /** Splitting off the head of a non-empty string commutes with appending. */
  lemma ConsAppend(s: string, t: string)
    requires |s| > 0
    ensures [s[0]] + (s[1..] + t) == s + t
  {
    assert s == [s[0]] + s[1..];
  }

  /** Concatenation regrouped around a left part `a`. */
  lemma Regroup(a: string, x: string, y: string, z: string)
    ensures a + x + y + z == a + (x + y + z)
  {
  }

  /** Dropping a prefix no longer than `a` from `a + t`. */
  lemma DropAppend(a: string, t: string, e: nat)
    requires e <= |a|
    ensures (a + t)[e..] == a[e..] + t
  {
  }

  /** Concatenation of five parts regrouped around a left part `a`. */
  lemma Regroup5(a: string, v: string, x: string, y: string, z: string)
    ensures a + v + x + y + z == a + (v + x + y + z)
  {
  }

  /** Concatenation of three parts regrouped to the left. */
  lemma Regroup3(x: string, y: string, z: string)
    ensures x + (y + z) == x + y + z
  {
  }

  /** Position `i` starts a match of `/\\"/`. */
  predicate EscapedQuoteAt(s: string, i: int) {
    0 <= i && i + 1 < |s| && s[i] == '\\' && s[i + 1] == '"'
  }

  /** `s.replace(/\\"/g, '"')`: every backslash-quote pair becomes a quote. */
  function UnescapeQuotes(s: string): (r: string)
    ensures |r| <= |s|
    ensures (forall i :: !EscapedQuoteAt(s, i)) ==> r == s
    ensures (exists i :: EscapedQuoteAt(s, i)) ==> |r| < |s|
    ensures |s| > 0 ==> |r| > 0 && (r[|r| - 1] == s[|s| - 1] || r[|r| - 1] == '"')
    decreases |s|
  {
    if |s| == 0 then s
    else if EscapedQuoteAt(s, 0) then ['"'] + UnescapeQuotes(s[2..])
    else
      assert forall i :: EscapedQuoteAt(s[1..], i) <==> EscapedQuoteAt(s, i + 1);
      assert forall i :: EscapedQuoteAt(s, i) ==> i >= 1 && EscapedQuoteAt(s[1..], i - 1);
      [s[0]] + UnescapeQuotes(s[1..])
  }

  /** The JSON-in-shell escaping that `UnescapeQuotes` undoes: every quote gets a backslash. */
  function EscapeQuotes(s: string): (r: string)
    ensures |r| >= |s|
    ensures |r| > 0 ==> r[0] != '"'
    ensures !EndsWithCaret(s) ==> !EndsWithCaret(r)
  {
    if |s| == 0 then s
    else if s[0] == '"' then ['\\', '"'] + EscapeQuotes(s[1..])
    else [s[0]] + EscapeQuotes(s[1..])
  }

  /** Quote unescaping recovers every string, including ones that already hold backslashes. */
  lemma {:induction false} UnescapeEscapeQuotes(s: string)
    ensures UnescapeQuotes(EscapeQuotes(s)) == s
  {
    UnescapeEscapeQuotesTail(s, "");
    assert EscapeQuotes(s) + "" == EscapeQuotes(s) && s + "" == s;
  }

  /**
   * The round trip with any text after it: unescaping an escaped string
   * followed by `t` gives the string back and unescapes `t` on its own,
   * unless a final backslash of the string would pair with a quote opening `t`.
   */
  lemma {:induction false} UnescapeEscapeQuotesTail(s: string, t: string)
    requires !(|s| > 0 && s[|s| - 1] == '\\' && |t| > 0 && t[0] == '"')
    ensures UnescapeQuotes(EscapeQuotes(s) + t) == s + UnescapeQuotes(t)
    decreases |s|
  {
    if |s| == 0 {
      assert EscapeQuotes(s) + t == t;
    } else {
      var rest := EscapeQuotes(s[1..]);
      UnescapeEscapeQuotesTail(s[1..], t);
      if s[0] == '"' {
        Regroup3(['\\', '"'], rest, t);
        UnescapeEscapedQuote(rest + t);
      } else {
        Regroup3([s[0]], rest, t);
        assert |s| > 1 ==> |rest| > 0 && rest[0] != '"';
        UnescapeOtherChar(s[0], rest + t);
      }
      ConsAppend(s, UnescapeQuotes(t));
    }
  }

  /** A backslash-quote pair at the front becomes one quote. */
  lemma UnescapeEscapedQuote(u: string)
    ensures UnescapeQuotes(['\\', '"'] + u) == "\"" + UnescapeQuotes(u)
  {
    var e := ['\\', '"'] + u;
    assert EscapedQuoteAt(e, 0);
    assert e[2..] == u;
  }

  /** Any other character at the front is kept. */
  lemma UnescapeOtherChar(c: char, u: string)
    requires !(c == '\\' && |u| > 0 && u[0] == '"')
    ensures UnescapeQuotes([c] + u) == [c] + UnescapeQuotes(u)
  {
    var e := [c] + u;
    assert !EscapedQuoteAt(e, 0);
    assert e[1..] == u;
  }

  /** A quote with no backslash before it is kept as it is. */
  lemma UnescapeBareQuote(t: string)
    ensures UnescapeQuotes("\"" + t) == "\"" + UnescapeQuotes(t)
  {
    var e := "\"" + t;
    assert !EscapedQuoteAt(e, 0);
    assert e[1..] == t;
  }
}
