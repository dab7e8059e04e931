/**
 * The two rewrites `parseCurl` applies before extracting anything
 * (curl-grabber.js lines 24 and 26): caret line continuations are joined into
 * one line, then any caret still followed by white space becomes a space.
 */
module Continuations {
  import opened JsText

  // A match of the line-24 pattern `/\^\r?\n\s*/` starts at `i`.
  predicate ContinuationAt(s: string, i: int) {
    && 0 <= i && i + 1 < |s| && s[i] == '^'
    && (s[i + 1] == '\n' || (s[i + 1] == '\r' && i + 2 < |s| && s[i + 2] == '\n'))
  }

  /** Where that match ends: after the line break and all white space following it. */
  function ContinuationEnd(s: string, i: nat): (e: nat)
    requires ContinuationAt(s, i)
    ensures i + 2 <= e <= |s|
    ensures forall x :: i + 1 <= x < e ==> IsSpace(s[x])
    ensures e == |s| || !IsSpace(s[e])
  {
    var afterBreak := if s[i + 1] == '\n' then i + 2 else i + 3;
    SkipSpaces(s, afterBreak)
  }

  /** The last character of `r`, unless it is a space some match produced, was the last character of `s`. */
  ghost predicate KeepsLastChar(s: string, r: string) {
    |r| > 0 && r[|r| - 1] != ' ' ==> |s| > 0 && s[|s| - 1] == r[|r| - 1]
  }

  // `s.replace(/\^\r?\n\s*/g, ' ')` (line 24): each caret line continuation
  // becomes one space.
  function JoinContinuations(s: string): (r: string)
    ensures |r| <= |s|
    ensures |s| > 0 ==> |r| > 0 && (r[0] == ' ' || r[0] == s[0])
    ensures KeepsLastChar(s, r)
    decreases |s|
  {
    if |s| == 0 then s
    else if ContinuationAt(s, 0) then " " + JoinContinuations(s[ContinuationEnd(s, 0)..])
    else [s[0]] + JoinContinuations(s[1..])
  }

  /** After joining, no caret is followed by a line break any more. */
  lemma {:induction false} JoinLeavesNoContinuation(s: string)
    ensures forall i :: !ContinuationAt(JoinContinuations(s), i)
    decreases |s|
  {
    if |s| > 0 && ContinuationAt(s, 0) {
      var rest := JoinContinuations(s[ContinuationEnd(s, 0)..]);
      JoinLeavesNoContinuation(s[ContinuationEnd(s, 0)..]);
      PrependNoContinuation(' ', rest);
    } else if |s| > 0 {
      JoinLeavesNoContinuation(s[1..]);
      JoinedHeadNoBreak(s);
      PrependNoContinuation(s[0], JoinContinuations(s[1..]));
    }
  }

  /** A character put in front of text without continuations starts none there, so it starts none anywhere. */
  lemma PrependNoContinuation(c: char, rest: string)
    requires forall i :: !ContinuationAt(rest, i)
    requires !ContinuationAt([c] + rest, 0)
    ensures forall i :: !ContinuationAt([c] + rest, i)
  {
    forall i | i > 0
      ensures !ContinuationAt([c] + rest, i)
    {
      assert !ContinuationAt(rest, i - 1);
    }
  }

  /** A caret kept in front of the joined remainder is not followed by a line break. */
  lemma JoinedHeadNoBreak(s: string)
    requires |s| > 0 && !ContinuationAt(s, 0)
    ensures !ContinuationAt([s[0]] + JoinContinuations(s[1..]), 0)
  {
    var rest := JoinContinuations(s[1..]);
    if s[0] == '^' && |s| > 2 && s[1] == '\r' {
      assert !ContinuationAt(s[1..], 0);
      assert rest == [s[1]] + JoinContinuations(s[2..]);
    }
  }

  /** Text without a continuation is left as it is. */
  lemma {:induction false} JoinIdentity(s: string)
    requires forall i :: !ContinuationAt(s, i)
    ensures JoinContinuations(s) == s
    decreases |s|
  {
    if |s| > 0 {
      assert !ContinuationAt(s, 0);
      forall i
        ensures !ContinuationAt(s[1..], i)
      {
        assert ContinuationAt(s[1..], i) == ContinuationAt(s, i + 1);
      }
      JoinIdentity(s[1..]);
      assert s == [s[0]] + s[1..];
    }
  }

  /** Joining continuations is idempotent. */
  lemma JoinContinuationsIdempotent(s: string)
    ensures JoinContinuations(JoinContinuations(s)) == JoinContinuations(s)
  {
    JoinLeavesNoContinuation(s);
    JoinIdentity(JoinContinuations(s));
  }

  /** Text that cannot continue a white-space run: empty, or starting with something other than white space. */
  predicate StartsSolid(t: string) {
    t == [] || !IsSpace(t[0])
  }

  /** A continuation inside `a` ends in the same place when text that does not start with white space follows. */
  lemma ContinuationEndAppend(a: string, t: string)
    requires ContinuationAt(a, 0) && StartsSolid(t)
    ensures ContinuationAt(a + t, 0)
    ensures ContinuationEnd(a + t, 0) == ContinuationEnd(a, 0)
  {
    var s := a + t;
    var e := ContinuationEnd(a, 0);
    var afterBreak := if a[1] == '\n' then 2 else 3;
    assert s[1] == a[1];
    SkipSpacesTo(s, afterBreak, e);
  }

  /**
   * Line 24 works piece by piece: when the right-hand text does not start with
   * white space, no match crosses the seam, so joining the concatenation is
   * joining each side.
   */
  lemma {:induction false} JoinAppend(a: string, t: string)
    requires StartsSolid(t)
    ensures JoinContinuations(a + t) == JoinContinuations(a) + JoinContinuations(t)
    decreases |a|, 1
  {
    if |a| == 0 {
      assert a + t == t;
    } else if ContinuationAt(a, 0) {
      JoinAppendAtBreak(a, t);
    } else {
      JoinAppendAtChar(a, t);
    }
  }

  /** `JoinAppend` when `a` starts with a continuation. */
  lemma {:induction false} JoinAppendAtBreak(a: string, t: string)
    requires StartsSolid(t) && ContinuationAt(a, 0)
    ensures JoinContinuations(a + t) == JoinContinuations(a) + JoinContinuations(t)
    decreases |a|, 0
  {
    ContinuationEndAppend(a, t);
    var e := ContinuationEnd(a, 0);
    DropAppend(a, t, e);
    JoinAppend(a[e..], t);
    Regroup3(" ", JoinContinuations(a[e..]), JoinContinuations(t));
  }

  /** `JoinAppend` when `a` starts with anything else. */
  lemma {:induction false} JoinAppendAtChar(a: string, t: string)
    requires StartsSolid(t) && |a| > 0 && !ContinuationAt(a, 0)
    ensures JoinContinuations(a + t) == JoinContinuations(a) + JoinContinuations(t)
    decreases |a|, 0
  {
    NoContinuationAcrossSeam(a, t);
    DropAppend(a, t, 1);
    JoinAppend(a[1..], t);
    Regroup3([a[0]], JoinContinuations(a[1..]), JoinContinuations(t));
  }

  /** A continuation cannot start at the front of `a + t` unless it starts at the front of `a`. */
  lemma NoContinuationAcrossSeam(a: string, t: string)
    requires |a| > 0 && !ContinuationAt(a, 0) && StartsSolid(t)
    ensures !ContinuationAt(a + t, 0)
  {
    var s := a + t;
    if |a| == 1 && |t| > 0 {
      assert s[1] == t[0];
    } else if |a| == 2 && |t| > 0 {
      assert s[1] == a[1] && s[2] == t[0];
    } else if |a| > 2 {
      assert s[1] == a[1] && s[2] == a[2];
    }
  }

  /** A caret, a line break (LF or CRLF) and the white space after it become one space. */
  lemma JoinBreak(lineBreak: string, w: string, b: string)
    requires lineBreak == "\n" || lineBreak == "\r\n"
    requires AllSpace(w) && StartsSolid(b)
    ensures JoinContinuations("^" + lineBreak + w + b) == " " + JoinContinuations(b)
  {
    var s := "^" + lineBreak + w + b;
    var k := 1 + |lineBreak|;
    assert ContinuationAt(s, 0);
    assert s[k..] == w + b;
    SkipSpacesTo(s, k, k + |w|);
    assert s[k + |w|..] == b;
  }

  /**
   * Each `^`, line break and following white space becomes exactly one space,
   * and the text on either side is joined as it would be on its own.
   */
  lemma JoinAtBreak(a: string, lineBreak: string, w: string, b: string)
    requires lineBreak == "\n" || lineBreak == "\r\n"
    requires AllSpace(w) && StartsSolid(b)
    ensures JoinContinuations(a + "^" + lineBreak + w + b) ==
      JoinContinuations(a) + " " + JoinContinuations(b)
  {
    var t := "^" + lineBreak + w + b;
    Regroup5(a, "^", lineBreak, w, b);
    JoinAppend(a, t);
    JoinBreak(lineBreak, w, b);
    Regroup3(JoinContinuations(a), " ", JoinContinuations(b));
  }

  /** A match of `/\^\s+/` starts at `i`. */
  predicate CaretSpaceAt(s: string, i: int) {
    0 <= i && i + 1 < |s| && s[i] == '^' && IsSpace(s[i + 1])
  }

  /** `s.replace(/\^\s+/g, ' ')` (line 26): a caret and the white space after it become one space. */
  function CollapseCaretSpace(s: string): (r: string)
    ensures |r| <= |s|
    ensures KeepsLastChar(s, r)
    decreases |s|
  {
    if |s| == 0 then s
    else if CaretSpaceAt(s, 0) then " " + CollapseCaretSpace(s[SkipSpaces(s, 1)..])
    else [s[0]] + CollapseCaretSpace(s[1..])
  }

  /** Text with no caret before white space is left as it is. */
  lemma {:induction false} CollapseIdentity(s: string)
    requires forall i :: !CaretSpaceAt(s, i)
    ensures CollapseCaretSpace(s) == s
    decreases |s|
  {
    if |s| > 0 {
      assert !CaretSpaceAt(s, 0);
      forall i
        ensures !CaretSpaceAt(s[1..], i)
      {
        assert CaretSpaceAt(s[1..], i) == CaretSpaceAt(s, i + 1);
      }
      CollapseIdentity(s[1..]);
      assert s == [s[0]] + s[1..];
    }
  }

  /** Text with a caret before white space gets strictly shorter: at least two characters become one. */
  lemma {:induction false} CollapseShortens(s: string, i: int)
    requires CaretSpaceAt(s, i)
    ensures |CollapseCaretSpace(s)| < |s|
    decreases |s|
  {
    if !CaretSpaceAt(s, 0) {
      assert CaretSpaceAt(s[1..], i - 1);
      CollapseShortens(s[1..], i - 1);
    }
  }

  /** Line 26 works piece by piece when the right-hand text does not start with white space. */
  lemma {:induction false} CollapseAppend(a: string, t: string)
    requires StartsSolid(t)
    ensures CollapseCaretSpace(a + t) == CollapseCaretSpace(a) + CollapseCaretSpace(t)
    decreases |a|, 1
  {
    if |a| == 0 {
      assert a + t == t;
    } else if CaretSpaceAt(a, 0) {
      CollapseAppendAtCaret(a, t);
    } else {
      CollapseAppendAtChar(a, t);
    }
  }

  /** `CollapseAppend` when `a` starts with a caret and white space. */
  lemma {:induction false} CollapseAppendAtCaret(a: string, t: string)
    requires StartsSolid(t) && CaretSpaceAt(a, 0)
    ensures CollapseCaretSpace(a + t) == CollapseCaretSpace(a) + CollapseCaretSpace(t)
    decreases |a|, 0
  {
    var s := a + t;
    assert CaretSpaceAt(s, 0);
    var e := SkipSpaces(a, 1);
    SkipSpacesTo(s, 1, e);
    DropAppend(a, t, e);
    CollapseAppend(a[e..], t);
    Regroup3(" ", CollapseCaretSpace(a[e..]), CollapseCaretSpace(t));
  }

  /** `CollapseAppend` when `a` starts with anything else. */
  lemma {:induction false} CollapseAppendAtChar(a: string, t: string)
    requires StartsSolid(t) && |a| > 0 && !CaretSpaceAt(a, 0)
    ensures CollapseCaretSpace(a + t) == CollapseCaretSpace(a) + CollapseCaretSpace(t)
    decreases |a|, 0
  {
    NoCaretSpaceAcrossSeam(a, t);
    DropAppend(a, t, 1);
    CollapseAppend(a[1..], t);
    Regroup3([a[0]], CollapseCaretSpace(a[1..]), CollapseCaretSpace(t));
  }

  /** A caret followed by white space cannot start at the front of `a + t` unless it does in `a`. */
  lemma NoCaretSpaceAcrossSeam(a: string, t: string)
    requires |a| > 0 && !CaretSpaceAt(a, 0) && StartsSolid(t)
    ensures !CaretSpaceAt(a + t, 0)
  {
    var s := a + t;
    if |a| == 1 && |t| > 0 {
      assert s[1] == t[0];
    } else if |a| > 1 {
      assert s[1] == a[1];
    }
  }

  /** A caret and the non-empty run of white space after it become one space. */
  lemma CollapseCaret(w: string, b: string)
    requires w != [] && AllSpace(w) && StartsSolid(b)
    ensures CollapseCaretSpace("^" + w + b) == " " + CollapseCaretSpace(b)
  {
    var s := "^" + w + b;
    assert CaretSpaceAt(s, 0);
    SkipSpacesTo(s, 1, 1 + |w|);
    assert s[1 + |w|..] == b;
  }

  /**
   * Each `^` followed by white space becomes exactly one space, and the text on
   * either side is rewritten as it would be on its own.
   */
  lemma CollapseAtCaret(a: string, w: string, b: string)
    requires w != [] && AllSpace(w) && StartsSolid(b)
    ensures CollapseCaretSpace(a + "^" + w + b) == CollapseCaretSpace(a) + " " + CollapseCaretSpace(b)
  {
    var t := "^" + w + b;
    Regroup(a, "^", w, b);
    CollapseAppend(a, t);
    CollapseCaret(w, b);
    Regroup3(CollapseCaretSpace(a), " ", CollapseCaretSpace(b));
  }

  /** Text without a caret has nothing for either rewrite to match. */
  lemma CaretFreeUnchanged(s: string)
    requires '^' !in s
    ensures JoinContinuations(s) == s
    ensures CollapseCaretSpace(s) == s
  {
    forall i | 0 <= i < |s|
      ensures s[i] != '^'
    {
      assert s[i] in s;
    }
    JoinIdentity(s);
    CollapseIdentity(s);
  }

  /**
   * A transcript line continued with `^` onto the next: normalising joins the
   * two caret-free lines with one space, whatever white space indents the
   * second.
   */
  lemma NormalizeJoinsLine(a: string, lineBreak: string, w: string, b: string)
    requires lineBreak == "\n" || lineBreak == "\r\n"
    requires '^' !in a && '^' !in b && AllSpace(w) && StartsSolid(b)
    ensures Normalize(a + "^" + lineBreak + w + b) == a + " " + b
  {
    var joined := a + " " + b;
    assert JoinContinuations(a + "^" + lineBreak + w + b) == joined by {
      JoinAtBreak(a, lineBreak, w, b);
      CaretFreeUnchanged(a);
      CaretFreeUnchanged(b);
    }
    assert CollapseCaretSpace(joined) == joined by {
      assert '^' !in joined by {
        assert joined == a + (" " + b);
      }
      CaretFreeUnchanged(joined);
    }
  }

  /** Both rewrites, in the order `parseCurl` applies them. */
  function Normalize(text: string): (r: string)
    ensures |r| <= |text|
    ensures KeepsLastChar(text, r)
  {
    CollapseCaretSpace(JoinContinuations(text))
  }

  /**
   * The caret-space rewrite is not: a doubled caret before a space loses one
   * caret per pass, so normalising an already normalised transcript can
   * change it further.
   */
  lemma NormalizeNotIdempotent()
    ensures Normalize("^^ ") == "^ "
    ensures Normalize(Normalize("^^ ")) == " "
  {
    var s := "^^ ";
    assert JoinContinuations(s) == s by {
      assert forall i :: !ContinuationAt(s, i);
      JoinIdentity(s);
    }
    assert CaretSpaceAt(s, 1) && !CaretSpaceAt(s, 0);
    assert CollapseCaretSpace(s) == "^ " by {
      assert s[1..] == "^ ";
      assert CaretSpaceAt(s[1..], 0);
      assert SkipSpaces(s[1..], 1) == 2;
      assert s[1..][2..] == "";
    }
    var t := "^ ";
    assert JoinContinuations(t) == t by {
      assert forall i :: !ContinuationAt(t, i);
      JoinIdentity(t);
    }
    assert CaretSpaceAt(t, 0);
    assert SkipSpaces(t, 1) == 2;
    assert t[2..] == "";
  }
}
