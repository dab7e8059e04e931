/**
 * `parseCurl` (curl-grabber.js lines 22-97): from a "copy as cURL (cmd)"
 * transcript to the URL, method, header object and body the poller replays.
 * Everything is extracted from the transcript after `Normalize`.
 */
module CurlParser {
  import opened Options
  import opened JsText
  import opened Continuations
  import opened Patterns

  /** The object `parseCurl` returns; `body` is None where the source has `null`. */
  datatype Request = Request(url: string, httpMethod: string, headers: map<string, string>, body: Option<string>)

  /** An upper-case `\w` run: what line 44 produces and also `GET` and `POST`. */
  predicate IsMethodToken(m: string) {
    m != [] && forall i :: 0 <= i < |m| ==> IsWordChar(m[i]) && !IsAsciiLower(m[i])
  }

  predicate HasNoAsciiUpper(k: string) {
    forall i :: 0 <= i < |k| ==> !IsAsciiUpper(k[i])
  }

  predicate AllCarets(s: string) {
    forall i :: 0 <= i < |s| ==> s[i] == '^'
  }

  /** The first capture of `p` in `s`, as `s.match(re)[1]`. */
  function FirstCapture(p: Pattern, s: string): (r: Option<string>)
    ensures r.Some? <==> Matches(p, s)
  {
    match Search(p, s, 0)
    case Some(m) => Some(m.capture)
    case None => None
  }

  /** The capture `s.match(re)` yields is that of the leftmost position where `p` matches. */
  lemma FirstCaptureIsLeftmost(p: Pattern, s: string, i: nat)
    requires MatchAt(p, s, i).Some? && NoMatchIn(p, s, 0, i)
    ensures FirstCapture(p, s) == Some(MatchAt(p, s, i).value.capture)
  {
    var r := Search(p, s, 0);
    assert r.Some?;
    var m := r.value;
    assert MatchAt(p, s, m.start).Some? && MatchAt(p, s, i).Some?;
    assert m.start == i;
  }

  /** `url` is `c` with its trailing carets removed: a prefix not ending in a caret, followed by nothing but carets. */
  predicate StrippedOfCarets(url: string, c: string) {
    && url <= c
    && !EndsWithCaret(url)
    && forall i :: |url| <= i < |c| ==> c[i] == '^'
  }

  /** Lines 36-39: the first quoted argument of `curl`, without its trailing carets; "" if none. */
  function ExtractUrl(s: string): (url: string)
    ensures !EndsWithCaret(url)
    ensures !Matches(CurlUrl, s) ==> url == ""
    ensures url == "" <==> FirstCapture(CurlUrl, s).None? || AllCarets(FirstCapture(CurlUrl, s).value)
    ensures FirstCapture(CurlUrl, s).Some? ==> StrippedOfCarets(url, FirstCapture(CurlUrl, s).value)
  {
    match FirstCapture(CurlUrl, s)
    case Some(c) => StripTrailingCarets(c)
    case None => ""
  }

  /** Lines 30, 42-45 and 90-93: the first `-X` word upper-cased, else `POST` when a body was found, else `GET`. */
  function ResolveMethod(s: string, hasBody: bool): (httpMethod: string)
    ensures IsMethodToken(httpMethod)
    ensures Matches(MethodFlag, s) ==> httpMethod == Upper(FirstCapture(MethodFlag, s).value)
    ensures !Matches(MethodFlag, s) && hasBody ==> httpMethod == "POST"
    ensures !Matches(MethodFlag, s) && !hasBody ==> httpMethod == "GET"
  {
    match Search(MethodFlag, s, 0)
    case Some(m) =>
      MethodCaptureIsWord(s, m);
      Upper(m.capture)
    case None => if hasBody then "POST" else "GET"
  }

  lemma MethodCaptureIsWord(s: string, m: Match)
    requires MatchAt(MethodFlag, s, m.start) == Some(m)
    ensures m.capture != [] && forall i :: 0 <= i < |m.capture| ==> IsWordChar(m.capture[i])
  {
    MethodMatchAtIsTheSplit(s, m.start);
    var j, e :| IsMethodMatch(s, m.start, j, e);
    assert m.capture == s[j..e];
  }

  lemma DataMatchClosesText(s: string, m: Match)
    requires MatchAt(DataFlag, s, m.start) == Some(m)
    ensures |s| > 0 && s[|s| - 1] == '"'
  {
    DataMatchAtIsTheSplit(s, m.start);
    var flag, j, k :| IsDataMatch(s, m.start, flag, j, k);
  }

  /** Lines 53-55 and 72-74: caret unescaping, then trailing carets removed. */
  function CleanArg(raw: string): (r: string)
    ensures !EndsWithCaret(r)
    ensures |r| <= |raw|
  {
    StripTrailingCarets(UnescapeCarets(raw))
  }

  /** Lines 83-87: `CleanArg`, then every `\"` becomes `"`. */
  function CleanBody(raw: string): (r: string)
    ensures !EndsWithCaret(r)
    ensures |r| <= |raw|
  {
    UnescapeQuotes(CleanArg(raw))
  }

  /**
   * Lines 57-63: the lower-cased trimmed name and the trimmed value (without
   * trailing carets) one cleaned `-H` capture contributes, or None when its
   * first colon is missing or at index 0.
   */
  function SplitHeader(raw: string): (r: Option<(string, string)>)
    ensures r.None? <==> ':' !in CleanArg(raw) || CleanArg(raw)[0] == ':'
    ensures r.Some? ==> HasNoAsciiUpper(r.value.0) && !EndsWithCaret(r.value.1)
    ensures r.Some? ==> Trimmed(r.value.0) && ':' !in r.value.0
  {
    var header := CleanArg(raw);
    var c := IndexOf(header, ':');
    if c > 0 then
      HeaderNameClean(header[..c]);
      Some((Lower(Trim(header[..c])), StripTrailingCarets(Trim(header[c + 1..]))))
    else None
  }

  /** The key made from the text before the first colon has no colon and no white space at either end. */
  lemma HeaderNameClean(beforeColon: string)
    requires ':' !in beforeColon
    ensures Trimmed(Lower(Trim(beforeColon))) && ':' !in Lower(Trim(beforeColon))
  {
    var t := Trim(beforeColon);
    var i, j :| TrimmedSlice(beforeColon, i, j) && t == beforeColon[i..j];
    forall x | 0 <= x < |t|
      ensures t[x] != ':'
    {
      assert t[x] == beforeColon[i + x];
      assert beforeColon[i + x] in beforeColon;
    }
  }

  /** No white space at either end: what `trim` leaves unchanged. */
  predicate Trimmed(s: string) {
    s == [] || (!IsSpace(s[0]) && !IsSpace(s[|s| - 1]))
  }

  /**
   * An argument exported with caret escapes and captured up to the caret
   * before its closing quote cleans back to the argument itself.
   */
  lemma CleanExportedArg(arg: string, special: set<char>)
    requires EscapableSet(special)
    requires !EndsWithCaret(arg)
    ensures CleanArg(CaretEscape(arg, special) + "^") == arg
  {
    UnescapeCaretEscape(arg, special, "^");
    assert UnescapeCarets("^") == "^";
    StripClosingCaret(arg);
  }

  /**
   * Any cleaned line with a colon after a non-empty, colon-free name splits
   * there: the key is the lower-cased trimmed name, the value the trimmed
   * rest without its trailing carets.
   */
  lemma SplitHeaderAtColon(raw: string, name: string, value: string)
    requires CleanArg(raw) == name + ":" + value
    requires name != [] && ':' !in name
    ensures SplitHeader(raw) == Some((Lower(Trim(name)), StripTrailingCarets(Trim(value))))
  {
    var header := CleanArg(raw);
    assert header[..|name|] == name;
    IndexOfFirst(header, ':', |name|);
    assert header[|name| + 1..] == value;
  }

  /** The cleaned `name: value` line splits at the colon that ends the name. */
  lemma SplitHeaderLine(raw: string, name: string, value: string)
    requires CleanArg(raw) == name + ": " + value
    requires name != [] && ':' !in name && Trimmed(name)
    requires Trimmed(value) && !EndsWithCaret(value)
    ensures SplitHeader(raw) == Some((Lower(name), value))
  {
    var header := CleanArg(raw);
    SplitNameValue(header, name, value);
  }

  /** The pieces `SplitHeader` cuts from a `name: value` line. */
  lemma SplitNameValue(header: string, name: string, value: string)
    requires header == name + ": " + value
    requires name != [] && ':' !in name && Trimmed(name)
    requires Trimmed(value) && !EndsWithCaret(value)
    ensures IndexOf(header, ':') == |name|
    ensures Trim(header[..|name|]) == name
    ensures StripTrailingCarets(Trim(header[|name| + 1..])) == value
  {
    assert header[..|name|] == name;
    IndexOfFirst(header, ':', |name|);
    assert header[|name| + 1..] == " " + value;
    TrimIdentity(name);
    TrimAfterSpace(value);
  }

  /**
   * A `-H` argument exported with caret escapes, as the `-H` pattern captures
   * it (everything up to the caret before the closing quote), splits back into
   * the lower-cased name and the exact value.
   */
  lemma HeaderExportRoundTrip(name: string, value: string, special: set<char>)
    requires EscapableSet(special)
    requires name != [] && ':' !in name && Trimmed(name)
    requires Trimmed(value) && !EndsWithCaret(value)
    ensures SplitHeader(CaretEscape(name + ": " + value, special) + "^") == Some((Lower(name), value))
  {
    var line := name + ": " + value;
    assert !EndsWithCaret(line) by {
      if value == [] {
        assert line[|line| - 1] == ' ';
      } else {
        assert line[|line| - 1] == value[|value| - 1];
      }
    }
    CleanExportedArg(line, special);
    SplitHeaderLine(CaretEscape(line, special) + "^", name, value);
  }

  /**
   * A `--data-raw` argument exported with quotes backslash-escaped and carets
   * escaped for the shell comes back exactly, provided it does not itself end
   * in a caret.
   */
  lemma BodyExportRoundTrip(body: string, special: set<char>)
    requires EscapableSet(special)
    requires !EndsWithCaret(body)
    ensures CleanBody(CaretEscape(EscapeQuotes(body), special) + "^") == body
  {
    CleanExportedArg(EscapeQuotes(body), special);
    UnescapeEscapeQuotes(body);
  }

  const ProtoKey: string := "__proto__"

  /**
   * `obj[key] = value` on an object literal. A string assigned to `__proto__`
   * reaches the inherited prototype setter, which ignores it.
   */
  function SetProperty(h: map<string, string>, key: string, value: string): (r: map<string, string>)
    ensures key == ProtoKey ==> r == h
    ensures key != ProtoKey ==> key in r && r[key] == value
    ensures forall k :: k != key ==> (k in r <==> k in h) && (k in h ==> r[k] == h[k])
  {
    if key == ProtoKey then h else h[key := value]
  }

  /** What one `-H` capture contributes: a header name and value, or nothing. */
  type HeaderPair = Option<(string, string)>

  /** The pair names header `k`. */
  predicate Names(p: HeaderPair, k: string) {
    p.Some? && p.value.0 == k
  }

  /** A pair `SplitHeader` can produce: a name without upper case, a value without a trailing caret. */
  predicate WellFormedPair(p: HeaderPair) {
    p.Some? ==> HasNoAsciiUpper(p.value.0) && !EndsWithCaret(p.value.1)
  }

  /** The capture `raw` names header `k`. */
  predicate SetsName(raw: string, k: string) {
    Names(SplitHeader(raw), k)
  }

  /** The split of every `-H` capture, in match order. */
  function HeaderPairs(ms: seq<Match>): (ps: seq<HeaderPair>)
    ensures |ps| == |ms|
    ensures forall n :: 0 <= n < |ps| ==> ps[n] == SplitHeader(ms[n].capture)
    ensures forall n :: 0 <= n < |ps| ==> WellFormedPair(ps[n])
  {
    seq(|ms|, n requires 0 <= n < |ms| => SplitHeader(ms[n].capture))
  }

  /** One iteration of the loop at lines 50-65. */
  function AddHeader(h: map<string, string>, p: HeaderPair): (r: map<string, string>)
    ensures p.None? ==> r == h
    ensures WellFormedHeaders(h) && WellFormedPair(p) ==> WellFormedHeaders(r)
    ensures forall k :: !Names(p, k) ==> (k in r <==> k in h) && (k in h ==> r[k] == h[k])
    ensures p.Some? && p.value.0 != ProtoKey ==> p.value.0 in r && r[p.value.0] == p.value.1
  {
    match p
    case Some((k, v)) => SetProperty(h, k, v)
    case None => h
  }

  /** Invariants of the header object: lower-case keys, no trailing caret on a value, no `__proto__` own key. */
  ghost predicate WellFormedHeaders(h: map<string, string>) {
    && ProtoKey !in h
    && forall k :: k in h ==> HasNoAsciiUpper(k) && !EndsWithCaret(h[k])
  }

  /** The loop at lines 50-65 over the split `-H` captures, in order. */
  function AddHeaders(h: map<string, string>, ps: seq<HeaderPair>): (r: map<string, string>)
    ensures WellFormedHeaders(h) && (forall n :: 0 <= n < |ps| ==> WellFormedPair(ps[n])) ==> WellFormedHeaders(r)
    decreases |ps|
  {
    if |ps| == 0 then h
    else
      assert forall n :: 0 <= n < |ps| - 1 ==> ps[1..][n] == ps[n + 1];
      AddHeaders(AddHeader(h, ps[0]), ps[1..])
  }

  /** Last write wins: the value of header `k` comes from the last pair naming it. */
  lemma {:induction false} HeaderLastWins(h: map<string, string>, ps: seq<HeaderPair>, n: nat, k: string, v: string)
    requires n < |ps| && ps[n] == Some((k, v)) && k != ProtoKey
    requires forall m :: n < m < |ps| ==> !Names(ps[m], k)
    ensures k in AddHeaders(h, ps) && AddHeaders(h, ps)[k] == v
    decreases |ps|
  {
    var h' := AddHeader(h, ps[0]);
    assert AddHeaders(h, ps) == AddHeaders(h', ps[1..]);
    assert forall m :: 0 <= m < |ps| - 1 ==> ps[1..][m] == ps[m + 1];
    if n == 0 {
      HeaderUntouched(h', ps[1..], k);
    } else {
      HeaderLastWins(h', ps[1..], n - 1, k, v);
    }
  }

  /** A header no pair names keeps whatever the object held before. */
  lemma {:induction false} HeaderUntouched(h: map<string, string>, ps: seq<HeaderPair>, k: string)
    requires forall m :: 0 <= m < |ps| ==> !Names(ps[m], k)
    ensures k in AddHeaders(h, ps) <==> k in h
    ensures k in h ==> AddHeaders(h, ps)[k] == h[k]
    decreases |ps|
  {
    if |ps| > 0 {
      assert !Names(ps[0], k);
      assert forall m :: 0 <= m < |ps| - 1 ==> ps[1..][m] == ps[m + 1];
      HeaderUntouched(AddHeader(h, ps[0]), ps[1..], k);
    }
  }

  /** Lines 69-75: the cleaned cookie stored under `cookie`, replacing any `-H` cookie header. */
  function SetCookie(h: map<string, string>, raw: string): (r: map<string, string>)
    ensures WellFormedHeaders(h) ==> WellFormedHeaders(r)
    ensures "cookie" in r && r["cookie"] == CleanArg(raw)
    ensures forall k :: k != "cookie" ==> (k in r <==> k in h) && (k in h ==> r[k] == h[k])
  {
    h["cookie" := CleanArg(raw)]
  }

  /** Lines 47-65: the header object the `-H` loop builds from an empty one, given the `-H` matches. */
  function HeaderLoop(ms: seq<Match>): (h: map<string, string>)
    ensures WellFormedHeaders(h)
  {
    var ps := HeaderPairs(ms);
    assert forall n :: 0 <= n < |ps| ==> WellFormedPair(ps[n]);
    AddHeaders(map[], ps)
  }

  /** In the header loop's object, a name carries the value of the last capture naming it. */
  lemma HeaderLoopLastWins(ms: seq<Match>, n: nat, k: string, v: string)
    requires n < |ms| && SplitHeader(ms[n].capture) == Some((k, v)) && k != ProtoKey
    requires forall m :: n < m < |ms| ==> !SetsName(ms[m].capture, k)
    ensures k in HeaderLoop(ms) && HeaderLoop(ms)[k] == v
  {
    var ps := HeaderPairs(ms);
    assert forall m :: n < m < |ps| ==> !Names(ps[m], k);
    HeaderLastWins(map[], ps, n, k, v);
  }

  /** Lines 47-76: the `-H` headers, then the first `-b` cookie. */
  function ExtractHeaders(s: string): (headers: map<string, string>)
    ensures WellFormedHeaders(headers)
    ensures Matches(CookieArg, s) ==> "cookie" in headers && headers["cookie"] == CleanArg(FirstCapture(CookieArg, s).value)
  {
    var fromH := HeaderLoop(AllMatches(HeaderArg, s, 0));
    match FirstCapture(CookieArg, s)
    case Some(c) => SetCookie(fromH, c)
    case None => fromH
  }

  /**
   * End to end: a header the `-H` captures of a transcript name gets its value
   * from the last of them, unless it is `__proto__` or a `-b` cookie replaces it.
   */
  lemma ParsedHeaderIsLastNamed(s: string, n: nat, k: string, v: string)
    requires n < |AllMatches(HeaderArg, s, 0)|
    requires SplitHeader(AllMatches(HeaderArg, s, 0)[n].capture) == Some((k, v)) && k != ProtoKey
    requires forall m :: n < m < |AllMatches(HeaderArg, s, 0)| ==> !SetsName(AllMatches(HeaderArg, s, 0)[m].capture, k)
    requires k == "cookie" ==> !Matches(CookieArg, s)
    ensures k in ExtractHeaders(s) && ExtractHeaders(s)[k] == v
  {
    HeaderLoopLastWins(AllMatches(HeaderArg, s, 0), n, k, v);
  }

  /** A name no `-H` capture sets never appears in the object the header loop builds. */
  lemma HeaderLoopOnlyNamed(ms: seq<Match>, k: string)
    requires forall n :: 0 <= n < |ms| ==> !SetsName(ms[n].capture, k)
    ensures k !in HeaderLoop(ms)
  {
    var ps := HeaderPairs(ms);
    assert forall n :: 0 <= n < |ps| ==> !Names(ps[n], k);
    HeaderUntouched(map[], ps, k);
  }

  /**
   * End to end: a parsed header exists only if some `-H` capture sets it, or
   * it is `cookie` and a `-b` argument matches.
   */
  lemma ParsedHeaderNeedsCapture(text: string, k: string)
    requires k == "cookie" ==> !Matches(CookieArg, Normalize(text))
    requires forall n :: 0 <= n < |AllMatches(HeaderArg, Normalize(text), 0)| ==>
               !SetsName(AllMatches(HeaderArg, Normalize(text), 0)[n].capture, k)
    ensures k !in ParseCurl(text).headers
  {
    var s := Normalize(text);
    HeaderLoopOnlyNamed(AllMatches(HeaderArg, s, 0), k);
    assert ParseCurl(text).headers == ExtractHeaders(s);
  }

  /**
   * End to end: when the last `-H` argument naming a header is an exported
   * `name: value` line, the parsed headers map the lower-cased name to exactly
   * that value.
   */
  lemma ParsedHeaderRoundTrip(text: string, n: nat, name: string, value: string, special: set<char>)
    requires n < |AllMatches(HeaderArg, Normalize(text), 0)|
    requires AllMatches(HeaderArg, Normalize(text), 0)[n].capture == CaretEscape(name + ": " + value, special) + "^"
    requires EscapableSet(special) && name != [] && ':' !in name && Trimmed(name)
    requires Trimmed(value) && !EndsWithCaret(value)
    requires Lower(name) != ProtoKey && (Lower(name) == "cookie" ==> !Matches(CookieArg, Normalize(text)))
    requires forall m :: n < m < |AllMatches(HeaderArg, Normalize(text), 0)| ==>
               !SetsName(AllMatches(HeaderArg, Normalize(text), 0)[m].capture, Lower(name))
    ensures Lower(name) in ParseCurl(text).headers && ParseCurl(text).headers[Lower(name)] == value
  {
    var s := Normalize(text);
    HeaderExportRoundTrip(name, value, special);
    ParsedHeaderIsLastNamed(s, n, Lower(name), value);
    assert ParseCurl(text).headers == ExtractHeaders(s);
  }

  /** End to end: a transcript whose data argument is an exported body parses to exactly that body. */
  lemma ParsedBodyRoundTrip(text: string, body: string, special: set<char>)
    requires FirstCapture(DataFlag, Normalize(text)) == Some(CaretEscape(EscapeQuotes(body), special) + "^")
    requires EscapableSet(special) && !EndsWithCaret(body)
    ensures ParseCurl(text).body == Some(body)
  {
    BodyExportRoundTrip(body, special);
  }

  /**
   * Lines 79-88: the body of the data flag whose quoted argument closes the
   * whole transcript, cleaned; None exactly when the pattern matches nowhere.
   */
  function ExtractBody(s: string): (body: Option<string>)
    ensures body.Some? <==> Matches(DataFlag, s)
    ensures body.Some? ==> !EndsWithCaret(body.value) && |body.value| <= |FirstCapture(DataFlag, s).value|
    ensures body.Some? ==> |s| > 0 && s[|s| - 1] == '"'
    ensures body.Some? ==> body.value == CleanBody(FirstCapture(DataFlag, s).value)
  {
    match Search(DataFlag, s, 0)
    case Some(m) =>
      DataMatchClosesText(s, m);
      Some(CleanBody(m.capture))
    case None => None
  }

  /** `parseCurl`. */
  function ParseCurl(text: string): (r: Request)
    ensures !EndsWithCaret(r.url)
    ensures IsMethodToken(r.httpMethod)
    ensures WellFormedHeaders(r.headers)
    ensures r.body.Some? ==> !EndsWithCaret(r.body.value)
    ensures r.body.Some? ==> |text| > 0 && text[|text| - 1] == '"'
    ensures r.body.Some? <==> Matches(DataFlag, Normalize(text))
    ensures !Matches(CurlUrl, Normalize(text)) ==> r.url == ""
    ensures Matches(CurlUrl, Normalize(text)) ==> StrippedOfCarets(r.url, FirstCapture(CurlUrl, Normalize(text)).value)
    ensures r.body.Some? ==> r.body.value == CleanBody(FirstCapture(DataFlag, Normalize(text)).value)
    ensures Matches(MethodFlag, Normalize(text)) ==> r.httpMethod == Upper(FirstCapture(MethodFlag, Normalize(text)).value)
    ensures !Matches(MethodFlag, Normalize(text)) ==> r.httpMethod == (if r.body.Some? then "POST" else "GET")
    ensures Matches(CookieArg, Normalize(text)) ==>
              "cookie" in r.headers && r.headers["cookie"] == CleanArg(FirstCapture(CookieArg, Normalize(text)).value)
  {
    var s := Normalize(text);
    var body := ExtractBody(s);
    var headers := ExtractHeaders(s);
    Request(ExtractUrl(s), ResolveMethod(s, body.Some?), headers, body)
  }
}
