# curl-grabber in Dafny

curl-grabber is a Node.js script that polls a coupon-claim endpoint. It reads
a request saved with a browser's "Copy as cURL (cmd)" and parses it into a URL,
a method, headers and a body. It then replays that request on a timer until a
response says the coupon was claimed, was already claimed, or the login
expired. It also stops on a configured attempt cap or on Ctrl+C.

This project models the two parts of the script where its behaviour is decided.

**`parseCurl`.** The model covers the following:

- Normalising the transcript's caret line continuations.
- The leftmost regex matches for `curl "…"`, `-X`, `-H`, `-b` and the data flags.
- Caret unescaping and stripping of trailing carets.
- Header splitting, trimming and lower-casing.
- The last-write-wins header object, including the `__proto__` quirk of JavaScript objects.
- Quote unescaping of the body.
- The method rule: an explicit `-X` word upper-cased, otherwise POST when a body was found, otherwise GET.

**The polling engine.** The model covers:

- One call of `handleRequest` as a pure transition on the `stats` counters.
- The response classification table with its order of precedence, plus the TypeErrors that the `try` block catches.
- The attempt cap.
- `stopGrabbing` and SIGINT as terminal transitions.
- The empty-URL guard of `main`.
- A finite run of timer firings.

Modules:

- `Options`: the option type.
- `JsText`: the JavaScript string primitives the parser relies on. These are the `\s` and line-terminator character classes, `trim`, `indexOf`, `includes`, the caret and quote rewrites, and their inverse escapers.
- `Continuations`: the two rewrites at lines 24 and 26.
- `Patterns`: each regex as a matcher at a position, proved equivalent to a decomposition predicate that describes the regex's language at that position. Also leftmost `match` and the global `exec` loop.
- `CurlParser`: `parseCurl`.
- `Grabber`: `handleRequest`, `stopGrabbing`, `main`'s guard and the interval loop.

Behaviour of the code worth knowing:

- **Normalising twice differs from normalising once.** The rewrite at line 26 consumes one caret of `^^ ` per pass: `Continuations.NormalizeNotIdempotent`.
- **Which data flag wins.** The data pattern is anchored at the end of the text and searched leftmost. The body therefore comes from the leftmost data flag whose quoted argument runs to the final `"` of the whole transcript. That is not necessarily the last data flag.
- **Trailing newline.** `$` without the `m` flag means end of input. A transcript that ends in a newline therefore has no body and, without `-X`, is sent as GET (`CurlParser.ParseCurl`: a body implies the text ends in `"`, and with neither `-X` nor a body the method is GET).
- **The URL keeps its interior carets.** Only trailing carets are removed from it.
- **`-H` carrying `__proto__`.** Such a header sets nothing, because assigning a string to `__proto__` on an object literal is ignored.

## Model

| member | source | states |
|---|---|---|
| JsText.Upper | curl-grabber.js:44 | upper-casing keeps the length, keeps every character that is not a lower-case ASCII letter, and turns letter `n` of the lower-case alphabet into letter `n` of the upper-case one |
| JsText.Lower | curl-grabber.js:63 | lower-casing keeps the length, keeps every character that is not an upper-case ASCII letter, and turns letter `n` of the upper-case alphabet into letter `n` of the lower-case one |
| JsText.CaseTable | curl-grabber.js:44 | the character mappings pair the two alphabets letter by letter |
| JsText.CaseRoundTrip | curl-grabber.js:44 | lower-casing after upper-casing is lower-casing, and upper-casing after lower-casing is upper-casing |
| JsText.Trim | curl-grabber.js:59-60 | the result is a slice whose removed prefix and suffix are all white space and which itself neither starts nor ends with white space |
| JsText.TrimIdentity | curl-grabber.js:59-60 | trimming a string with no white space at either end returns it unchanged |
| JsText.TrimAfterSpace | curl-grabber.js:60 | trimming `" " + v` for an already trimmed `v` gives `v`, which is the value after `name: ` |
| JsText.IndexOf | curl-grabber.js:57 | -1 exactly when the character is absent, otherwise the position of its first occurrence |
| JsText.IndexOfFirst | curl-grabber.js:57 | a position holding the character with no occurrence before it is what `indexOf` returns |
| JsText.Includes | curl-grabber.js:186 | true exactly when the needle occurs at some position of the string |
| JsText.StripTrailingCarets | curl-grabber.js:38 | the result is a prefix that does not end in a caret, and everything removed is carets |
| JsText.StripClosingCaret | curl-grabber.js:55 | removing trailing carets from `s + "^"` gives `s` when `s` does not end in a caret |
| JsText.UnescapeCarets | curl-grabber.js:53 | never lengthens; leaves text without a caret escape unchanged and shortens text with one |
| JsText.UnescapeCaretEscape | curl-grabber.js:53 | caret unescaping inverts caret escaping whatever text follows, provided no line terminator was escaped |
| JsText.UnescapeQuotes | curl-grabber.js:87 | never lengthens; leaves text without a `\"` unchanged, shortens text with one, and keeps the final character or ends in a quote |
| JsText.UnescapeEscapeQuotes | curl-grabber.js:87 | quote unescaping inverts backslash-escaping of quotes for every string, backslashes included |
| JsText.UnescapeEscapeQuotesTail | curl-grabber.js:87 | an escaped string followed by any text unescapes to the string followed by the text unescaped on its own, unless the string's final backslash meets a quote opening the text |
| JsText.UnescapeEscapedQuote | curl-grabber.js:87 | a `\"` at the front becomes one quote and the rest is unescaped on its own |
| JsText.UnescapeOtherChar | curl-grabber.js:87 | any character at the front that does not start a `\"` is kept |
| JsText.UnescapeBareQuote | curl-grabber.js:87 | a quote with no backslash before it is kept, so bare and escaped quotes may be mixed |
| Continuations.JoinContinuations | curl-grabber.js:24 | the length never grows, the first character is kept or became a space, and the last non-space character is preserved |
| Continuations.JoinLeavesNoContinuation | curl-grabber.js:24 | the joined text contains no caret line continuation |
| Continuations.JoinIdentity | curl-grabber.js:24 | text without a caret line continuation is unchanged |
| Continuations.JoinAppend | curl-grabber.js:24 | when the right part does not start with white space, joining a concatenation joins each part separately |
| Continuations.JoinBreak | curl-grabber.js:24 | a caret, an LF or CRLF and the white space after it become exactly one space |
| Continuations.JoinAtBreak | curl-grabber.js:24 | `a + "^" + break + w + b` joins to the joined `a`, one space, and the joined `b`, for all-space `w` and a `b` not starting with white space |
| Continuations.JoinContinuationsIdempotent | curl-grabber.js:24 | joining continuations a second time changes nothing |
| Continuations.CollapseCaretSpace | curl-grabber.js:26 | the length never grows and the last non-space character is preserved |
| Continuations.CollapseIdentity | curl-grabber.js:26 | text with no caret before white space is unchanged |
| Continuations.CollapseShortens | curl-grabber.js:26 | text with a caret before white space gets strictly shorter |
| Continuations.CollapseAppend | curl-grabber.js:26 | when the right part does not start with white space, the rewrite of a concatenation is the rewrite of each part |
| Continuations.CollapseCaret | curl-grabber.js:26 | a caret and the non-empty white space after it become exactly one space |
| Continuations.CollapseAtCaret | curl-grabber.js:26 | `a + "^" + w + b` becomes the rewritten `a`, one space, and the rewritten `b`, for non-empty all-space `w` and a `b` not starting with white space |
| Continuations.CaretFreeUnchanged | curl-grabber.js:24-26 | neither rewrite changes text without a caret |
| Continuations.Normalize | curl-grabber.js:23-26 | normalising never lengthens the transcript and keeps its last character unless that became a space |
| Continuations.NormalizeJoinsLine | curl-grabber.js:23-26 | two caret-free lines joined by `^` and a line break, whatever indents the second, normalise to the two lines separated by one space |
| Continuations.NormalizeNotIdempotent | curl-grabber.js:26 | `^^ ` normalises to `^ ` and then to ` `, so normalising is not idempotent |
| Patterns.QuotedMatchAtIsTheSplit | curl-grabber.js:36 | a match of `flag\s+\^?"([^"]+)"` exists at a position exactly when the text splits that way there, and the split and so the capture are unique |
| Patterns.MethodMatchAtIsTheSplit | curl-grabber.js:42 | a match of `-X\s+(\w+)` with the `i` flag exists exactly when the text splits that way, with the greedy word run as the capture |
| Patterns.DataAlternativeIsTheSplit | curl-grabber.js:79 | a single alternative of the data pattern matches only on a split into that flag, white space, an optional caret and a quoted capture running to the final quote, and then its capture is fixed by the split |
| Patterns.DataMatchAtIsTheSplit | curl-grabber.js:79 | a data-flag match exists exactly when one flag, white space, an optional caret and a quoted, line-terminator-free capture run to a final quote that ends the text |
| Patterns.DataAlternativesExclusive | curl-grabber.js:79 | no two of `--data-raw`, `--data`, `-d` match at the same position |
| Patterns.Search | curl-grabber.js:68 | the non-global match is the one at the smallest position with a match, and there is none when no position matches |
| Patterns.ExecOrderCons | curl-grabber.js:48-50 | the leftmost match from a position, followed by a sequence in `exec` order from its end, is in `exec` order from that position |
| Patterns.AllMatches | curl-grabber.js:48-50 | the `exec` loop visits matches in order, non-overlapping, each resuming at the previous end, with no match starting in a gap or after the last |
| CurlParser.FirstCapture | curl-grabber.js:36 | a capture exists exactly when the pattern matches somewhere |
| CurlParser.FirstCaptureIsLeftmost | curl-grabber.js:36 | the capture is that of the match at the leftmost position where the pattern matches |
| CurlParser.ExtractUrl | curl-grabber.js:35-39 | empty exactly when `curl "…"` does not match or its capture is all carets; otherwise the capture with exactly its trailing carets removed: a prefix not ending in a caret, followed in the capture only by carets |
| CurlParser.ResolveMethod | curl-grabber.js:41-45 | the upper-cased first `-X` word when present, otherwise POST with a body and GET without; always an upper-case word |
| CurlParser.CleanArg | curl-grabber.js:53-55 | a cleaned argument never ends in a caret and is no longer than the capture |
| CurlParser.CleanExportedArg | curl-grabber.js:53-55 | cleaning the capture of a caret-escaped argument, closed by its trailing caret, gives back the argument |
| CurlParser.CleanBody | curl-grabber.js:83-87 | a cleaned body never ends in a caret and is no longer than the capture |
| CurlParser.BodyExportRoundTrip | curl-grabber.js:81-87 | a body exported with escaped quotes and caret escapes is recovered exactly unless it ends in a caret |
| CurlParser.SplitHeader | curl-grabber.js:57-63 | no header exactly when the cleaned line has no colon or starts with one; otherwise a name with no upper case, no colon and no white space at either end, and a value without trailing carets |
| CurlParser.SplitHeaderAtColon | curl-grabber.js:57-63 | any cleaned line `name:value` with a non-empty, colon-free name gives the lower-cased trimmed name and the trimmed value without trailing carets |
| CurlParser.SplitHeaderLine | curl-grabber.js:57-63 | a cleaned `name: value` line splits into the lower-cased name and the exact value |
| CurlParser.SplitNameValue | curl-grabber.js:57-62 | in `name: value` with a non-empty trimmed name free of colons and a trimmed value without a trailing caret, the first colon follows the name, and trimming each side gives back the name and the value |
| CurlParser.HeaderExportRoundTrip | curl-grabber.js:51-63 | a caret-escaped `name: value` header argument splits back into the lower-cased name and the value |
| CurlParser.SetProperty | curl-grabber.js:63 | assigning sets the key to the value and leaves every other key alone, except `__proto__`, which leaves the object unchanged |
| CurlParser.AddHeader | curl-grabber.js:57-64 | a line without a usable colon changes nothing; a split header sets its lower-case name to its value unless the name is `__proto__`; keys it does not name keep their presence and value; well-formedness is kept |
| CurlParser.AddHeaders | curl-grabber.js:50-65 | the header loop keeps keys lower-case, values free of trailing carets and `__proto__` absent |
| CurlParser.HeaderLastWins | curl-grabber.js:50-65 | a header takes its value from the last split line that names it |
| CurlParser.HeaderUntouched | curl-grabber.js:50-65 | a header no split line names keeps its previous presence and value |
| CurlParser.HeaderLoop | curl-grabber.js:47-65 | the object built from an empty one by the `-H` loop is well formed |
| CurlParser.HeaderLoopLastWins | curl-grabber.js:47-65 | in the object the `-H` loop builds, a name carries the value of the last capture that names it |
| CurlParser.SetCookie | curl-grabber.js:69-75 | the cleaned cookie is stored under `cookie` and no other header changes |
| CurlParser.ExtractHeaders | curl-grabber.js:47-76 | the headers are well formed, and a `-b` match sets `cookie` to its cleaned capture, overriding any `-H` cookie |
| CurlParser.ParsedHeaderIsLastNamed | curl-grabber.js:47-76 | in the parsed headers a name carries the value of its last `-H` capture unless a `-b` cookie replaces it |
| CurlParser.ExtractBody | curl-grabber.js:79-88 | a body exists exactly when the data pattern matches; it is then the cleaned capture of the leftmost match, has no trailing caret, and the text ends in a quote |
| CurlParser.ParseCurl | curl-grabber.js:22-97 | the URL is the first `curl "…"` capture of the normalised transcript without its trailing carets (empty without one); the method is the upper-cased `-X` word, else POST with a body and GET without; a `-b` cookie sets `cookie`; the body is the cleaned first data capture and exists exactly when the data pattern matches |
| CurlParser.HeaderLoopOnlyNamed | curl-grabber.js:47-65 | a name no `-H` capture sets is absent from the object the loop builds |
| CurlParser.ParsedHeaderNeedsCapture | curl-grabber.js:28-76 | a header appears in the parsed request only if some `-H` capture sets it, or it is `cookie` and a `-b` argument matches; with neither, `cookie` is absent |
| CurlParser.ParsedHeaderRoundTrip | curl-grabber.js:22-76 | when the last `-H` argument naming a header is an exported `name: value` line, the parsed request maps the lower-cased name to exactly that value |
| CurlParser.ParsedBodyRoundTrip | curl-grabber.js:22-97 | a transcript whose data argument is an exported body parses to exactly that body |
| Grabber.Attempt | curl-grabber.js:163-208 | one attempt counts exactly once and moves each counter by at most one; on data whose reads do not throw (including a non-callable `message` that code 30003 or a 200/200 success never reaches) it agrees with the classification table and the cap; a rejection counts an error; success and only success stops with success |
| Grabber.TypeErrorCountsError | curl-grabber.js:172-207 | a TypeError while reading the data counts an error, after a failure already counted unless the body was `null` and the status 200, and leaves the run going unless the attempt cap is reached |
| Grabber.Run | curl-grabber.js:211-230 | counters never decrease, a stopped run ignores further events, and a run still going has made one attempt per firing |
| Grabber.InterruptStops | curl-grabber.js:298-301 | SIGINT stops a running run with failure and leaves the counters alone |
| Grabber.RunCountsEveryAttemptOnce | curl-grabber.js:164-201 | with readable responses, success + failed + errors equals attempts throughout a run |
| Grabber.RunSucceedsAtMostOnce | curl-grabber.js:172-176 | `success` is 1 exactly when the run stopped with success, and 0 otherwise |
| Grabber.RunRespectsCap | curl-grabber.js:203-207 | with a positive cap, a run never makes more attempts than the cap |
| Grabber.CapEndsContinuingRun | curl-grabber.js:203-207 | attempts that neither succeed nor stop end the run with failure after exactly the cap |
| Grabber.UncappedContinuingRunNeverStops | curl-grabber.js:186-196 | without a cap, codes that do not stop the run keep it going with one attempt per firing and no success |
| Grabber.RejectionsOnlyCountErrors | curl-grabber.js:198-201 | a run of rejected requests only counts attempts and errors |
| Grabber.SuccessfulAttempt | curl-grabber.js:164-176 | a readable success counts one attempt and one success and stops with success, whatever the cap |
| Grabber.StoppingFirstEvent | curl-grabber.js:211-230 | when the first event stops a running run, the run ends in the state that event produced |
| Grabber.SuccessFirstStopsRun | curl-grabber.js:172-176 | from any running state, a success on the next firing ends the run with one more attempt and one more success |
| Grabber.FirstSuccessStopsRun | curl-grabber.js:172-176 | a success on the first attempt stops with counters 1, 1, 0, 0 |
| Grabber.ConfiguredRunHasNoCap | curl-grabber.js:8 | with the shipped `maxAttempts` of 0 the cap never stops a run |
| Grabber.RunIgnoresEventsAfterStop | curl-grabber.js:230 | once the process has exited, later events change nothing |
| Grabber.Launch | curl-grabber.js:256-261 | an empty parsed URL stops with failure before any attempt; otherwise the result is the run over the events from zeroed counters |
| Grabber.Poll | curl-grabber.js:289-293 | the firing loop computes the run over the events and consumes them up to and including the one that stopped it |

## Left out

- `sendRequest` (lines 100-160) is left out: TLS, `content-length`, decompression and `JSON.parse`. Each attempt receives its outcome as an input, either a rejection or a status code with the parsed data.
- Timers are reduced to a sequence of events. Overlapping in-flight attempts are not modelled: the model applies each attempt atomically in firing order.
- Start and end times, the duration, and the attempts-per-second figure use `Date.now` and floating point. They only feed the report.
- Console output is left out. This includes the rule of logging details only on the first attempt or when the code is not 30001.
- `process.argv`, `fs.readFileSync` and the unreadable-file exit (lines 239-253) are not modelled. The model starts from the transcript text.
- The `item_id` display (lines 264-272) only affects output.
- `process.exit` is modelled as the terminal `Stopped` verdict, not as exit codes.
- JsText.Lower: models `toLowerCase` on ASCII letters only. Header names are normally ASCII, and Unicode case mapping is out of scope.
- JsText.Upper: models `toUpperCase` on ASCII only. The method capture is `\w+`, which is ASCII, so nothing is lost.
- Grabber.Attempt: models non-string elements of an array `message` as never equal to the marker. A number, boolean or plain-object `message` is modelled as a TypeError, because such a value has no callable `includes`. A `null` or missing `message` is modelled as absent: `?.includes` then gives `undefined` and does not throw.
- Strings are sequences of Unicode scalar values, whereas JavaScript strings are UTF-16 code units. Lone surrogates are not represented.
- CurlParser.ParseCurl: does not prove a round trip from a request to a generated transcript and back, because the model has no transcript generator. The round trips are proved per argument (`CleanExportedArg`, `HeaderExportRoundTrip`, `BodyExportRoundTrip`) and carried through to the parsed request by `ParsedHeaderRoundTrip` and `ParsedBodyRoundTrip`.
