/**
 * The polling engine of curl-grabber.js: one attempt of `handleRequest`
 * (lines 163-208) as a pure transition over the run statistics, the terminal
 * `stopGrabbing` (lines 211-231), the SIGINT handler (lines 298-301), and the
 * start-up guard of `main` (lines 256-261).
 *
 * The transport is not modelled: each attempt receives its outcome as an
 * input. A stop ends the process (`process.exit`), so a stopped run consumes
 * no further events.
 */
module Grabber {
  import opened Options
  import opened JsText
  import opened CurlParser

  /** `config.maxAttempts` as shipped (line 8): 0, meaning no limit. */
  const ConfiguredMaxAttempts: int := 0

  /** The counters of `stats` (lines 13-19); `startTime` only feeds the duration report. */
  datatype Stats = Stats(attempts: nat, success: nat, failed: nat, errors: nat)

  const Zero: Stats := Stats(0, 0, 0, 0)

  /** The value of `data.message`, as far as `message?.includes('已领取')` can tell. */
  datatype Message =
      // undefined or null: the optional chain yields undefined
    | Absent
      // a string: String.prototype.includes
    | Text(text: string)
      // an array: Array.prototype.includes; elements that are not strings never equal the marker and are omitted
    | TextList(items: seq<string>)
      // a number, boolean or plain object: `includes` is not a function and calling it throws
    | NotCallable

  /**
   * `result.data`. `Raw` is a body `JSON.parse` rejected (and behaves like a
   * parsed string, number or boolean: no `code`, no `message`); `Null` is a
   * body that parsed to `null`, on which reading a property throws.
   * `code` is Some(n) when it is a number equal to the integer n, None when
   * it is absent or anything else (no such value equals 200, 30001, 30003 or 10001).
   */
  datatype Data =
    | Raw(text: string)
    | Null
    | Object(code: Option<int>, message: Message)

  /** What `await sendRequest(...)` gives one attempt: a rejection, or the status code and data. */
  datatype Outcome = Rejected | Response(statusCode: int, data: Data)

  datatype Verdict = Running | Stopped(success: bool)

  datatype RunState = RunState(stats: Stats, verdict: Verdict)

  /** A JavaScript expression's completion: a value, or a thrown TypeError. */
  datatype Read<T> = Value(value: T) | Threw

  /** `result.data.code`. */
  function ReadCode(d: Data): Read<Option<int>> {
    match d
    case Raw(_) => Value(None)
    case Null => Threw
    case Object(code, _) => Value(code)
  }

  /** The "already claimed" marker of line 186. */
  const ClaimedMarker: string := "\U{5DF2}\U{9886}\U{53D6}"

  /** `result.data.message?.includes('已领取')`, truthiness included. */
  function ReadClaimed(d: Data): Read<bool> {
    match d
    case Raw(_) => Value(false)
    case Null => Threw
    case Object(_, m) =>
      match m
      case Absent => Value(false)
      case Text(t) => Value(Includes(t, ClaimedMarker))
      case TextList(items) => Value(ClaimedMarker in items)
      case NotCallable => Threw
  }

  /** The `catch` at lines 198-201: count an error and keep running. */
  function Caught(st: Stats): RunState {
    RunState(st.(errors := st.errors + 1), Running)
  }

  /**
   * Lines 172-196 on a response, with `attempts` already counted. Reading
   * `code` at line 181 only decides what is logged; when it throws, line 186
   * would throw in its place, so both land in the same `catch`.
   */
  function HandleResponse(st: Stats, statusCode: int, data: Data): RunState {
    if statusCode == 200 && ReadCode(data).Threw? then Caught(st)
    else if statusCode == 200 && ReadCode(data) == Value(Some(200)) then
      RunState(st.(success := st.success + 1), Stopped(true))
    else
      var st' := st.(failed := st.failed + 1);
      match ReadCode(data)
      case Threw => Caught(st')
      case Value(code) =>
        if code == Some(30003) then RunState(st', Stopped(false))
        else
          match ReadClaimed(data)
          case Threw => Caught(st')
          case Value(claimed) =>
            if claimed then RunState(st', Stopped(false))
            else if code == Some(30001) then RunState(st', Running)
            else if code == Some(10001) then RunState(st', Stopped(false))
            else RunState(st', Running)
  }

  /** Every counter of `b` is at least that of `a`. */
  predicate NoCounterDecreases(a: Stats, b: Stats) {
    a.attempts <= b.attempts && a.success <= b.success && a.failed <= b.failed && a.errors <= b.errors
  }

  function Outcomes(st: Stats): nat {
    st.success + st.failed + st.errors
  }

  /**
   * No property read of the data throws: it is not `null`, and a `message`
   * whose `includes` is not a function is never reached, because code 30003
   * short-circuits the `||` or status 200 with code 200 succeeds first.
   */
  predicate ReadsCleanly(o: Outcome) {
    o.Response? ==>
      && o.data != Null
      && (o.data.Object? && o.data.message == NotCallable ==>
            o.data.code == Some(30003) || (o.statusCode == 200 && o.data.code == Some(200)))
  }

  /** The outcome classes of the response table. */
  datatype Classification =
    | Success
    | AlreadyClaimed
    | NotYetOrNoLongerActive
    | AuthExpired
    | OtherFailure
    | TransportError

  function CodeOf(d: Data): Option<int> {
    match d
    case Object(code, _) => code
    case _ => None
  }

  predicate MentionsClaimed(d: Data) {
    match d
    case Object(_, Text(t)) => Includes(t, ClaimedMarker)
    case Object(_, TextList(items)) => ClaimedMarker in items
    case _ => false
  }

  /**
   * The classification table, in its order of precedence: success, then
   * already claimed (code 30003 or the marker in the message), then 30001,
   * then 10001, then any other failure; a rejection is a transport error.
   */
  function Classify(o: Outcome): Classification {
    match o
    case Rejected => TransportError
    case Response(sc, d) =>
      if sc == 200 && CodeOf(d) == Some(200) then Success
      else if CodeOf(d) == Some(30003) || MentionsClaimed(d) then AlreadyClaimed
      else if CodeOf(d) == Some(30001) then NotYetOrNoLongerActive
      else if CodeOf(d) == Some(10001) then AuthExpired
      else OtherFailure
  }

  /** The one counter each class increments. */
  function Tally(st: Stats, c: Classification): Stats {
    match c
    case Success => st.(success := st.success + 1)
    case TransportError => st.(errors := st.errors + 1)
    case _ => st.(failed := st.failed + 1)
  }

  /** Whether a class ends the run by itself, and how. */
  function TableVerdict(c: Classification): Verdict {
    match c
    case Success => Stopped(true)
    case AlreadyClaimed => Stopped(false)
    case AuthExpired => Stopped(false)
    case _ => Running
  }

  /** Lines 204-207: a run still going stops with failure once `attempts` reaches a positive cap. */
  function CapCheck(v: Verdict, attempts: nat, maxAttempts: int): Verdict {
    if v.Running? && maxAttempts > 0 && attempts >= maxAttempts then Stopped(false) else v
  }

  /**
   * One call of `handleRequest` (lines 163-208) while running: count the
   * attempt, classify the outcome, then stop with failure if the attempt cap
   * is reached and the classification has not already stopped the process.
   */
  function Attempt(st: Stats, o: Outcome, maxAttempts: int): (r: RunState)
    ensures r.stats.attempts == st.attempts + 1
    ensures NoCounterDecreases(st, r.stats)
    ensures r.stats.success <= st.success + 1 && r.stats.failed <= st.failed + 1 && r.stats.errors <= st.errors + 1
    ensures ReadsCleanly(o) ==> Outcomes(r.stats) == Outcomes(st) + 1
    ensures o.Rejected? ==> r.stats == st.(attempts := st.attempts + 1, errors := st.errors + 1)
    ensures o.Rejected? ==> (r.verdict.Stopped? <==> maxAttempts > 0 && r.stats.attempts >= maxAttempts)
    ensures r.verdict == Stopped(true) <==> r.stats.success == st.success + 1
    ensures maxAttempts > 0 && r.stats.attempts >= maxAttempts ==> r.verdict.Stopped?
    ensures ReadsCleanly(o) ==> r.stats == Tally(st.(attempts := st.attempts + 1), Classify(o))
    ensures ReadsCleanly(o) ==> r.verdict == CapCheck(TableVerdict(Classify(o)), st.attempts + 1, maxAttempts)
  {
    var counted := st.(attempts := st.attempts + 1);
    var after := match o
      case Rejected => Caught(counted)
      case Response(sc, data) => HandleResponse(counted, sc, data);
    RunState(after.stats, CapCheck(after.verdict, after.stats.attempts, maxAttempts))
  }

  /** What a timer firing or an interrupt does to a run. */
  datatype Event = Fire(outcome: Outcome) | Interrupt

  /** One event while running: an attempt, or SIGINT, which stops with failure and leaves the counters alone. */
  function Next(rs: RunState, e: Event, maxAttempts: int): RunState
    requires rs.verdict.Running?
  {
    match e
    case Fire(o) => Attempt(rs.stats, o, maxAttempts)
    case Interrupt => RunState(rs.stats, Stopped(false))
  }

  function CountFires(events: seq<Event>): (n: nat)
    ensures n <= |events|
  {
    if |events| == 0 then 0 else (if events[0].Fire? then 1 else 0) + CountFires(events[1..])
  }

  /**
   * The events a run sees in order (the immediate first attempt, then each
   * timer firing, with interrupts in between). Once stopped, the process has
   * exited and later events change nothing.
   */
  function Run(rs: RunState, events: seq<Event>, maxAttempts: int): (r: RunState)
    ensures NoCounterDecreases(rs.stats, r.stats)
    ensures rs.verdict.Stopped? ==> r == rs
    ensures r.stats.attempts <= rs.stats.attempts + CountFires(events)
    ensures r.verdict.Running? ==> r.stats.attempts == rs.stats.attempts + CountFires(events)
    decreases |events|
  {
    if rs.verdict.Stopped? || |events| == 0 then rs
    else Run(Next(rs, events[0], maxAttempts), events[1..], maxAttempts)
  }

  const Initial: RunState := RunState(Zero, Running)

  /**
   * `main` from the parsed transcript on (lines 256-293): an empty URL stops
   * with failure before any attempt; otherwise the run starts from zeroed
   * counters.
   */
  function Launch(text: string, events: seq<Event>, maxAttempts: int): (r: RunState)
    ensures ParseCurl(text).url == "" ==> r.verdict == Stopped(false) && r.stats == Zero
    ensures ParseCurl(text).url != "" ==> r.stats.attempts <= CountFires(events)
    ensures ParseCurl(text).url != "" ==> r == Run(Initial, events, maxAttempts)
  {
    if ParseCurl(text).url == "" then RunState(Zero, Stopped(false))
    else Run(Initial, events, maxAttempts)
  }

  /**
   * A TypeError inside the `try` (a `null` body, or a `message` whose
   * `includes` is not a function) is caught after `failed` may already have
   * been counted: such an attempt counts an error, and a failure too unless the
   * body was `null` and the status 200. Only then do two counters move in one attempt.
   * The catch does not stop polling: only the attempt cap can end the run.
   */
  lemma TypeErrorCountsError(st: Stats, o: Outcome, maxAttempts: int)
    requires o.Response? && !ReadsCleanly(o) && CodeOf(o.data) != Some(30003)
    requires !(o.statusCode == 200 && CodeOf(o.data) == Some(200))
    ensures Attempt(st, o, maxAttempts).stats ==
      if o.statusCode == 200 && o.data == Null then st.(attempts := st.attempts + 1, errors := st.errors + 1)
      else st.(attempts := st.attempts + 1, failed := st.failed + 1, errors := st.errors + 1)
    ensures Attempt(st, o, maxAttempts).verdict == CapCheck(Running, st.attempts + 1, maxAttempts)
  {
  }

  /** SIGINT ends a running run at once, counters untouched. */
  lemma InterruptStops(rs: RunState, rest: seq<Event>, maxAttempts: int)
    requires rs.verdict.Running?
    ensures Run(rs, [Interrupt] + rest, maxAttempts) == RunState(rs.stats, Stopped(false))
  {
    assert ([Interrupt] + rest)[1..] == rest;
  }

  /** All outcomes read cleanly in the attempts `events` can make. */
  ghost predicate CleanFires(events: seq<Event>) {
    forall n :: 0 <= n < |events| && events[n].Fire? ==> ReadsCleanly(events[n].outcome)
  }

  /** With readable outcomes, every attempt is counted exactly once as a success, failure or error. */
  lemma {:induction false} RunCountsEveryAttemptOnce(rs: RunState, events: seq<Event>, maxAttempts: int)
    requires Outcomes(rs.stats) == rs.stats.attempts
    requires CleanFires(events)
    ensures Outcomes(Run(rs, events, maxAttempts).stats) == Run(rs, events, maxAttempts).stats.attempts
    decreases |events|
  {
    if rs.verdict.Running? && |events| > 0 {
      assert forall n :: 0 <= n < |events| - 1 ==> events[1..][n] == events[n + 1];
      RunCountsEveryAttemptOnce(Next(rs, events[0], maxAttempts), events[1..], maxAttempts);
    }
  }

  /** `success` is 1 exactly when the run stopped with success, and 0 otherwise. */
  ghost predicate SuccessMatchesVerdict(rs: RunState) {
    rs.stats.success == if rs.verdict == Stopped(true) then 1 else 0
  }

  lemma {:induction false} RunSucceedsAtMostOnce(rs: RunState, events: seq<Event>, maxAttempts: int)
    requires SuccessMatchesVerdict(rs)
    ensures SuccessMatchesVerdict(Run(rs, events, maxAttempts))
    decreases |events|
  {
    if rs.verdict.Running? && |events| > 0 {
      RunSucceedsAtMostOnce(Next(rs, events[0], maxAttempts), events[1..], maxAttempts);
    }
  }

  /** With a positive cap, a run that starts under it never makes more attempts than the cap. */
  lemma {:induction false} RunRespectsCap(rs: RunState, events: seq<Event>, maxAttempts: int)
    requires maxAttempts > 0 && rs.stats.attempts <= maxAttempts
    requires rs.verdict.Running? ==> rs.stats.attempts < maxAttempts
    ensures Run(rs, events, maxAttempts).stats.attempts <= maxAttempts
    decreases |events|
  {
    if rs.verdict.Running? && |events| > 0 {
      RunRespectsCap(Next(rs, events[0], maxAttempts), events[1..], maxAttempts);
    }
  }

  /** An outcome the table lets the run survive: readable, and neither a success nor a stopping failure. */
  predicate Continues(o: Outcome) {
    ReadsCleanly(o) && TableVerdict(Classify(o)).Running?
  }

  ghost predicate ContinuingFires(events: seq<Event>) {
    forall n :: 0 <= n < |events| ==> events[n].Fire? && Continues(events[n].outcome)
  }

  /**
   * Attempts that never succeed or hit a stopping failure run until the cap:
   * with a positive cap and enough firings, the run stops with failure after
   * exactly `maxAttempts` attempts.
   */
  lemma {:induction false} CapEndsContinuingRun(rs: RunState, events: seq<Event>, maxAttempts: int)
    requires maxAttempts > 0 && rs.verdict.Running? && rs.stats.attempts < maxAttempts
    requires ContinuingFires(events) && rs.stats.attempts + |events| >= maxAttempts
    ensures Run(rs, events, maxAttempts).verdict == Stopped(false)
    ensures Run(rs, events, maxAttempts).stats.attempts == maxAttempts
    decreases |events|
  {
    assert events[0].Fire? && Continues(events[0].outcome);
    var next := Next(rs, events[0], maxAttempts);
    if next.verdict.Running? {
      assert forall n :: 0 <= n < |events| - 1 ==> events[1..][n] == events[n + 1];
      CapEndsContinuingRun(next, events[1..], maxAttempts);
    }
  }

  /**
   * Without a cap, attempts that never succeed or hit a stopping failure keep
   * the run going: every firing is an attempt and nothing stops it.
   */
  lemma {:induction false} UncappedContinuingRunNeverStops(rs: RunState, events: seq<Event>, maxAttempts: int)
    requires maxAttempts <= 0 && rs.verdict.Running? && ContinuingFires(events)
    ensures Run(rs, events, maxAttempts).verdict == Running
    ensures Run(rs, events, maxAttempts).stats.attempts == rs.stats.attempts + |events|
    ensures Run(rs, events, maxAttempts).stats.success == rs.stats.success
    decreases |events|
  {
    if |events| > 0 {
      assert events[0].Fire? && Continues(events[0].outcome);
      assert forall n :: 0 <= n < |events| - 1 ==> events[1..][n] == events[n + 1];
      UncappedContinuingRunNeverStops(Next(rs, events[0], maxAttempts), events[1..], maxAttempts);
    }
  }

  /** Every rejected attempt is an error and nothing else; without a cap the run never ends by itself. */
  lemma {:induction false} RejectionsOnlyCountErrors(rs: RunState, n: nat, maxAttempts: int)
    requires maxAttempts <= 0 && rs.verdict.Running?
    ensures Run(rs, seq(n, _ => Fire(Rejected)), maxAttempts) ==
      RunState(rs.stats.(attempts := rs.stats.attempts + n, errors := rs.stats.errors + n), Running)
    decreases n
  {
    if n > 0 {
      var events := seq(n, _ => Fire(Rejected));
      assert events[1..] == seq(n - 1, _ => Fire(Rejected));
      RejectionsOnlyCountErrors(Next(rs, events[0], maxAttempts), n - 1, maxAttempts);
    }
  }

  /** A readable success counts one attempt and one success and stops the run with success. */
  lemma SuccessfulAttempt(st: Stats, o: Outcome, maxAttempts: int)
    requires ReadsCleanly(o) && Classify(o) == Success
    ensures Attempt(st, o, maxAttempts) ==
      RunState(st.(attempts := st.attempts + 1, success := st.success + 1), Stopped(true))
  {
    var r := Attempt(st, o, maxAttempts);
    assert r.stats == Tally(st.(attempts := st.attempts + 1), Success);
    assert r.verdict == CapCheck(TableVerdict(Success), st.attempts + 1, maxAttempts);
  }

  /** A success on the first firing stops the run after exactly one attempt. */
  lemma FirstSuccessStopsRun(events: seq<Event>, maxAttempts: int)
    requires |events| > 0 && events[0].Fire? && ReadsCleanly(events[0].outcome)
    requires Classify(events[0].outcome) == Success
    ensures Run(Initial, events, maxAttempts) == RunState(Stats(1, 1, 0, 0), Stopped(true))
  {
    SuccessFirstStopsRun(Initial, events, maxAttempts);
  }

  /** From any running state, a success on the first firing ends the run with that one more attempt and success. */
  lemma SuccessFirstStopsRun(rs: RunState, events: seq<Event>, maxAttempts: int)
    requires rs.verdict.Running?
    requires |events| > 0 && events[0].Fire? && ReadsCleanly(events[0].outcome)
    requires Classify(events[0].outcome) == Success
    ensures Run(rs, events, maxAttempts) ==
      RunState(rs.stats.(attempts := rs.stats.attempts + 1, success := rs.stats.success + 1), Stopped(true))
  {
    SuccessfulAttempt(rs.stats, events[0].outcome, maxAttempts);
    StoppingFirstEvent(rs, events, maxAttempts);
  }

  /** When the first event stops a running run, the run ends in the state that event left. */
  lemma StoppingFirstEvent(rs: RunState, events: seq<Event>, maxAttempts: int)
    requires rs.verdict.Running? && |events| > 0 && Next(rs, events[0], maxAttempts).verdict.Stopped?
    ensures Run(rs, events, maxAttempts) == Next(rs, events[0], maxAttempts)
  {
  }

  /** With the shipped configuration the cap never stops a run. */
  lemma ConfiguredRunHasNoCap(rs: RunState, events: seq<Event>)
    requires rs.verdict.Running? && ContinuingFires(events)
    ensures Run(rs, events, ConfiguredMaxAttempts).verdict == Running
  {
    UncappedContinuingRunNeverStops(rs, events, ConfiguredMaxAttempts);
  }

  /** Running over `a + [e]` is running over `a`, then one more event if still running. */
  lemma {:induction false} RunSnoc(rs: RunState, a: seq<Event>, e: Event, maxAttempts: int)
    ensures Run(rs, a + [e], maxAttempts) ==
      var m := Run(rs, a, maxAttempts);
      if m.verdict.Stopped? then m else Next(m, e, maxAttempts)
    decreases |a|
  {
    if rs.verdict.Running? && |a| > 0 {
      assert (a + [e])[1..] == a[1..] + [e];
      RunSnoc(Next(rs, a[0], maxAttempts), a[1..], e, maxAttempts);
    } else if rs.verdict.Running? {
      assert a + [e] == [e];
    }
  }

  /** Once a prefix of the events has stopped the run, the rest is never seen. */
  lemma {:induction false} RunIgnoresEventsAfterStop(rs: RunState, a: seq<Event>, b: seq<Event>, maxAttempts: int)
    requires Run(rs, a, maxAttempts).verdict.Stopped?
    ensures Run(rs, a + b, maxAttempts) == Run(rs, a, maxAttempts)
    decreases |a|
  {
    if rs.verdict.Running? {
      assert |a| > 0;
      assert (a + b)[1..] == a[1..] + b;
      RunIgnoresEventsAfterStop(Next(rs, a[0], maxAttempts), a[1..], b, maxAttempts);
    }
  }

  /** Extending a prefix of the events by the next one, for the loop in `Poll`. */
  lemma TakeOneMore(events: seq<Event>, n: nat)
    requires n < |events|
    ensures events[..n + 1] == events[..n] + [events[n]]
  {
  }

  /** One more event of the loop in `Poll`: the prefix run advances by `Next`. */
  lemma PollStep(events: seq<Event>, consumed: nat, maxAttempts: int)
    requires consumed < |events| && Run(Initial, events[..consumed], maxAttempts).verdict.Running?
    ensures Run(Initial, events[..consumed + 1], maxAttempts) ==
      Next(Run(Initial, events[..consumed], maxAttempts), events[consumed], maxAttempts)
  {
    TakeOneMore(events, consumed);
    RunSnoc(Initial, events[..consumed], events[consumed], maxAttempts);
  }

  /** When the loop in `Poll` exits, the prefix run is the whole run. */
  lemma PollDone(events: seq<Event>, consumed: nat, maxAttempts: int)
    requires consumed <= |events|
    requires consumed < |events| ==> Run(Initial, events[..consumed], maxAttempts).verdict.Stopped?
    ensures Run(Initial, events, maxAttempts) == Run(Initial, events[..consumed], maxAttempts)
  {
    if consumed < |events| {
      assert events == events[..consumed] + events[consumed..];
      RunIgnoresEventsAfterStop(Initial, events[..consumed], events[consumed..], maxAttempts);
    } else {
      assert events[..consumed] == events;
    }
  }

  /**
   * The interval loop (lines 289-293) driven by a finite sequence of events:
   * fire until the run stops or the events run out. `consumed` counts the
   * events the process lived to see.
   */
  method Poll(events: seq<Event>, maxAttempts: int) returns (rs: RunState, consumed: nat)
    ensures consumed <= |events|
    ensures rs == Run(Initial, events, maxAttempts)
    ensures rs == Run(Initial, events[..consumed], maxAttempts)
    ensures rs.verdict.Running? ==> consumed == |events|
    ensures rs.verdict.Stopped? ==> 0 < consumed && Run(Initial, events[..consumed - 1], maxAttempts).verdict.Running?
  {
    rs := Initial;
    consumed := 0;
    while consumed < |events| && rs.verdict.Running?
      invariant consumed <= |events|
      invariant rs == Run(Initial, events[..consumed], maxAttempts)
      invariant rs.verdict.Stopped? ==> 0 < consumed && Run(Initial, events[..consumed - 1], maxAttempts).verdict.Running?
      decreases |events| - consumed
    {
      PollStep(events, consumed, maxAttempts);
      assert events[..consumed + 1][..consumed] == events[..consumed];
      rs := Next(rs, events[consumed], maxAttempts);
      consumed := consumed + 1;
    }
    PollDone(events, consumed, maxAttempts);
  }
}
