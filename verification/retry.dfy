/**
  `BlockPadTask.executeWithRetry` (index.js): call an operation up to
  `maxRetries` times; return its value on the first success; give up at once
  with `null` when the service says the faucet is on cooldown; otherwise log
  a warning, sleep 10 seconds and try again, giving up with `null` after the
  last attempt.

  The operation is an oracle: `op(k)` is what the k-th call (counting from 1)
  resolves or rejects with. A run reports what the retry helper returns, how
  many times it called the operation and the log and sleep events it
  produced, in order.
 */
module Retry {
  import opened Wrappers
  import opened JsText

  /** The text the service puts in `error` while the faucet is on cooldown. */
  const CooldownMarker: string := "Faucet on cooldown"

  /** The HTTP status that accompanies a cooldown refusal. */
  const CooldownStatus: int := 400

  /** The pause between two attempts, in seconds. */
  const RetryDelaySeconds: nat := 10

  /** The attempt limit every task method passes. */
  const TaskMaxRetries: int := 3

  /** Node error codes after which the final failure suggests a proxy problem. */
  const ConnectionFaultCodes: set<string> := {"ECONNRESET", "ECONNABORTED", "ETIMEDOUT"}

  /** The `error` field of a response body: absent (`undefined`/`null`, or no
      body at all), a string, or some other JSON value, recorded only by its
      JavaScript truthiness. */
  datatype BodyError = Missing | Text(text: string) | NonText(truthy: bool)

  /** The server's answer carried by a rejected request. */
  datatype Response = Response(status: int, error: BodyError, remainingHours: string)

  /** A rejected request: the response when the server answered, the
      transport-level message and the Node error code, if any. */
  datatype HttpError = HttpError(response: Option<Response>, message: string, code: Option<string>)

  /** What one call of the operation settles to. */
  datatype Outcome<V> = Succeeded(value: V) | Failed(error: HttpError)

  /** What the retry helper's promise settles to. `Undefined` is what falling
      off the end of the loop yields; `Rejected` is a `TypeError` thrown from
      inside the catch block. */
  datatype Result<V> = Returned(value: V) | Null | Undefined | Rejected

  /** The message a failure is reported with: the body's `error` field when
      it is truthy, the transport message otherwise. */
  datatype Message = BodyMessage(body: BodyError) | TransportMessage(text: string)

  /** The observable effects of a run, in order. */
  datatype Event =
    | AttemptFailed(attempt: int, message: Message)  // the warning before a retry
    | Slept(seconds: nat)
    | GaveUp(attempts: int, message: Message)        // "failed after N attempts"
    | ProxyHint                                      // "Proxy connection issue detected"
    | CooldownNotice(text: string)
    | RemainingHours(hours: string)

  datatype Run<V> = Run(result: Result<V>, calls: nat, events: seq<Event>)

  /** How the catch block treats one failure. */
  datatype Verdict = Cooldown(text: string, hours: string) | TypeFault | Ordinary

  /** The cooldown test `status === 400 && data?.error?.includes(marker)`.
      A non-string `error` has no `includes` method, so at status 400 the
      call itself throws. */
  function Classify(e: HttpError): (v: Verdict)
    ensures v.Cooldown? <==>
      e.response.Some? && e.response.value.status == CooldownStatus
      && e.response.value.error.Text? && Includes(e.response.value.error.text, CooldownMarker)
    ensures v.Cooldown? ==> e.response.value.error == Text(v.text) && v.hours == e.response.value.remainingHours
    ensures v.TypeFault? <==>
      e.response.Some? && e.response.value.status == CooldownStatus && e.response.value.error.NonText?
    ensures e.response.None? || e.response.value.status != CooldownStatus ==> v.Ordinary?
  {
    match e.response
    case None => Ordinary
    case Some(resp) =>
      if resp.status != CooldownStatus then Ordinary
      else
        match resp.error
        case Missing => Ordinary
        case NonText(_) => TypeFault
        case Text(t) => if Includes(t, CooldownMarker) then Cooldown(t, resp.remainingHours) else Ordinary
  }

  predicate Truthy(b: BodyError) {
    match b
    case Missing => false
    case Text(t) => t != []
    case NonText(t) => t
  }

  /** `error.response?.data?.error || error.message`. */
  function ReportedMessage(e: HttpError): (m: Message)
    ensures m.BodyMessage? <==> e.response.Some? && Truthy(e.response.value.error)
    ensures m.BodyMessage? ==> m.body == e.response.value.error && Truthy(m.body)
    ensures m.TransportMessage? ==> m.text == e.message
  {
    if e.response.Some? && Truthy(e.response.value.error) then BodyMessage(e.response.value.error)
    else TransportMessage(e.message)
  }

  predicate IsConnectionFault(code: Option<string>) {
    code.Some? && code.value in ConnectionFaultCodes
  }

  /** The proxy hint follows exactly the three listed Node error codes. */
  lemma ConnectionFaultExactly(code: Option<string>)
    ensures IsConnectionFault(code) <==>
      code == Some("ECONNRESET") || code == Some("ECONNABORTED") || code == Some("ETIMEDOUT")
  {
  }

  /** A cooldown refusal always carries a non-empty body `error`, so that is
      the text the failure would be reported with. */
  lemma CooldownBodyIsReported(e: HttpError)
    requires Classify(e).Cooldown?
    ensures ReportedMessage(e) == BodyMessage(Text(Classify(e).text))
  {
    IncludesLength(Classify(e).text, CooldownMarker);
  }

  /** A failure after which the loop goes on (or gives up on the last attempt). */
  predicate IsOrdinaryFailure<V>(o: Outcome<V>) {
    o.Failed? && Classify(o.error).Ordinary?
  }

  /** Every call from `from` up to, not including, `k` failed ordinarily. */
  ghost predicate OrdinaryBetween<V>(op: nat -> Outcome<V>, from: nat, k: nat) {
    forall j: nat :: from <= j < k ==> IsOrdinaryFailure(op(j))
  }

  /** How many `Slept` events a trace holds. */
  function SleepCount(events: seq<Event>): nat {
    if events == [] then 0
    else (if events[0].Slept? then 1 else 0) + SleepCount(events[1..])
  }

  lemma {:induction false} SleepCountConcat(a: seq<Event>, b: seq<Event>)
    ensures SleepCount(a + b) == SleepCount(a) + SleepCount(b)
    decreases |a|
  {
    if a == [] {
      assert a + b == b;
    } else {
      assert (a + b)[1..] == a[1..] + b;
      SleepCountConcat(a[1..], b);
    }
  }

  lemma {:induction false} SleepCountNone(events: seq<Event>)
    requires forall i :: 0 <= i < |events| ==> !events[i].Slept?
    ensures SleepCount(events) == 0
    decreases |events|
  {
    if events != [] {
      SleepCountNone(events[1..]);
    }
  }

  /** The attempt that ends the loop: a success returns its value, a
      cooldown refusal logs its two notices and yields `null`, a non-text
      cooldown body throws, and an ordinary failure (only ever the last
      attempt here) logs the final report, plus the proxy hint after a
      connection fault, and yields `null`. */
  function Settle<V>(o: Outcome<V>, maxRetries: int): (r: Run<V>)
    ensures r.calls == 1 && r.result != Undefined
    ensures r.result.Returned? <==> o.Succeeded?
  {
    match o
    case Succeeded(v) => Run(Returned(v), 1, [])
    case Failed(e) =>
      match Classify(e)
      case Cooldown(text, hours) => Run(Null, 1, [CooldownNotice(text), RemainingHours(hours)])
      case TypeFault => Run(Rejected, 1, [])
      case Ordinary =>
        Run(Null, 1, [GaveUp(maxRetries, ReportedMessage(e))] + (if IsConnectionFault(e.code) then [ProxyHint] else []))
  }

  /** The loop from attempt number `attempt` on: an ordinary failure before
      the last attempt logs a warning, sleeps and moves on; any other outcome
      settles the run. */
  function ExecuteFrom<V>(op: nat -> Outcome<V>, maxRetries: int, attempt: nat): (r: Run<V>)
    requires 1 <= attempt
    ensures attempt > maxRetries <==> r.calls == 0
    ensures attempt > maxRetries <==> r.result == Undefined
    ensures r.calls <= if attempt <= maxRetries then maxRetries - attempt + 1 else 0
    decreases if attempt <= maxRetries then maxRetries - attempt + 1 else 0
  {
    if attempt > maxRetries then Run(Undefined, 0, [])
    else if attempt < maxRetries && IsOrdinaryFailure(op(attempt)) then
      var rest := ExecuteFrom(op, maxRetries, attempt + 1);
      Run(rest.result, rest.calls + 1,
          [AttemptFailed(attempt, ReportedMessage(op(attempt).error)), Slept(RetryDelaySeconds)] + rest.events)
    else Settle(op(attempt), maxRetries)
  }

  /** The loop sleeps between consecutive calls and nowhere else, always for
      10 seconds. */
  lemma SleepsBetweenCalls<V>(op: nat -> Outcome<V>, maxRetries: int, attempt: nat)
    requires 1 <= attempt
    ensures var r := ExecuteFrom(op, maxRetries, attempt);
      && (r.calls > 0 ==> SleepCount(r.events) == r.calls - 1)
      && (forall i :: 0 <= i < |r.events| && r.events[i].Slept? ==> r.events[i].seconds == RetryDelaySeconds)
  {
    SleepCountFrom(op, maxRetries, attempt);
    SleepLengthFrom(op, maxRetries, attempt);
  }

  lemma {:induction false} SleepCountFrom<V>(op: nat -> Outcome<V>, maxRetries: int, attempt: nat)
    requires 1 <= attempt
    ensures var r := ExecuteFrom(op, maxRetries, attempt);
      r.calls > 0 ==> SleepCount(r.events) == r.calls - 1
    decreases if attempt <= maxRetries then maxRetries - attempt + 1 else 0
  {
    var r := ExecuteFrom(op, maxRetries, attempt);
    if attempt <= maxRetries && IsOrdinaryFailure(op(attempt)) && attempt < maxRetries {
      SleepCountFrom(op, maxRetries, attempt + 1);
      var rest := ExecuteFrom(op, maxRetries, attempt + 1);
      var warned := [AttemptFailed(attempt, ReportedMessage(op(attempt).error)), Slept(RetryDelaySeconds)];
      assert r.events == warned + rest.events;
      assert SleepCount(warned) == 1 by {
        var tail := [Slept(RetryDelaySeconds)];
        assert warned[1..] == tail && tail[1..] == [];
        assert SleepCount(tail) == 1 + SleepCount([]);
      }
      SleepCountConcat(warned, rest.events);
    } else if r.calls > 0 {
      SleepCountNone(r.events);
    }
  }

  /** Every sleep in `events` lasts `seconds`. */
  predicate SleepsLast(events: seq<Event>, seconds: int) {
    forall i :: 0 <= i < |events| && events[i].Slept? ==> events[i].seconds == seconds
  }

  lemma {:induction false} SleepLengthFrom<V>(op: nat -> Outcome<V>, maxRetries: int, attempt: nat)
    requires 1 <= attempt
    ensures SleepsLast(ExecuteFrom(op, maxRetries, attempt).events, RetryDelaySeconds)
    decreases if attempt <= maxRetries then maxRetries - attempt + 1 else 0
  {
    var r := ExecuteFrom(op, maxRetries, attempt);
    if attempt <= maxRetries && IsOrdinaryFailure(op(attempt)) && attempt < maxRetries {
      var rest := ExecuteFrom(op, maxRetries, attempt + 1);
      SleepLengthFrom(op, maxRetries, attempt + 1);
      assert SleepsLast(rest.events, RetryDelaySeconds);
      var warned := [AttemptFailed(attempt, ReportedMessage(op(attempt).error)), Slept(RetryDelaySeconds)];
      assert r.events == warned + rest.events;
      forall i | 0 <= i < |r.events| && r.events[i].Slept? ensures r.events[i].seconds == RetryDelaySeconds {
        if i >= 2 {
          assert r.events[i] == rest.events[i - 2];
        } else {
          assert r.events[i] == warned[i];
        }
      }
    }
  }

  /** `executeWithRetry(operation, maxRetries)`. */
  function Execute<V>(op: nat -> Outcome<V>, maxRetries: int): (r: Run<V>)
    ensures r.calls <= if maxRetries < 0 then 0 else maxRetries
    ensures maxRetries < 1 <==> r.result == Undefined
  {
    ExecuteFrom(op, maxRetries, 1)
  }

  /** Every task method allows three attempts: at most three calls and at
      most two 10-second pauses per task, whatever the service answers. */
  lemma TaskRetryBudget<V>(op: nat -> Outcome<V>)
    ensures var r := Execute(op, TaskMaxRetries);
      && 1 <= r.calls <= 3
      && SleepCount(r.events) <= 2
      && r.result != Undefined
  {
    SleepsBetweenCalls(op, TaskMaxRetries, 1);
  }

  /** One ordinary failure before the last attempt: a warning, a sleep and
      the rest of the loop. */
  lemma OrdinaryStep<V>(op: nat -> Outcome<V>, maxRetries: int, from: nat)
    requires 1 <= from < maxRetries
    requires IsOrdinaryFailure(op(from))
    ensures var r, rest := ExecuteFrom(op, maxRetries, from), ExecuteFrom(op, maxRetries, from + 1);
      r == Run(rest.result, rest.calls + 1,
               [AttemptFailed(from, ReportedMessage(op(from).error)), Slept(RetryDelaySeconds)] + rest.events)
  {
  }

  /** The warnings and sleeps logged for a stretch of failures from attempt
      `from` up to, not including, `k`: one warning and one 10-second sleep
      per attempt, in attempt order (the stretch stops at the first call
      that did not fail). */
  ghost function Warnings<V>(op: nat -> Outcome<V>, from: nat, k: nat): seq<Event>
    decreases k - from
  {
    if from < k && op(from).Failed? then
      [AttemptFailed(from, ReportedMessage(op(from).error)), Slept(RetryDelaySeconds)] + Warnings(op, from + 1, k)
    else []
  }

  /** A stretch of ordinary failures from `from` to `k` contributes exactly
      its warnings and sleeps, and hands the rest of the run to attempt `k`. */
  lemma {:induction false} OrdinaryStretch<V>(op: nat -> Outcome<V>, maxRetries: int, from: nat, k: nat)
    requires 1 <= from <= k <= maxRetries
    requires OrdinaryBetween(op, from, k)
    ensures var r, s := ExecuteFrom(op, maxRetries, from), ExecuteFrom(op, maxRetries, k);
      && r.result == s.result
      && r.calls == (k - from) + s.calls
      && r.events == Warnings(op, from, k) + s.events
    decreases k - from
  {
    if from < k {
      assert IsOrdinaryFailure(op(from));
      OrdinaryStretch(op, maxRetries, from + 1, k);
      OrdinaryStep(op, maxRetries, from);
      var r, r', s := ExecuteFrom(op, maxRetries, from), ExecuteFrom(op, maxRetries, from + 1), ExecuteFrom(op, maxRetries, k);
      var warned := [AttemptFailed(from, ReportedMessage(op(from).error)), Slept(RetryDelaySeconds)];
      assert r.result == r'.result && r.calls == r'.calls + 1 && r.events == warned + r'.events;
      assert r.events == warned + (Warnings(op, from + 1, k) + s.events);
      ConcatAssoc(warned, Warnings(op, from + 1, k), s.events);
    } else {
      assert Warnings(op, from, k) == [];
    }
  }

  /** The first success ends the run: its value is returned after exactly
      `k` calls, and the only events are the warnings and sleeps of the
      `k - 1` failures before it. */
  lemma FirstSuccessReturns<V>(op: nat -> Outcome<V>, maxRetries: int, k: nat)
    requires 1 <= k <= maxRetries
    requires OrdinaryBetween(op, 1, k)
    requires op(k).Succeeded?
    ensures var r := Execute(op, maxRetries);
      && r.result == Returned(op(k).value)
      && r.calls == k
      && r.events == Warnings(op, 1, k)
  {
    OrdinaryStretch(op, maxRetries, 1, k);
  }

  /** A cooldown refusal ends the run with `null` at once: no further call
      and no sleep after it; its two notices follow the earlier warnings. */
  lemma CooldownStopsRetrying<V>(op: nat -> Outcome<V>, maxRetries: int, k: nat)
    requires 1 <= k <= maxRetries
    requires OrdinaryBetween(op, 1, k)
    requires op(k).Failed? && Classify(op(k).error).Cooldown?
    ensures var r, v := Execute(op, maxRetries), Classify(op(k).error);
      && r.result == Null
      && r.calls == k
      && r.events == Warnings(op, 1, k) + [CooldownNotice(v.text), RemainingHours(v.hours)]
  {
    OrdinaryStretch(op, maxRetries, 1, k);
  }

  /** When every call fails ordinarily, the operation is called exactly
      `maxRetries` times, the result is `null`, and the run ends with the
      final-failure report, followed by the proxy hint exactly when the last
      error has a connection-fault code. */
  lemma PersistentFailureGivesUp<V>(op: nat -> Outcome<V>, maxRetries: int)
    requires 1 <= maxRetries
    requires OrdinaryBetween(op, 1, maxRetries + 1)
    ensures var r, e := Execute(op, maxRetries), op(maxRetries).error;
      && r.result == Null
      && r.calls == maxRetries
      && r.events == Warnings(op, 1, maxRetries) + [GaveUp(maxRetries, ReportedMessage(e))]
                     + (if IsConnectionFault(e.code) then [ProxyHint] else [])
  {
    assert IsOrdinaryFailure(op(maxRetries));
    OrdinaryStretch(op, maxRetries, 1, maxRetries);
  }

  /** A status-400 answer whose `error` is not a string makes the cooldown
      test throw: the helper's promise rejects after that call. */
  lemma NonTextCooldownTestRejects<V>(op: nat -> Outcome<V>, maxRetries: int, k: nat)
    requires 1 <= k <= maxRetries
    requires OrdinaryBetween(op, 1, k)
    requires op(k).Failed? && Classify(op(k).error).TypeFault?
    ensures var r := Execute(op, maxRetries);
      r.result == Rejected && r.calls == k && r.events == Warnings(op, 1, k)
  {
    OrdinaryStretch(op, maxRetries, 1, k);
  }

  /** The converse: every run is a stretch of ordinary failures ended by its
      last call, which either settled the run (success, cooldown, type fault)
      or was attempt number `maxRetries`; the result is read off that call. */
  lemma {:induction false} RunShapeFrom<V>(op: nat -> Outcome<V>, maxRetries: int, from: nat)
    requires 1 <= from
    ensures var r := ExecuteFrom(op, maxRetries, from); var last := from + r.calls - 1;
      r.calls > 0 ==>
        && OrdinaryBetween(op, from, last)
        && (last == maxRetries || !IsOrdinaryFailure(op(last)))
        && r.result == match op(last)
                       case Succeeded(v) => Returned(v)
                       case Failed(e) => if Classify(e).TypeFault? then Rejected else Null
    decreases if from <= maxRetries then maxRetries - from + 1 else 0
  {
    if from <= maxRetries && IsOrdinaryFailure(op(from)) && from < maxRetries {
      RunShapeFrom(op, maxRetries, from + 1);
    }
  }

  /** The whole run: see `RunShapeFrom`. */
  lemma RunShape<V>(op: nat -> Outcome<V>, maxRetries: int)
    ensures var r := Execute(op, maxRetries);
      r.calls > 0 ==>
        && OrdinaryBetween(op, 1, r.calls)
        && (r.calls == maxRetries || !IsOrdinaryFailure(op(r.calls)))
        && r.result == match op(r.calls)
                       case Succeeded(v) => Returned(v)
                       case Failed(e) => if Classify(e).TypeFault? then Rejected else Null
  {
    RunShapeFrom(op, maxRetries, 1);
  }

  /** The proxy hint is logged exactly when the run used up every attempt,
      each failing ordinarily, and the last error has a connection-fault
      code. */
  lemma {:induction false} ProxyHintFrom<V>(op: nat -> Outcome<V>, maxRetries: int, from: nat)
    requires 1 <= from
    ensures var r := ExecuteFrom(op, maxRetries, from);
      ProxyHint in r.events <==>
        && from <= maxRetries
        && OrdinaryBetween(op, from, maxRetries + 1)
        && IsConnectionFault(op(maxRetries).error.code)
    decreases if from <= maxRetries then maxRetries - from + 1 else 0
  {
    if from < maxRetries && IsOrdinaryFailure(op(from)) {
      ProxyHintFrom(op, maxRetries, from + 1);
      var r, r' := ExecuteFrom(op, maxRetries, from), ExecuteFrom(op, maxRetries, from + 1);
      assert r.events == [AttemptFailed(from, ReportedMessage(op(from).error)), Slept(RetryDelaySeconds)] + r'.events;
      assert OrdinaryBetween(op, from, maxRetries + 1) <==> OrdinaryBetween(op, from + 1, maxRetries + 1);
    } else if from <= maxRetries {
      assert !OrdinaryBetween(op, from, maxRetries + 1) || from == maxRetries;
    }
  }

  lemma ProxyHintOnlyAfterLastAttempt<V>(op: nat -> Outcome<V>, maxRetries: int)
    ensures var r := Execute(op, maxRetries);
      ProxyHint in r.events <==>
        && 1 <= maxRetries
        && OrdinaryBetween(op, 1, maxRetries + 1)
        && IsConnectionFault(op(maxRetries).error.code)
  {
    ProxyHintFrom(op, maxRetries, 1);
  }

  /** The loop of index.js:42-63 as written, statement by statement. */
  method ExecuteWithRetry<V>(op: nat -> Outcome<V>, maxRetries: int)
    returns (result: Result<V>, calls: nat, events: seq<Event>)
    ensures Run(result, calls, events) == Execute(op, maxRetries)
  {
    calls, events := 0, [];
    var attempt: nat := 1;
    while attempt <= maxRetries
      invariant 1 <= attempt && calls == attempt - 1
      invariant var whole, rest := Execute(op, maxRetries), ExecuteFrom(op, maxRetries, attempt);
        whole.result == rest.result && whole.calls == calls + rest.calls && whole.events == events + rest.events
      decreases maxRetries - attempt
    {
      calls := calls + 1;
      match op(attempt)
      case Succeeded(v) =>
        result := Returned(v);
        return;
      case Failed(e) =>
        match Classify(e)
        case Cooldown(text, hours) =>
          events := events + [CooldownNotice(text), RemainingHours(hours)];
          result := Null;
          return;
        case TypeFault =>
          result := Rejected;
          return;
        case Ordinary =>
          var message := ReportedMessage(e);
          if attempt == maxRetries {
            ConcatAssoc(events, [GaveUp(maxRetries, message)], [ProxyHint]);
            events := events + [GaveUp(maxRetries, message)];
            if IsConnectionFault(e.code) {
              events := events + [ProxyHint];
            }
            result := Null;
            return;
          }
          var warned := [AttemptFailed(attempt, message), Slept(RetryDelaySeconds)];
          ConcatAssoc(events, warned, ExecuteFrom(op, maxRetries, attempt + 1).events);
          events := events + warned;
      attempt := attempt + 1;
    }
    result := Undefined;
  }
}
