/** The bounded attempt loop of FX/financial_client/client.py. */
module Client {
  import opened Values
  import Breaker

  datatype RawCode =
    | VALIDATION_FAILED | RESOURCE_NOT_FOUND | AUTHENTICATION_REQUIRED | AUTHORIZATION_DENIED | TENANT_MISMATCH
    | FEATURE_DISABLED | INSUFFICIENT_AVAILABLE_BALANCE | IDEMPOTENCY_CONFLICT
    | WITHDRAWAL_NOT_CANCELLABLE | WITHDRAWAL_ALREADY_PROCESSED
    | OTHER_CODE(text: string)

  datatype SafeCode =
    | VALIDATION_ERROR | NOT_FOUND | RESTRICTION | FINANCIAL_SERVICE_ERROR | PASSED_ON(code: RawCode)

  function SafeCodeOf(code: RawCode): SafeCode {
    match code
    case VALIDATION_FAILED => VALIDATION_ERROR
    case RESOURCE_NOT_FOUND => NOT_FOUND
    case AUTHENTICATION_REQUIRED => RESTRICTION
    case AUTHORIZATION_DENIED => RESTRICTION
    case TENANT_MISMATCH => RESTRICTION
    case OTHER_CODE(_) => FINANCIAL_SERVICE_ERROR
    case _ => PASSED_ON(code)
  }

  /** What one send meets. An unparsable or codeless body has the code OTHER_CODE. Uncaught is every other exit: another
      exception of the transport, or a JSON body that is not an object or whose code cannot be looked up. */
  datatype Transport =
    | Response(status: int, code: RawCode)
    | SslError
    | Timeout
    | ConnectionError
    | Uncaught

  /** A transport outcome and the time it would take if no timeout cut it short. */
  datatype Attempt = Attempt(outcome: Transport, duration: real)

  /** Connect and request timeouts, retry count. */
  datatype Settings = Settings(connect: real, request: real, retryCount: int)

  datatype Result =
    | Body(response: Transport)
    | Failed(code: SafeCode, status: int)
    | FeatureDisabled(status: int)
    | MtlsFailed
    | UnknownOutcome
    | RetriesExhausted
    | DeadlinePassed
    | CircuitOpen
    | Escaped
    | FellThrough

  function Min(x: real, y: real): real { if x <= y then x else y }

  function Max(x: real, y: real): real { if x >= y then x else y }

  function ConnectTimeout(s: Settings, remaining: real): real {
    Min(s.connect, Max(0.001, remaining / 2.0))
  }

  function RequestTimeout(s: Settings, remaining: real): real {
    Min(s.request, Max(0.001, remaining - ConnectTimeout(s, remaining)))
  }

  /** A transport that honours its timeouts spends no more than their sum. */
  function Elapsed(a: Attempt, budget: real): real {
    Max(0.0, Min(a.duration, budget))
  }

  /** The two timeouts together overrun the remaining time exactly in the last two milliseconds, when neither
      configured timeout is small enough to keep them inside it, and never by two milliseconds or more. */
  lemma TimeoutsOverrunIff(s: Settings, remaining: real)
    requires remaining > 0.0
    ensures var budget := ConnectTimeout(s, remaining) + RequestTimeout(s, remaining);
            && (budget > remaining <==>
                remaining < 0.002 && remaining - Min(s.connect, 0.001) < Min(s.request, 0.001))
            && (budget > remaining ==> budget <= 0.002)
  {
  }

  /** The connect timeout is the greatest within the configured one and half of what remains, the request timeout the
      greatest within the configured one and the rest; both may be a millisecond even when less than that is left. */
  lemma TimeoutsAreGreatest(s: Settings, remaining: real, t: real)
    ensures var connect := ConnectTimeout(s, remaining);
            && (t <= connect <==> t <= s.connect && (2.0 * t <= remaining || t <= 0.001))
            && (t <= RequestTimeout(s, remaining) <==> t <= s.request && (connect + t <= remaining || t <= 0.001))
  {
  }

  function Budget(s: Settings, remaining: real): real {
    ConnectTimeout(s, remaining) + RequestTimeout(s, remaining)
  }

  lemma AttemptEndsInTime(s: Settings, now: real, deadline: real, a: Attempt)
    requires now < deadline
    ensures now <= now + Elapsed(a, Budget(s, deadline - now)) < deadline + 0.002
  {
  }

  predicate Transient(status: int) {
    status == 500 || status == 502 || status == 503 || status == 504
  }

  predicate Disabled(t: Transport) {
    t.Response? && t.status >= 400 && t.code == FEATURE_DISABLED
  }

  /** The outcome reported to the breaker for a send: success or failure. */
  predicate Healthy(t: Transport) {
    t.Response? && (Disabled(t) || !Transient(t.status))
  }

  /** What the caller is told when this send is the last one. */
  function Verdict(safe: bool, t: Transport): Result {
    match t
    case SslError => MtlsFailed
    case Uncaught => Escaped
    case Timeout => if safe then RetriesExhausted else UnknownOutcome
    case ConnectionError => if safe then RetriesExhausted else UnknownOutcome
    case Response(status, code) =>
      if Disabled(t) then FeatureDisabled(status)
      else if status >= 400 then Failed(SafeCodeOf(code), status)
      else Body(t)
  }

  /** A send is reported as healthy exactly when it was answered, and not by one of the four transient statuses unless
      with a disabled feature. */
  lemma HealthyIff(t: Transport)
    ensures Healthy(t) <==>
            && t.Response?
            && (|| (t.status != 500 && t.status != 502 && t.status != 503 && t.status != 504)
                || t.code == FEATURE_DISABLED)
  {
  }

  /** What each last send comes to. */
  lemma VerdictIff(safe: bool, t: Transport)
    ensures var v := Verdict(safe, t);
            && (v == MtlsFailed <==> t.SslError?)
            && (v == Escaped <==> t.Uncaught?)
            && (v == UnknownOutcome <==> !safe && (t.Timeout? || t.ConnectionError?))
            && (v == RetriesExhausted <==> safe && (t.Timeout? || t.ConnectionError?))
            && (v == Body(t) <==> t.Response? && t.status < 400)
            && (t.Response? && t.status >= 400 ==>
                  v == if t.code == FEATURE_DISABLED then FeatureDisabled(t.status)
                       else Failed(SafeCodeOf(t.code), t.status))
  {
  }

  /** What the caller is told of an error code: three kinds of its own, five passed on as they are, nothing else. */
  lemma SafeCodes(code: RawCode)
    ensures SafeCodeOf(code) == VALIDATION_ERROR <==> code == VALIDATION_FAILED
    ensures SafeCodeOf(code) == NOT_FOUND <==> code == RESOURCE_NOT_FOUND
    ensures SafeCodeOf(code) == RESTRICTION <==>
            code == AUTHENTICATION_REQUIRED || code == AUTHORIZATION_DENIED || code == TENANT_MISMATCH
    ensures SafeCodeOf(code) == PASSED_ON(code) <==>
            code == FEATURE_DISABLED || code == INSUFFICIENT_AVAILABLE_BALANCE || code == IDEMPOTENCY_CONFLICT ||
            code == WITHDRAWAL_NOT_CANCELLABLE || code == WITHDRAWAL_ALREADY_PROCESSED
    ensures SafeCodeOf(code) == FINANCIAL_SERVICE_ERROR <==> code.OTHER_CODE?
  {
  }

  function Allowance(safe: bool, retryCount: int): int {
    1 + if safe then retryCount else 0
  }

  /** A breaker call, and whether this request or another one sharing the breaker made it. */
  datatype Traced = Traced(own: bool, op: Breaker.Op)

  function OpsOf(trace: seq<Traced>): seq<Breaker.Op> {
    seq(|trace|, i requires 0 <= i < |trace| => trace[i].op)
  }

  function OwnOps(trace: seq<Traced>): seq<Breaker.Op> {
    if trace == [] then []
    else
      var last := trace[|trace| - 1];
      OwnOps(trace[..|trace| - 1]) + if last.own then [last.op] else []
  }

  lemma TraceAppend(c: Breaker.Config, s: Breaker.State, trace: seq<Traced>, t: Traced)
    ensures StateAfter(c, s, trace + [t]) == Breaker.Next(c, StateAfter(c, s, trace), t.op)
    ensures OwnOps(trace + [t]) == OwnOps(trace) + if t.own then [t.op] else []
  {
    assert (trace + [t])[..|trace|] == trace;
    assert OpsOf(trace + [t]) == OpsOf(trace) + [t.op];
    assert OpsOf(trace + [t])[..|trace|] == OpsOf(trace);
  }

  /** The state of a breaker that started in `s` and met the calls of a trace. */
  ghost function StateAfter(c: Breaker.Config, s: Breaker.State, trace: seq<Traced>): Breaker.State {
    Breaker.Fold(c, s, OpsOf(trace))
  }

  /** Every admission this request asked for was granted by the breaker as it then stood. */
  ghost predicate AllGranted(c: Breaker.Config, s: Breaker.State, trace: seq<Traced>) {
    forall i | 0 <= i < |trace| :: Granted(c, s, trace[..i], trace[i])
  }

  ghost predicate Granted(c: Breaker.Config, s: Breaker.State, before: seq<Traced>, t: Traced) {
    t.own && t.op.Before? ==> Breaker.Admits(c, StateAfter(c, s, before), t.op.now)
  }

  lemma GrantOne(c: Breaker.Config, s: Breaker.State, trace: seq<Traced>, t: Traced)
    requires AllGranted(c, s, trace) && Granted(c, s, trace, t)
    ensures AllGranted(c, s, trace + [t])
  {
    forall i | 0 <= i < |trace| + 1 ensures Granted(c, s, (trace + [t])[..i], (trace + [t])[i]) {
      assert (trace + [t])[..i] == trace[..i];
      assert i < |trace| ==> Granted(c, s, trace[..i], trace[i]);
    }
  }

  /** The request's own breaker calls: an admission and then exactly one outcome for each send, in order, with
      one more admission, refused or without an outcome, when it is left unanswered. */
  ghost predicate ReportsEachSend(own: seq<Breaker.Op>, sent: seq<Transport>, unanswered: bool) {
    && |own| == 2 * |sent| + (if unanswered then 1 else 0)
    && (unanswered ==> own[|own| - 1].Before?)
    && (forall i | 0 <= i < |sent| ::
          && own[2 * i].Before?
          && (if Healthy(sent[i]) then own[2 * i + 1].Success? else own[2 * i + 1].Failure?))
  }

  /** The sends whose outcome is reported: all but one that escaped. */
  function Reported(sent: seq<Transport>): seq<Transport> {
    if sent != [] && sent[|sent| - 1].Uncaught? then sent[..|sent| - 1] else sent
  }

  /** Calls made by other requests that share the breaker. */
  method Interfere(
    breaker: Breaker.CircuitBreaker, ops: seq<Breaker.Op>, ghost s: Breaker.State, ghost before: seq<Traced>)
    returns (ghost trace: seq<Traced>)
    requires breaker.Fields() == StateAfter(breaker.config, s, before) && AllGranted(breaker.config, s, before)
    modifies breaker
    ensures breaker.Fields() == StateAfter(breaker.config, s, trace) && AllGranted(breaker.config, s, trace)
    ensures OwnOps(trace) == OwnOps(before)
  {
    trace := before;
    for i := 0 to |ops|
      invariant breaker.Fields() == StateAfter(breaker.config, s, trace) && AllGranted(breaker.config, s, trace)
      invariant OwnOps(trace) == OwnOps(before)
    {
      GrantOne(breaker.config, s, trace, Traced(false, ops[i]));
      TraceAppend(breaker.config, s, trace, Traced(false, ops[i]));
      trace := trace + [Traced(false, ops[i])];
      match ops[i] {
        case Before(now) => var _ := breaker.BeforeRequest(now);
        case Success(now) => breaker.Succeed(now);
        case Failure(now, stamp) => breaker.Fail(now, stamp);
      }
    }
  }

  /** The admission of one attempt, after whatever other requests did to the breaker. */
  method Admit(
    breaker: Breaker.CircuitBreaker, others: seq<Breaker.Op>, now: real, ghost s: Breaker.State,
    ghost before: seq<Traced>)
    returns (admitted: bool, ghost trace: seq<Traced>)
    requires breaker.Fields() == StateAfter(breaker.config, s, before) && AllGranted(breaker.config, s, before)
    modifies breaker
    ensures breaker.Fields() == StateAfter(breaker.config, s, trace)
    ensures admitted ==> AllGranted(breaker.config, s, trace)
    ensures !admitted ==> trace != [] && AllGranted(breaker.config, s, trace[..|trace| - 1]) &&
                          !Breaker.Admits(breaker.config, breaker.Fields(), now)
    ensures OwnOps(trace) == OwnOps(before) + [Breaker.Before(now)]
  {
    trace := Interfere(breaker, others, s, before);
    ghost var asked := Traced(true, Breaker.Before(now));
    TraceAppend(breaker.config, s, trace, asked);
    admitted := breaker.BeforeRequest(now);
    if admitted {
      GrantOne(breaker.config, s, trace, asked);
    }
    assert (trace + [asked])[..|trace|] == trace;
    trace := trace + [asked];
  }

  /** The outcome of one attempt, reported after whatever other requests did to the breaker. */
  method Report(
    breaker: Breaker.CircuitBreaker, others: seq<Breaker.Op>, now: real, reply: Transport,
    ghost s: Breaker.State, ghost before: seq<Traced>)
    returns (ghost trace: seq<Traced>)
    requires breaker.Fields() == StateAfter(breaker.config, s, before) && AllGranted(breaker.config, s, before)
    modifies breaker
    ensures breaker.Fields() == StateAfter(breaker.config, s, trace) && AllGranted(breaker.config, s, trace)
    ensures OwnOps(trace) == OwnOps(before) + [OutcomeOp(reply, now)]
  {
    trace := Interfere(breaker, others, s, before);
    GrantOne(breaker.config, s, trace, Traced(true, OutcomeOp(reply, now)));
    TraceAppend(breaker.config, s, trace, Traced(true, OutcomeOp(reply, now)));
    trace := trace + [Traced(true, OutcomeOp(reply, now))];
    if !reply.Response? {
      breaker.Fail(now, now);
    } else if reply.status >= 400 && SafeCodeOf(reply.code) == PASSED_ON(FEATURE_DISABLED) {
      breaker.Succeed(now);
    } else if Transient(reply.status) {
      breaker.Fail(now, now);
    } else {
      breaker.Succeed(now);
    }
  }

  function OutcomeOp(reply: Transport, now: real): Breaker.Op {
    if Healthy(reply) then Breaker.Success(now) else Breaker.Failure(now, now)
  }

  /** One attempt up to its report: timeouts from the remaining time, admission, send, outcome. */
  method AttemptOnce(
    breaker: Breaker.CircuitBreaker, settings: Settings, attempt: Attempt, now: real, deadline: real,
    othersBefore: seq<Breaker.Op>, othersDuring: seq<Breaker.Op>,
    ghost s: Breaker.State, ghost before: seq<Traced>, ghost sent: seq<Transport>)
    returns (admitted: bool, ended: real, ghost trace: seq<Traced>)
    requires now < deadline
    requires breaker.Fields() == StateAfter(breaker.config, s, before) && AllGranted(breaker.config, s, before)
    requires ReportsEachSend(OwnOps(before), sent, false)
    modifies breaker
    ensures now <= ended < deadline + 0.002
    ensures breaker.Fields() == StateAfter(breaker.config, s, trace)
    ensures admitted ==> AllGranted(breaker.config, s, trace) &&
                         ReportsEachSend(OwnOps(trace), Reported(sent + [attempt.outcome]), attempt.outcome.Uncaught?)
    ensures !admitted ==> ended == now && trace != [] && AllGranted(breaker.config, s, trace[..|trace| - 1]) &&
                          !Breaker.Admits(breaker.config, breaker.Fields(), now) &&
                          ReportsEachSend(OwnOps(trace), sent, true)
  {
    var remaining := deadline - now;
    var connect, request := ConnectTimeout(settings, remaining), RequestTimeout(settings, remaining);
    ended := now;
    AttemptEndsInTime(settings, now, deadline, attempt);
    admitted, trace := Admit(breaker, othersBefore, now, s, before);
    if !admitted {
      return;
    }
    ended := now + Elapsed(attempt, connect + request);
    if attempt.outcome.Uncaught? {
      return;
    }
    trace := Report(breaker, othersDuring, ended, attempt.outcome, s, trace);
  }

  /** What the branches after a send decide: None to try again, otherwise the caller's result. */
  method Decide(safe: bool, reply: Transport, last: bool, late: bool) returns (decision: Option<Result>)
    requires !safe ==> last
    ensures decision.Some? ==> decision.value == Verdict(safe, reply)
    ensures decision.None? <==> !last && (reply.Timeout? || reply.ConnectionError? ||
                                          (reply.Response? && reply.status in {500, 502, 503, 504} &&
                                           reply.code != FEATURE_DISABLED && !late))
  {
    if reply.Uncaught? {
      return Some(Escaped);
    }
    if reply.SslError? {
      return Some(MtlsFailed);
    }
    if reply.Timeout? || reply.ConnectionError? {
      if !safe {
        return Some(UnknownOutcome);
      }
      if last {
        return Some(RetriesExhausted);
      }
      return None;
    }
    var code := SafeCodeOf(reply.code);
    if reply.status >= 400 && code == PASSED_ON(FEATURE_DISABLED) {
      return Some(FeatureDisabled(reply.status));
    }
    if Transient(reply.status) {
      if safe && !last && !late {
        return None;
      }
    }
    if reply.status >= 400 {
      return Some(Failed(code, reply.status));
    }
    return Some(Body(reply));
  }

  /** Every send but the last was a read that met a retryable failure. */
  ghost predicate SendsJustified(safe: bool, transport: nat -> Attempt, sent: seq<Transport>, n: nat)
    requires n <= |sent|
  {
    && (forall i | 0 <= i < |sent| :: sent[i] == transport(i).outcome)
    && (n > 0 ==> safe)
    && (forall i | 0 <= i < n :: !Healthy(sent[i]) && !sent[i].SslError? && !sent[i].Uncaught?)
  }

  lemma JustifyOne(safe: bool, transport: nat -> Attempt, sent: seq<Transport>)
    requires SendsJustified(safe, transport, sent, |sent|)
    ensures SendsJustified(safe, transport, sent + [transport(|sent|).outcome], |sent|)
  {
  }

  /** A request that goes on: every send so far was a retryable read, admitted and reported. */
  ghost predicate Going(
    c: Breaker.Config, s: Breaker.State, fields: Breaker.State, safe: bool, transport: nat -> Attempt,
    sent: seq<Transport>, trace: seq<Traced>)
  {
    && SendsJustified(safe, transport, sent, |sent|)
    && fields == StateAfter(c, s, trace) && AllGranted(c, s, trace)
    && ReportsEachSend(OwnOps(trace), sent, false)
  }

  /** How a request ends before its attempts run out: the result is the verdict on the last send unless the deadline had
      passed or the circuit was open, retries stop early only for a reason, and the breaker was told everything but the
      outcome of a send that escaped. */
  ghost predicate Ends(
    c: Breaker.Config, s: Breaker.State, fields: Breaker.State, safe: bool, allowance: int, deadline: real,
    transport: nat -> Attempt, result: Result, sent: seq<Transport>, ended: real, trace: seq<Traced>)
  {
    && |sent| <= allowance && SendsJustified(safe, transport, sent, Max0(|sent| - 1))
    && !result.FellThrough?
    && (result.DeadlinePassed? ==> deadline <= ended)
    && (result.CircuitOpen? ==> trace != [] && !Breaker.Admits(c, fields, ended))
    && (!result.DeadlinePassed? && !result.CircuitOpen? ==> sent != [] && result == Verdict(safe, sent[|sent| - 1]))
    && (result.RetriesExhausted? ==> |sent| == allowance)
    && (result.Failed? && !Healthy(sent[|sent| - 1]) ==> |sent| == allowance || deadline <= ended)
    && fields == StateAfter(c, s, trace)
    && AllGranted(c, s, if result.CircuitOpen? then trace[..|trace| - 1] else trace)
    && (result.Escaped? <==> sent != [] && sent[|sent| - 1].Uncaught?)
    && ReportsEachSend(OwnOps(trace), Reported(sent), result.CircuitOpen? || result.Escaped?)
  }

  lemma GoingReported(safe: bool, transport: nat -> Attempt, sent: seq<Transport>)
    requires SendsJustified(safe, transport, sent, |sent|)
    ensures Reported(sent) == sent
    ensures SendsJustified(safe, transport, sent, Max0(|sent| - 1))
  {
  }

  /** One turn of the loop. */
  method Turn(
    breaker: Breaker.CircuitBreaker, settings: Settings, safe: bool, allowance: int, deadline: real,
    transport: nat -> Attempt, othersBefore: seq<Breaker.Op>, othersDuring: seq<Breaker.Op>, now: real,
    sentBefore: seq<Transport>, ghost s: Breaker.State, ghost traceBefore: seq<Traced>)
    returns (result: Option<Result>, sent: seq<Transport>, ended: real, ghost trace: seq<Traced>)
    requires |sentBefore| < allowance && (!safe ==> allowance == 1)
    requires Going(breaker.config, s, breaker.Fields(), safe, transport, sentBefore, traceBefore)
    modifies breaker
    ensures now <= ended && (now < deadline ==> ended < deadline + 0.002) && (deadline <= now ==> ended == now)
    ensures result.None? ==>
              |sent| == |sentBefore| + 1 < allowance &&
              Going(breaker.config, s, breaker.Fields(), safe, transport, sent, trace)
    ensures result.Some? ==>
              Ends(breaker.config, s, breaker.Fields(), safe, allowance, deadline, transport, result.value, sent, ended,
                   trace)
  {
    sent, ended, trace := sentBefore, now, traceBefore;
    GoingReported(safe, transport, sent);
    var remaining := deadline - now;
    if remaining <= 0.0 {
      return Some(DeadlinePassed), sent, ended, trace;
    }
    var admitted;
    admitted, ended, trace := AttemptOnce(
      breaker, settings, transport(|sent|), now, deadline, othersBefore, othersDuring, s, trace, sent);
    if !admitted {
      return Some(CircuitOpen), sent, ended, trace;
    }
    var reply := transport(|sent|).outcome;
    JustifyOne(safe, transport, sent);
    sent := sent + [reply];
    result := Decide(safe, reply, |sent| == allowance, ended >= deadline);
    return result, sent, ended, trace;
  }

  /** One request: `transport` answers the sends, and `others` supplies the breaker calls that other requests
      make before each admission and before each outcome. The result, the sends, the time and the breaker
      calls are all accounted for. */
  method RequestAttempts(
    breaker: Breaker.CircuitBreaker, settings: Settings, safe: bool, started: real, deadline: real,
    transport: nat -> Attempt, others: nat -> seq<Breaker.Op>)
    returns (result: Result, sent: seq<Transport>, ended: real, ghost trace: seq<Traced>)
    modifies breaker
    ensures |sent| <= if !safe then 1 else if settings.retryCount < 0 then 0 else 1 + settings.retryCount
    ensures started <= deadline ==> started <= ended < deadline + 0.002
    ensures result.FellThrough? <==> safe && settings.retryCount < 0
    ensures result.FellThrough? ==> sent == [] && trace == [] && breaker.Fields() == old(breaker.Fields())
    ensures !result.FellThrough? ==>
              Ends(breaker.config, old(breaker.Fields()), breaker.Fields(), safe,
                   if safe then 1 + settings.retryCount else 1, deadline, transport, result, sent, ended, trace)
  {
    var attempts := Allowance(safe, settings.retryCount);
    ghost var s := breaker.Fields();
    sent, ended, trace := [], started, [];
    while |sent| < attempts
      invariant |sent| > 0 ==> |sent| < attempts
      invariant |sent| == 0 ==> trace == [] && breaker.Fields() == s
      invariant started <= deadline ==> started <= ended < deadline + 0.002
      invariant Going(breaker.config, s, breaker.Fields(), safe, transport, sent, trace)
      decreases attempts - |sent|
    {
      var decision;
      decision, sent, ended, trace := Turn(
        breaker, settings, safe, attempts, deadline, transport, others(2 * |sent|), others(2 * |sent| + 1), ended, sent,
        s, trace);
      if decision.Some? {
        return decision.value, sent, ended, trace;
      }
    }
    return FellThrough, sent, ended, trace;
  }

  function Max0(n: int): nat { if n < 0 then 0 else n }
}
