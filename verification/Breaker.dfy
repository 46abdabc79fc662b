/** The circuit breaker of FX/financial_client/client.py. */
module Breaker {
  import opened Values

  datatype Config = Config(threshold: int, recovery: real)

  datatype CircuitState = CLOSED | OPEN | HALF_OPEN

  /** The fields of the breaker. */
  datatype State = State(failures: nat, openedAt: Option<real>, probe: bool)

  const INITIAL := State(0, None, false)

  /** A call with the clock readings it makes; a failure reads the clock twice. */
  datatype Op = Before(now: real) | Success(now: real) | Failure(now: real, stamp: real)

  function StateAt(c: Config, s: State, now: real): CircuitState {
    if s.openedAt.None? then CLOSED
    else if now - s.openedAt.value >= c.recovery then HALF_OPEN
    else OPEN
  }

  predicate Admits(c: Config, s: State, now: real) {
    var state := StateAt(c, s, now);
    state != OPEN && !(state == HALF_OPEN && s.probe)
  }

  function Next(c: Config, s: State, op: Op): State {
    match op
    case Before(now) =>
      if Admits(c, s, now) && StateAt(c, s, now) == HALF_OPEN then s.(probe := true) else s
    case Success(_) => INITIAL
    case Failure(now, stamp) =>
      State(s.failures + 1,
            if StateAt(c, s, now) == HALF_OPEN || s.failures + 1 >= c.threshold then Some(stamp) else s.openedAt,
            false)
  }

  /** The state after the first `n` calls. */
  function Run(c: Config, ops: seq<Op>, n: nat): State
    requires n <= |ops|
  {
    if n == 0 then INITIAL else Next(c, Run(c, ops, n - 1), ops[n - 1])
  }

  function Fold(c: Config, s: State, ops: seq<Op>): State {
    if ops == [] then s else Next(c, Fold(c, s, ops[..|ops| - 1]), ops[|ops| - 1])
  }

  class CircuitBreaker {
    const config: Config
    var failures: nat
    var openedAt: Option<real>
    var halfOpenProbe: bool

    function Fields(): State
      reads this
    {
      State(failures, openedAt, halfOpenProbe)
    }

    constructor (threshold: int, recovery: real)
      ensures config == Config(threshold, recovery) && Fields() == INITIAL
    {
      config := Config(threshold, recovery);
      failures, openedAt, halfOpenProbe := 0, None, false;
    }

    /** False when CircuitOpen is raised. */
    method BeforeRequest(now: real) returns (admitted: bool)
      modifies this
      ensures admitted <==> Admits(config, old(Fields()), now)
      ensures Fields() == Next(config, old(Fields()), Before(now))
    {
      var state := StateAt(config, Fields(), now);
      if state == OPEN || (state == HALF_OPEN && halfOpenProbe) {
        return false;
      }
      if state == HALF_OPEN {
        halfOpenProbe := true;
      }
      return true;
    }

    method Succeed(now: real)
      modifies this
      ensures Fields() == Next(config, old(Fields()), Success(now))
    {
      failures, openedAt, halfOpenProbe := 0, None, false;
    }

    method Fail(now: real, stamp: real)
      modifies this
      ensures Fields() == Next(config, old(Fields()), Failure(now, stamp))
    {
      var wasHalfOpen := StateAt(config, Fields(), now) == HALF_OPEN;
      failures := failures + 1;
      if wasHalfOpen || failures >= config.threshold {
        openedAt := Some(stamp);
      }
      halfOpenProbe := false;
    }
  }

  // ---------------------------------------------------------------------------------------------
  // What every run keeps
  // ---------------------------------------------------------------------------------------------

  /** Failures reported since the last success. */
  function FailuresInARow(ops: seq<Op>, n: nat): nat
    requires n <= |ops|
  {
    if n == 0 || ops[n - 1].Success? then 0
    else FailuresInARow(ops, n - 1) + if ops[n - 1].Failure? then 1 else 0
  }

  /** The breaker is open exactly when the failures since the last success reach the threshold, and a probe
      is out only while it is open. */
  lemma {:induction false} OpensAtThreshold(c: Config, ops: seq<Op>, n: nat)
    requires c.threshold >= 1 && n <= |ops|
    ensures Run(c, ops, n).failures == FailuresInARow(ops, n)
    ensures Run(c, ops, n).openedAt.Some? <==> FailuresInARow(ops, n) >= c.threshold
    ensures Run(c, ops, n).probe ==> Run(c, ops, n).openedAt.Some?
  {
    if n > 0 {
      OpensAtThreshold(c, ops, n - 1);
    }
  }

  function EndOf(op: Op): real {
    if op.Failure? then op.stamp else op.now
  }

  /** A monotone clock: readings never go back, within a call or from one call to the next. */
  ghost predicate MonotoneClock(ops: seq<Op>) {
    && (forall i | 0 <= i < |ops| :: ops[i].now <= EndOf(ops[i]))
    && (forall i, j | 0 <= i < j < |ops| :: EndOf(ops[i]) <= ops[j].now)
  }

  ghost predicate AdmittedAt(c: Config, ops: seq<Op>, i: nat)
    requires i < |ops|
  {
    ops[i].Before? && Admits(c, Run(c, ops, i), ops[i].now)
  }

  ghost predicate Tripped(c: Config, ops: seq<Op>, m: nat, n: nat)
    requires m <= n <= |ops|
  {
    forall i | m <= i <= n :: Run(c, ops, i).openedAt.Some?
  }

  /** After an admission the probe stays out until the circuit is stamped open again. */
  lemma {:induction false} ProbeOrReopened(c: Config, ops: seq<Op>, i: nat, n: nat)
    requires c.threshold >= 1 && i < n <= |ops| && MonotoneClock(ops)
    requires Tripped(c, ops, i, n) && AdmittedAt(c, ops, i)
    ensures var s := Run(c, ops, n); s.probe || s.openedAt.value >= ops[i].now
    decreases n
  {
    if i + 1 < n {
      ProbeOrReopened(c, ops, i, n - 1);
      OpensAtThreshold(c, ops, n - 1);
      assert Run(c, ops, n - 1).openedAt.Some?;
      assert EndOf(ops[i]) <= ops[n - 1].now <= EndOf(ops[n - 1]);
    }
  }

  /** While the breaker stays tripped, whatever late outcomes arrive, any two admissions are at least the
      recovery time apart. */
  lemma AdmissionsAreApart(c: Config, ops: seq<Op>, i: nat, j: nat)
    requires c.threshold >= 1 && i < j < |ops| && MonotoneClock(ops)
    requires Tripped(c, ops, i, j) && AdmittedAt(c, ops, i) && AdmittedAt(c, ops, j)
    ensures ops[j].now - ops[i].now >= c.recovery
  {
    ProbeOrReopened(c, ops, i, j);
  }

  /** A probe whose outcome is never reported shuts everyone out: until some outcome arrives nothing is admitted,
      however long the recovery time has passed. */
  lemma {:induction false} ProbeHeldUntilOutcome(c: Config, ops: seq<Op>, m: nat, n: nat)
    requires m <= n <= |ops| && forall i | m <= i < n :: ops[i].Before?
    requires Run(c, ops, m).openedAt.Some? && Run(c, ops, m).probe
    ensures Run(c, ops, n) == Run(c, ops, m)
    ensures forall i | m <= i < n :: !AdmittedAt(c, ops, i)
    decreases n
  {
    if m < n {
      ProbeHeldUntilOutcome(c, ops, m, n - 1);
    }
  }

  ghost function Admissions(c: Config, ops: seq<Op>, m: nat, n: nat): nat
    requires m <= n <= |ops|
    decreases n
  {
    if n == m then 0 else Admissions(c, ops, m, n - 1) + if AdmittedAt(c, ops, n - 1) then 1 else 0
  }

  /** n recovery periods. */
  ghost function Periods(n: nat, recovery: real): real {
    if n == 0 then 0.0 else Periods(n - 1, recovery) + recovery
  }

  lemma {:induction false} PeriodsMultiply(n: nat, recovery: real)
    ensures Periods(n, recovery) == n as real * recovery
  {
    if n > 0 {
      PeriodsMultiply(n - 1, recovery);
      Distribute((n - 1) as real, recovery);
      assert n as real == (n - 1) as real + 1.0;
    }
  }

  lemma Distribute(x: real, y: real)
    ensures (x + 1.0) * y == x * y + y
  {
  }

  lemma {:induction false} AdmissionsSpread(c: Config, ops: seq<Op>, m: nat, n: nat) returns (last: nat)
    requires c.threshold >= 1 && m < n <= |ops| && MonotoneClock(ops) && Tripped(c, ops, m, n)
    requires AdmittedAt(c, ops, m)
    ensures m <= last < n && AdmittedAt(c, ops, last)
    ensures Admissions(c, ops, m, n) >= 1
    ensures Periods(Admissions(c, ops, m, n) - 1, c.recovery) <= ops[last].now - ops[m].now
    decreases n
  {
    if n == m + 1 {
      last := m;
    } else {
      var previous := AdmissionsSpread(c, ops, m, n - 1);
      last := previous;
      if AdmittedAt(c, ops, n - 1) {
        last := n - 1;
        AdmissionsAreApart(c, ops, previous, last);
      }
    }
  }

  lemma RateFromSpread(admissions: nat, recovery: real, span: real)
    requires recovery > 0.0 && admissions >= 1 && Periods(admissions - 1, recovery) <= span
    ensures admissions as real <= 1.0 + span / recovery
  {
    PeriodsMultiply(admissions - 1, recovery);
    DivideBy((admissions - 1) as real, recovery, span);
  }

  lemma DivideBy(x: real, y: real, z: real)
    requires y > 0.0 && x * y <= z
    ensures x <= z / y
  {
  }

  lemma {:induction false} AdmissionsFromNext(c: Config, ops: seq<Op>, m: nat, n: nat)
    requires m < n <= |ops| && !AdmittedAt(c, ops, m)
    ensures Admissions(c, ops, m, n) == Admissions(c, ops, m + 1, n)
    decreases n
  {
    if m + 1 < n {
      AdmissionsFromNext(c, ops, m, n - 1);
    }
  }

  lemma RateFromAdmission(c: Config, ops: seq<Op>, m: nat, n: nat)
    requires c.threshold >= 1 && c.recovery > 0.0
    requires m < n <= |ops| && MonotoneClock(ops) && Tripped(c, ops, m, n) && AdmittedAt(c, ops, m)
    ensures Admissions(c, ops, m, n) as real <= 1.0 + (ops[n - 1].now - ops[m].now) / c.recovery
  {
    var last := AdmissionsSpread(c, ops, m, n);
    assert ops[last].now <= ops[n - 1].now by {
      ClockOrder(ops, last, n - 1);
    }
    RateFromSpread(Admissions(c, ops, m, n), c.recovery, ops[n - 1].now - ops[m].now);
  }

  lemma ClockOrder(ops: seq<Op>, i: nat, j: nat)
    requires MonotoneClock(ops) && i <= j < |ops|
    ensures ops[i].now <= ops[j].now
  {
  }

  lemma LongerSpan(short: real, long: real, recovery: real)
    requires recovery > 0.0 && short <= long
    ensures short / recovery <= long / recovery
  {
  }

  /** So any stretch of a tripped period that lasts T admits at most 1 + T / recovery requests. */
  lemma {:induction false} TrippedAdmissionRate(c: Config, ops: seq<Op>, m: nat, n: nat)
    requires c.threshold >= 1 && c.recovery > 0.0
    requires m < n <= |ops| && MonotoneClock(ops) && Tripped(c, ops, m, n)
    ensures Admissions(c, ops, m, n) as real <= 1.0 + (ops[n - 1].now - ops[m].now) / c.recovery
    decreases n - m
  {
    if AdmittedAt(c, ops, m) {
      RateFromAdmission(c, ops, m, n);
    } else {
      AdmissionsFromNext(c, ops, m, n);
      if m + 1 < n {
        TrippedAdmissionRate(c, ops, m + 1, n);
        ClockOrder(ops, m, m + 1);
        LongerSpan(ops[n - 1].now - ops[m + 1].now, ops[n - 1].now - ops[m].now, c.recovery);
      }
    }
  }

  // ---------------------------------------------------------------------------------------------
  // Exactly which requests are admitted
  // ---------------------------------------------------------------------------------------------

  /** `f` is the last failure reported among the first n calls. */
  predicate IsLastFailure(ops: seq<Op>, n: nat, f: int)
    requires n <= |ops|
  {
    0 <= f < n && ops[f].Failure? && forall j | f < j < n :: !ops[j].Failure?
  }

  /** A tripped breaker is stamped by its last failure, and its probe is out exactly when a request was admitted
      since. */
  ghost predicate StampedAt(c: Config, ops: seq<Op>, n: nat, f: int)
    requires n <= |ops|
  {
    && IsLastFailure(ops, n, f)
    && Run(c, ops, n).openedAt == Some(ops[f].stamp)
    && (Run(c, ops, n).probe <==> exists j :: f < j < n && AdmittedAt(c, ops, j))
  }

  lemma {:induction false} TrippedByLastFailure(c: Config, ops: seq<Op>, n: nat) returns (f: int)
    requires c.threshold >= 1 && n <= |ops| && FailuresInARow(ops, n) >= c.threshold
    ensures StampedAt(c, ops, n, f)
  {
    OpensAtThreshold(c, ops, n - 1);
    if ops[n - 1].Failure? {
      f := n - 1;
    } else {
      f := TrippedByLastFailure(c, ops, n - 1);
      NextKeepsStamp(c, ops, n, f);
    }
  }

  lemma NextKeepsStamp(c: Config, ops: seq<Op>, n: nat, f: int)
    requires 0 < n <= |ops| && ops[n - 1].Before? && StampedAt(c, ops, n - 1, f)
    ensures StampedAt(c, ops, n, f)
  {
    var s := Run(c, ops, n - 1);
    assert Run(c, ops, n).probe <==> s.probe || AdmittedAt(c, ops, n - 1);
    if AdmittedAt(c, ops, n - 1) {
      assert f < n - 1 < n;
    }
    if j :| f < j < n - 1 && AdmittedAt(c, ops, j) {
      assert f < j < n;
    }
  }

  /** A request is admitted if and only if fewer failures than the threshold were reported since the last success, or
      the recovery time has passed since the last failure and no request has been admitted since it. */
  lemma AdmittedIff(c: Config, ops: seq<Op>, i: nat)
    requires c.threshold >= 1 && i < |ops| && ops[i].Before?
    ensures AdmittedAt(c, ops, i) <==>
            || FailuresInARow(ops, i) < c.threshold
            || exists f :: && IsLastFailure(ops, i, f) && ops[i].now - ops[f].stamp >= c.recovery
                           && forall j | f < j < i :: !AdmittedAt(c, ops, j)
  {
    OpensAtThreshold(c, ops, i);
    if FailuresInARow(ops, i) >= c.threshold {
      var f := TrippedByLastFailure(c, ops, i);
      assert forall g | IsLastFailure(ops, i, g) :: g == f;
    }
  }

  /** So a new breaker admits its first requests, however many, until one of them fails. */
  lemma HealthyIsAdmitted(c: Config, ops: seq<Op>, i: nat)
    requires c.threshold >= 1 && i < |ops| && ops[i].Before? && forall j | 0 <= j < i :: !ops[j].Failure?
    ensures AdmittedAt(c, ops, i)
  {
    NoFailures(ops, i);
    AdmittedIff(c, ops, i);
  }

  lemma {:induction false} NoFailures(ops: seq<Op>, n: nat)
    requires n <= |ops| && forall j | 0 <= j < n :: !ops[j].Failure?
    ensures FailuresInARow(ops, n) == 0
  {
    if n > 0 {
      NoFailures(ops, n - 1);
    }
  }
}
