/** Financial projection sequencing and snapshot recovery: FX/financial_boundary/realtime.py. */
module Projection {
  import opened Values
  import opened Payloads

  datatype Scope = Scope(tenant: string, subject: string, topic: Topic)

  datatype Event = Event(id: string, scope: Scope, sequence: int, payload: Json)

  /** One row of financial_projection_cursors. */
  datatype Cursor = Cursor(
    lastSequence: nat,
    lastEventId: Option<string>,
    snapshotVersion: nat,
    projection: Json,
    projectionHash: string)

  /** A snapshot document; the two references are in the text form the source compares. */
  datatype Snapshot = Snapshot(
    tenantRef: string,
    subjectRef: string,
    sequence: Json,
    version: Json,
    projection: Value)

  datatype Status = DUPLICATE | STALE | GAP_RECOVERY_REQUIRED | APPLIED | SNAPSHOT_REPLACED

  datatype Error = ContractError | SequenceConflict | ReducerError

  datatype Outcome =
    | Done(status: Status, last: nat, expected: nat, endpoint: Option<string>)
    | Raised(error: Error)

  /** What the operations are given: the caller's reducer (None when it raises), the payload contract
      (None when it raises) and the digest of a canonical payload. The results hold for every such triple. */
  datatype Env = Env(
    reducer: (Json, Json) -> Option<Value>,
    canonical: Value -> Option<Json>,
    digest: Json -> string)

  /** The triple of the source: its payload contract is Payloads.Canonical. */
  function SourceEnv(reducer: (Json, Json) -> Option<Value>, lower: Lower, digest: Json -> string): Env {
    Env(reducer, payload => Canonical(lower, payload), digest)
  }

  type Rows = map<Scope, Cursor>

  /** The realtime topics; any other text is not a topic. */
  datatype Topic = WALLET_UPDATED | DEPOSIT_UPDATED | WITHDRAWAL_UPDATED | TRANSFER_UPDATED | OTHER(text: string)

  /** The snapshot endpoint of a topic. */
  function Endpoint(topic: Topic): Option<string> {
    match topic
    case WALLET_UPDATED => Some("/api/v1/wallets/")
    case DEPOSIT_UPDATED => Some("/api/v1/deposits/")
    case WITHDRAWAL_UPDATED => Some("/api/v1/withdrawals/")
    case TRANSFER_UPDATED => Some("/api/v1/transfers/")
    case OTHER(_) => None
  }

  const EMPTY_PROJECTION := JObj(map[])

  const FRESH := Cursor(0, None, 0, EMPTY_PROJECTION, "")

  function CursorOf(rows: Rows, scope: Scope): Cursor {
    if scope in rows then rows[scope] else FRESH
  }

  /** The reducer's output after canonicalisation, or the error that rolls the transaction back. */
  function Reduce(env: Env, projection: Json, payload: Json): Option<Json> {
    match env.reducer(projection, payload)
    case None => None
    case Some(value) => env.canonical(value)
  }

  function ReduceError(env: Env, projection: Json, payload: Json): Error {
    if env.reducer(projection, payload).None? then ReducerError else ContractError
  }

  // ---------------------------------------------------------------------------------------------
  // Specification of the two operations
  // ---------------------------------------------------------------------------------------------

  function ApplyOutcome(env: Env, rows: Rows, e: Event): Outcome {
    var c := CursorOf(rows, e.scope);
    if e.sequence == c.lastSequence then
      if c.lastEventId == Some(e.id) then Done(DUPLICATE, c.lastSequence, c.lastSequence + 1, None)
      else Raised(SequenceConflict)
    else if e.sequence <= c.lastSequence then Done(STALE, c.lastSequence, c.lastSequence + 1, None)
    else if e.sequence > c.lastSequence + 1 then
      Done(GAP_RECOVERY_REQUIRED, c.lastSequence, c.lastSequence + 1, Endpoint(e.scope.topic))
    else if Reduce(env, c.projection, e.payload).None? then
      Raised(ReduceError(env, c.projection, e.payload))
    else Done(APPLIED, e.sequence, e.sequence + 1, None)
  }

  function ApplyRows(env: Env, rows: Rows, e: Event): Rows {
    var c := CursorOf(rows, e.scope);
    match ApplyOutcome(env, rows, e)
    case Raised(_) => rows
    case Done(APPLIED, _, _, _) =>
      var p := Reduce(env, c.projection, e.payload).value;
      rows[e.scope := c.(lastSequence := e.sequence, lastEventId := Some(e.id),
                         projection := p, projectionHash := env.digest(p))]
    case Done(_, _, _, _) => rows[e.scope := c]
  }

  /** The checks made before the cursor row is locked. */
  predicate WellFormed(env: Env, scope: Scope, s: Snapshot) {
    && !scope.topic.OTHER?
    && s.tenantRef == scope.tenant && s.subjectRef == scope.subject
    && s.sequence.JInt? && s.sequence.number >= 0
    && s.version.JInt? && s.version.number >= 0
    && env.canonical(s.projection).Some?
  }

  function ReplaceOutcome(env: Env, rows: Rows, scope: Scope, s: Snapshot): Outcome {
    var c := CursorOf(rows, scope);
    if !WellFormed(env, scope, s) then Raised(ContractError)
    else if s.sequence.number < c.lastSequence || s.version.number < c.snapshotVersion then
      Raised(SequenceConflict)
    else Done(SNAPSHOT_REPLACED, s.sequence.number, s.sequence.number + 1, None)
  }

  function ReplaceRows(env: Env, rows: Rows, scope: Scope, s: Snapshot): Rows {
    if ReplaceOutcome(env, rows, scope, s).Raised? then rows
    else
      var p := env.canonical(s.projection).value;
      rows[scope := Cursor(s.sequence.number, None, s.version.number, p, env.digest(p))]
  }

  /** The cursor table and the two operations that update a locked row in place. */
  class ProjectionStore {
    var rows: Rows

    constructor ()
      ensures rows == map[]
    {
      rows := map[];
    }

    method ApplyProjectionEvent(env: Env, e: Event) returns (o: Outcome)
      modifies this
      ensures o == ApplyOutcome(env, old(rows), e)
      ensures rows == ApplyRows(env, old(rows), e)
    {
      var cursor := CursorOf(rows, e.scope);
      var expected := cursor.lastSequence + 1;
      if e.sequence == cursor.lastSequence {
        if cursor.lastEventId == Some(e.id) {
          rows := rows[e.scope := cursor];
          return Done(DUPLICATE, cursor.lastSequence, expected, None);
        }
        return Raised(SequenceConflict);
      }
      if e.sequence < expected {
        rows := rows[e.scope := cursor];
        return Done(STALE, cursor.lastSequence, expected, None);
      }
      if e.sequence > expected {
        rows := rows[e.scope := cursor];
        return Done(GAP_RECOVERY_REQUIRED, cursor.lastSequence, expected, Endpoint(e.scope.topic));
      }
      var reduced := env.reducer(cursor.projection, e.payload);
      if reduced.None? {
        return Raised(ReducerError);
      }
      var canonical := env.canonical(reduced.value);
      if canonical.None? {
        return Raised(ContractError);
      }
      cursor := cursor.(projection := canonical.value, projectionHash := env.digest(canonical.value));
      cursor := cursor.(lastSequence := e.sequence, lastEventId := Some(e.id));
      rows := rows[e.scope := cursor];
      return Done(APPLIED, cursor.lastSequence, cursor.lastSequence + 1, None);
    }

    method ReplaceProjectionFromSnapshot(env: Env, scope: Scope, s: Snapshot) returns (o: Outcome)
      modifies this
      ensures o == ReplaceOutcome(env, old(rows), scope, s)
      ensures rows == ReplaceRows(env, old(rows), scope, s)
    {
      if scope.topic.OTHER? {
        return Raised(ContractError);
      }
      if s.tenantRef != scope.tenant || s.subjectRef != scope.subject {
        return Raised(ContractError);
      }
      if !s.sequence.JInt? || s.sequence.number < 0 {
        return Raised(ContractError);
      }
      if !s.version.JInt? || s.version.number < 0 {
        return Raised(ContractError);
      }
      var projection := env.canonical(s.projection);
      if projection.None? {
        return Raised(ContractError);
      }
      var cursor := CursorOf(rows, scope);
      if s.sequence.number < cursor.lastSequence || s.version.number < cursor.snapshotVersion {
        return Raised(SequenceConflict);
      }
      cursor := cursor.(lastSequence := s.sequence.number, lastEventId := None);
      cursor := cursor.(snapshotVersion := s.version.number);
      cursor := cursor.(projection := projection.value, projectionHash := env.digest(projection.value));
      rows := rows[scope := cursor];
      return Done(SNAPSHOT_REPLACED, s.sequence.number, s.sequence.number + 1, None);
    }
  }

  // ---------------------------------------------------------------------------------------------
  // The authoritative log and schedules over it
  // ---------------------------------------------------------------------------------------------

  type Log = map<Scope, seq<Event>>

  ghost predicate HonestLog(log: Log) {
    forall scope | scope in log :: HonestEntries(scope, log[scope])
  }

  ghost predicate HonestEntries(scope: Scope, entries: seq<Event>) {
    forall i | 0 <= i < |entries| ::
      entries[i].scope == scope && entries[i].sequence == i + 1
  }

  function Entries(log: Log, scope: Scope): seq<Event> {
    if scope in log then log[scope] else []
  }

  /** The canonicalised reducer fold of the first `n` entries; None when some reduction raises. */
  function Fold(env: Env, entries: seq<Event>, n: nat): Option<Json>
    requires n <= |entries|
  {
    if n == 0 then Some(EMPTY_PROJECTION)
    else
      match Fold(env, entries, n - 1)
      case None => None
      case Some(p) => Reduce(env, p, entries[n - 1].payload)
  }

  /** A delivery names an entry of the log, so any entry may be repeated, reordered or never named. */
  datatype Op = Deliver(scope: Scope, position: nat) | Install(scope: Scope, snapshot: Snapshot)

  /** Deliveries come from the log, and a snapshot is true of the scope that it names itself, wherever it is sent. */
  ghost predicate HonestOp(env: Env, log: Log, op: Op) {
    match op
    case Deliver(scope, position) => position < |Entries(log, scope)|
    case Install(scope, s) => HonestSnapshot(env, log, scope.topic, s)
  }

  /** The snapshot carries the fold, at its sequence, of the log of the tenant and subject that it names. */
  ghost predicate HonestSnapshot(env: Env, log: Log, topic: Topic, s: Snapshot) {
    var entries := Entries(log, Scope(s.tenantRef, s.subjectRef, topic));
    s.sequence.JInt? && s.sequence.number >= 0 && env.canonical(s.projection).Some? ==>
      && s.sequence.number <= |entries|
      && Fold(env, entries, s.sequence.number) == env.canonical(s.projection)
  }

  ghost predicate HonestSchedule(env: Env, log: Log, ops: seq<Op>) {
    HonestLog(log) && forall i | 0 <= i < |ops| :: HonestOp(env, log, ops[i])
  }

  ghost function StepOutcome(env: Env, log: Log, rows: Rows, op: Op): Outcome {
    match op
    case Deliver(scope, position) =>
      if position < |Entries(log, scope)| then ApplyOutcome(env, rows, Entries(log, scope)[position])
      else Raised(ContractError)
    case Install(scope, s) => ReplaceOutcome(env, rows, scope, s)
  }

  ghost function Next(env: Env, log: Log, rows: Rows, op: Op): Rows {
    match op
    case Deliver(scope, position) =>
      if position < |Entries(log, scope)| then ApplyRows(env, rows, Entries(log, scope)[position]) else rows
    case Install(scope, s) => ReplaceRows(env, rows, scope, s)
  }

  /** The table after the first `n` operations of a schedule that starts from the empty table. */
  ghost function Run(env: Env, log: Log, ops: seq<Op>, n: nat): Rows
    requires n <= |ops|
  {
    if n == 0 then map[] else Next(env, log, Run(env, log, ops, n - 1), ops[n - 1])
  }

  ghost function LastSequence(rows: Rows, scope: Scope): nat {
    CursorOf(rows, scope).lastSequence
  }

  // ---------------------------------------------------------------------------------------------
  // Every cursor agrees with the log
  // ---------------------------------------------------------------------------------------------

  ghost predicate Agrees(env: Env, entries: seq<Event>, c: Cursor) {
    && c.lastSequence <= |entries|
    && Fold(env, entries, c.lastSequence) == Some(c.projection)
    && (c.lastEventId.Some? ==> c.lastSequence > 0 && c.lastEventId.value == entries[c.lastSequence - 1].id)
    && (c == FRESH || c.projectionHash == env.digest(c.projection))
  }

  ghost predicate Consistent(env: Env, log: Log, rows: Rows) {
    forall scope | scope in rows :: Agrees(env, Entries(log, scope), rows[scope])
  }

  lemma StepKeepsConsistent(env: Env, log: Log, rows: Rows, op: Op)
    requires HonestLog(log) && HonestOp(env, log, op) && Consistent(env, log, rows)
    ensures Consistent(env, log, Next(env, log, rows, op))
  {
    var next := Next(env, log, rows, op);
    forall scope | scope in next ensures Agrees(env, Entries(log, scope), next[scope]) {
      if scope == op.scope {
        assert Agrees(env, Entries(log, scope), CursorOf(rows, scope));
      } else {
        assert next[scope] == rows[scope];
      }
    }
  }

  /** For every honest schedule, each projection is the fold of exactly the first `lastSequence`
      entries of its own scope, and its stored hash is that projection's digest. */
  lemma {:induction false} ProjectionIsFoldOfLog(env: Env, log: Log, ops: seq<Op>, n: nat)
    requires HonestSchedule(env, log, ops) && n <= |ops|
    ensures Consistent(env, log, Run(env, log, ops, n))
  {
    if n > 0 {
      ProjectionIsFoldOfLog(env, log, ops, n - 1);
      StepKeepsConsistent(env, log, Run(env, log, ops, n - 1), ops[n - 1]);
    }
  }

  lemma CursorIsFold(env: Env, log: Log, ops: seq<Op>, n: nat, scope: Scope)
    requires HonestSchedule(env, log, ops) && n <= |ops|
    ensures Agrees(env, Entries(log, scope), CursorOf(Run(env, log, ops, n), scope))
  {
    ProjectionIsFoldOfLog(env, log, ops, n);
  }

  /** Along any schedule, sequences and snapshot versions never decrease and rows are never dropped. */
  lemma {:induction false} CursorsNeverRegress(env: Env, log: Log, ops: seq<Op>, m: nat, n: nat, scope: Scope)
    requires m <= n <= |ops|
    ensures LastSequence(Run(env, log, ops, m), scope) <= LastSequence(Run(env, log, ops, n), scope)
    ensures CursorOf(Run(env, log, ops, m), scope).snapshotVersion <=
            CursorOf(Run(env, log, ops, n), scope).snapshotVersion
    ensures Run(env, log, ops, m).Keys <= Run(env, log, ops, n).Keys
    decreases n
  {
    if m < n {
      CursorsNeverRegress(env, log, ops, m, n - 1, scope);
    }
  }

  /** An operation of one scope leaves the cursor of every other scope as it was. */
  lemma ScopesAreIsolated(env: Env, log: Log, rows: Rows, op: Op, scope: Scope)
    requires HonestLog(log) && scope != op.scope
    ensures scope in Next(env, log, rows, op) <==> scope in rows
    ensures CursorOf(Next(env, log, rows, op), scope) == CursorOf(rows, scope)
  {
  }

  /** What a reply means for a cursor that agrees with the log: errors change nothing, a result names the
      cursor's new position and the entry it lacks, each status is given exactly where it is true, and the next entry
      fails only with the reducer or with what the reducer returns. */
  lemma OutcomeReportsCursor(env: Env, log: Log, rows: Rows, op: Op)
    requires HonestLog(log) && HonestOp(env, log, op) && Consistent(env, log, rows)
    ensures var o := StepOutcome(env, log, rows, op);
            var after := Next(env, log, rows, op);
            var last := LastSequence(rows, op.scope);
            && (o.Raised? ==> after == rows)
            && (o.Done? ==> o.last == LastSequence(after, op.scope) && o.expected == o.last + 1)
            && (op.Deliver? && o.Done? ==>
                  && (o.status == APPLIED <==> op.position == last)
                  && (o.status == APPLIED <==> o.last == last + 1)
                  && (o.status == GAP_RECOVERY_REQUIRED <==> op.position > last)
                  && (o.status == GAP_RECOVERY_REQUIRED ==> o.endpoint == Endpoint(op.scope.topic))
                  && (o.status == DUPLICATE <==> op.position + 1 == last)
                  && (o.status == STALE <==> op.position + 1 < last))
            && (o.Done? ==> op.scope in after)
            && (op.Deliver? ==>
                  var entry := Entries(log, op.scope)[op.position];
                  var reduced := env.reducer(CursorOf(rows, op.scope).projection, entry.payload);
                  && (o == Raised(ReducerError) <==> op.position == last && reduced.None?)
                  && (o == Raised(ContractError) <==>
                      op.position == last && reduced.Some? && env.canonical(reduced.value).None?))
  {
    assert Agrees(env, Entries(log, op.scope), CursorOf(rows, op.scope));
  }

  /** For every table, honest or not: a snapshot is installed if and only if it names the tenant and subject of the
      scope, the topic is one of the four, its sequence and version are integers not below the cursor's, and its
      projection is accepted. The cursor then holds exactly the snapshot; otherwise nothing changes. */
  lemma SnapshotInstalledIff(env: Env, rows: Rows, scope: Scope, s: Snapshot)
    ensures var c, o := CursorOf(rows, scope), ReplaceOutcome(env, rows, scope, s);
            var named := s.tenantRef == scope.tenant && s.subjectRef == scope.subject &&
                         (scope.topic == WALLET_UPDATED || scope.topic == DEPOSIT_UPDATED ||
                          scope.topic == WITHDRAWAL_UPDATED || scope.topic == TRANSFER_UPDATED);
            var shaped := s.sequence.JInt? && 0 <= s.sequence.number && s.version.JInt? && 0 <= s.version.number &&
                          env.canonical(s.projection).Some?;
            && (o.Done? <==>
                named && shaped && c.lastSequence <= s.sequence.number && c.snapshotVersion <= s.version.number)
            && (o == Raised(ContractError) <==> !(named && shaped))
            && (o.Raised? ==> ReplaceRows(env, rows, scope, s) == rows)
            && (o.Done? ==>
                  var p := env.canonical(s.projection).value;
                  && o == Done(SNAPSHOT_REPLACED, s.sequence.number, s.sequence.number + 1, None)
                  && ReplaceRows(env, rows, scope, s) ==
                     rows[scope := Cursor(s.sequence.number, None, s.version.number, p, env.digest(p))])
  {
  }

  /** The next entry, applied, replaces what it should of the cursor and no more. */
  lemma AppliedCursor(env: Env, rows: Rows, e: Event)
    requires e.sequence == LastSequence(rows, e.scope) + 1
    requires Reduce(env, CursorOf(rows, e.scope).projection, e.payload).Some?
    ensures var c, p := CursorOf(rows, e.scope), Reduce(env, CursorOf(rows, e.scope).projection, e.payload).value;
            ApplyRows(env, rows, e) ==
            rows[e.scope := Cursor(e.sequence, Some(e.id), c.snapshotVersion, p, env.digest(p))]
  {
  }

  /** A scope without a row starts from nothing. */
  lemma UnknownScopeStartsEmpty(rows: Rows, scope: Scope)
    requires scope !in rows
    ensures CursorOf(rows, scope) == Cursor(0, None, 0, JObj(map[]), "")
  {
  }

  /** Where a client that fell behind is sent. */
  lemma GapNamesSnapshotEndpoint(env: Env, rows: Rows, e: Event)
    requires e.sequence > LastSequence(rows, e.scope) + 1
    ensures var o := ApplyOutcome(env, rows, e);
            && (e.scope.topic == WALLET_UPDATED ==> o.Done? && o.endpoint == Some("/api/v1/wallets/"))
            && (e.scope.topic == DEPOSIT_UPDATED ==> o.Done? && o.endpoint == Some("/api/v1/deposits/"))
            && (e.scope.topic == WITHDRAWAL_UPDATED ==> o.Done? && o.endpoint == Some("/api/v1/withdrawals/"))
            && (e.scope.topic == TRANSFER_UPDATED ==> o.Done? && o.endpoint == Some("/api/v1/transfers/"))
  {
  }

  // ---------------------------------------------------------------------------------------------
  // Convergence
  // ---------------------------------------------------------------------------------------------

  /** `at` picks out deliveries of entries k, k+1, ..., in schedule order and from `start` on. */
  ghost predicate DeliversInOrder(ops: seq<Op>, scope: Scope, k: nat, start: nat, at: seq<nat>) {
    forall j | 0 <= j < |at| ::
      && start <= at[j] < |ops|
      && ops[at[j]] == Deliver(scope, k + j)
      && (j > 0 ==> at[j - 1] < at[j])
  }

  lemma FoldDefinedBelow(env: Env, entries: seq<Event>, m: nat, n: nat)
    requires m <= n <= |entries| && Fold(env, entries, n).Some?
    ensures Fold(env, entries, m).Some?
    decreases n
  {
  }

  /** Delivering entry `position` to a cursor that has all earlier entries takes it past that entry. */
  lemma DeliveryAdvances(env: Env, log: Log, rows: Rows, scope: Scope, position: nat)
    requires HonestLog(log) && Consistent(env, log, rows)
    requires position < |Entries(log, scope)| && Fold(env, Entries(log, scope), position + 1).Some?
    requires LastSequence(rows, scope) >= position
    ensures LastSequence(Next(env, log, rows, Deliver(scope, position)), scope) > position
  {
  }

  /** Heights that never fall, and that pass p wherever entry p is delivered at height p or more. */
  ghost predicate Climbs(ops: seq<Op>, scope: Scope, n: nat, heights: seq<nat>) {
    && |heights| == |ops| + 1
    && (forall i, j | 0 <= i <= j < |heights| :: heights[i] <= heights[j])
    && (forall i | 0 <= i < |ops| :: ops[i].Deliver? && ops[i].scope == scope &&
                                     ops[i].position < n && heights[i] >= ops[i].position
                                     ==> heights[i + 1] > ops[i].position)
  }

  lemma {:induction false} ClimbReaches(
    ops: seq<Op>, scope: Scope, k: nat, start: nat, at: seq<nat>, heights: seq<nat>)
    requires DeliversInOrder(ops, scope, k, start, at) && Climbs(ops, scope, k + |at|, heights)
    requires start <= |ops| && heights[start] >= k
    ensures heights[|ops|] >= k + |at|
    ensures at != [] ==> heights[at[|at| - 1] + 1] >= k + |at|
  {
    if at != [] {
      var last := at[|at| - 1];
      var shorter := at[..|at| - 1];
      ClimbReaches(ops, scope, k, start, shorter, heights);
      assert heights[last] >= k + |at| - 1;
      assert ops[last] == Deliver(scope, k + |at| - 1);
      assert heights[last + 1] <= heights[|ops|];
    }
  }

  lemma DeliveryClimbs(env: Env, log: Log, ops: seq<Op>, scope: Scope, position: nat, n: nat, i: nat)
    requires HonestSchedule(env, log, ops) && i < |ops| && ops[i] == Deliver(scope, position)
    requires position < n <= |Entries(log, scope)| && Fold(env, Entries(log, scope), n).Some?
    requires LastSequence(Run(env, log, ops, i), scope) >= position
    ensures LastSequence(Run(env, log, ops, i + 1), scope) > position
  {
    ProjectionIsFoldOfLog(env, log, ops, i);
    FoldDefinedBelow(env, Entries(log, scope), position + 1, n);
    DeliveryAdvances(env, log, Run(env, log, ops, i), scope, position);
  }

  ghost function Heights(env: Env, log: Log, ops: seq<Op>, scope: Scope, n: nat): (heights: seq<nat>)
    requires n <= |ops|
    ensures |heights| == n + 1
    ensures forall i | 0 <= i <= n :: heights[i] == LastSequence(Run(env, log, ops, i), scope)
  {
    (if n == 0 then [] else Heights(env, log, ops, scope, n - 1)) + [LastSequence(Run(env, log, ops, n), scope)]
  }

  lemma RunClimbs(env: Env, log: Log, ops: seq<Op>, scope: Scope, n: nat)
    requires HonestSchedule(env, log, ops)
    requires n <= |Entries(log, scope)| && Fold(env, Entries(log, scope), n).Some?
    ensures Climbs(ops, scope, n, Heights(env, log, ops, scope, |ops|))
  {
    var heights := Heights(env, log, ops, scope, |ops|);
    forall i, j | 0 <= i <= j < |heights| ensures heights[i] <= heights[j] {
      CursorsNeverRegress(env, log, ops, i, j, scope);
    }
    forall i | 0 <= i < |ops| && ops[i].Deliver? && ops[i].scope == scope &&
               ops[i].position < n && heights[i] >= ops[i].position
      ensures heights[i + 1] > ops[i].position
    {
      DeliveryClimbs(env, log, ops, scope, ops[i].position, n, i);
    }
  }

  /** From any reachable cursor at `k`, a schedule that contains entries k+1..n as a subsequence, whatever
      else it interleaves, ends at n or beyond; when n is the end of the log the projection is its full fold. */
  lemma ScheduleConverges(
    env: Env, log: Log, ops: seq<Op>, scope: Scope, k: nat, start: nat, at: seq<nat>)
    requires HonestSchedule(env, log, ops) && DeliversInOrder(ops, scope, k, start, at)
    requires start <= |ops| && LastSequence(Run(env, log, ops, start), scope) == k
    requires k + |at| <= |Entries(log, scope)| && Fold(env, Entries(log, scope), k + |at|).Some?
    ensures LastSequence(Run(env, log, ops, |ops|), scope) >= k + |at|
    ensures k + |at| == |Entries(log, scope)| ==>
              Fold(env, Entries(log, scope), |Entries(log, scope)|) ==
              Some(CursorOf(Run(env, log, ops, |ops|), scope).projection)
  {
    ScheduleReaches(env, log, ops, scope, k, start, at);
    CursorIsFold(env, log, ops, |ops|, scope);
    FullFold(env, Entries(log, scope), CursorOf(Run(env, log, ops, |ops|), scope), k + |at|);
  }

  lemma FullFold(env: Env, entries: seq<Event>, c: Cursor, n: nat)
    requires Agrees(env, entries, c) && n <= c.lastSequence
    ensures n == |entries| ==> Fold(env, entries, |entries|) == Some(c.projection)
  {
  }

  lemma ScheduleReaches(env: Env, log: Log, ops: seq<Op>, scope: Scope, k: nat, start: nat, at: seq<nat>)
    requires HonestSchedule(env, log, ops) && DeliversInOrder(ops, scope, k, start, at)
    requires start <= |ops| && LastSequence(Run(env, log, ops, start), scope) == k
    requires k + |at| <= |Entries(log, scope)| && Fold(env, Entries(log, scope), k + |at|).Some?
    ensures LastSequence(Run(env, log, ops, |ops|), scope) >= k + |at|
  {
    RunClimbs(env, log, ops, scope, k + |at|);
    ClimbReaches(ops, scope, k, start, at, Heights(env, log, ops, scope, |ops|));
  }

  // ---------------------------------------------------------------------------------------------
  // When a redelivery conflicts
  // ---------------------------------------------------------------------------------------------

  /** Operation j installed a snapshot that ends with entry `position`, and the cursor still stands there after n
      operations. */
  ghost predicate InstalledAt(
    env: Env, log: Log, ops: seq<Op>, n: nat, scope: Scope, position: nat, j: nat)
    requires n <= |ops|
  {
    && j < n && ops[j].Install? && ops[j].scope == scope
    && StepOutcome(env, log, Run(env, log, ops, j), ops[j]) ==
       Done(SNAPSHOT_REPLACED, position + 1, position + 2, None)
    && LastSequence(Run(env, log, ops, n), scope) == position + 1
  }

  lemma {:induction false} InstalledClearsEventId(
    env: Env, log: Log, ops: seq<Op>, n: nat, scope: Scope, position: nat, j: nat)
    requires n <= |ops|
    requires InstalledAt(env, log, ops, n, scope, position, j)
    ensures CursorOf(Run(env, log, ops, n), scope).lastEventId == None
    decreases n
  {
    if j < n - 1 {
      CursorsNeverRegress(env, log, ops, j + 1, n - 1, scope);
      CursorsNeverRegress(env, log, ops, n - 1, n, scope);
      InstalledClearsEventId(env, log, ops, n - 1, scope, position, j);
    }
  }

  lemma {:induction false} ClearedByInstall(
    env: Env, log: Log, ops: seq<Op>, n: nat, scope: Scope) returns (j: nat)
    requires n <= |ops|
    requires CursorOf(Run(env, log, ops, n), scope).lastEventId == None
    requires LastSequence(Run(env, log, ops, n), scope) > 0
    ensures InstalledAt(env, log, ops, n, scope, LastSequence(Run(env, log, ops, n), scope) - 1, j)
    decreases n
  {
    var before := Run(env, log, ops, n - 1);
    if ops[n - 1].scope == scope && StepOutcome(env, log, before, ops[n - 1]).Done? && ops[n - 1].Install? {
      j := n - 1;
    } else {
      assert CursorOf(Run(env, log, ops, n), scope) == CursorOf(before, scope);
      j := ClearedByInstall(env, log, ops, n - 1, scope);
    }
  }

  /** With an honest source a delivery conflicts exactly when its sequence is the one a snapshot installed
      and the cursor still stands on it. */
  lemma ConflictIffSnapshotSequence(env: Env, log: Log, ops: seq<Op>, n: nat)
    requires HonestSchedule(env, log, ops) && n < |ops| && ops[n].Deliver?
    ensures StepOutcome(env, log, Run(env, log, ops, n), ops[n]) == Raised(SequenceConflict) <==>
            exists j :: InstalledAt(env, log, ops, n, ops[n].scope, ops[n].position, j)
  {
    var scope, rows := ops[n].scope, Run(env, log, ops, n);
    ProjectionIsFoldOfLog(env, log, ops, n);
    assert Agrees(env, Entries(log, scope), CursorOf(rows, scope));
    if StepOutcome(env, log, rows, ops[n]) == Raised(SequenceConflict) {
      var j := ClearedByInstall(env, log, ops, n, scope);
    }
    if j :| InstalledAt(env, log, ops, n, scope, ops[n].position, j) {
      InstalledClearsEventId(env, log, ops, n, scope, ops[n].position, j);
    }
  }

  /** Redelivering an event already inside the projection is not always answered DUPLICATE or STALE: after a
      snapshot at sequence 1, the log's own first event conflicts, although a plain redelivery does not. */
  lemma RedeliveryAfterSnapshotConflicts(lower: Lower)
    ensures var env := SourceEnv((p, q) => Some(Loaded(q)), lower, p => "");
            var e := Event("e1", Scope("t", "42", WALLET_UPDATED), 1, EMPTY_PROJECTION);
            var snapshot := Snapshot("t", "42", JInt(1), JInt(0), Dict(map[]));
            && ApplyOutcome(env, ApplyRows(env, map[], e), e) == Done(DUPLICATE, 1, 2, None)
            && ApplyOutcome(env, ReplaceRows(env, ApplyRows(env, map[], e), e.scope, snapshot), e) ==
               Raised(SequenceConflict)
  {
  }
}
