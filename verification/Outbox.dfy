/** The leased outbox: enqueue, claim, release and publish in FX/financial_boundary/eventing.py. */
module Outbox {
  import opened Values

  type EventId = nat

  /** Clock readings and row times are whole microseconds. */
  type Time = int

  const SECOND: int := 1_000_000

  datatype Status = PENDING | IN_FLIGHT | PUBLISHED

  /** A row of financial_outbox. */
  datatype Row = Row(
    status: Status,
    attempts: nat,
    nextAttemptAt: Time,
    leaseExpiresAt: Option<Time>,
    publishedAt: Option<Time>,
    createdAt: Time)

  type Rows = map<EventId, Row>

  predicate WithinBounds(limit: int, leaseSeconds: int) {
    1 <= limit <= 500 && 1 <= leaseSeconds <= 300
  }

  // ---------------------------------------------------------------------------------------------
  // Specification of the operations
  // ---------------------------------------------------------------------------------------------

  /** The rows the claim query may return; `locked` are those another transaction holds and it skips. */
  function Eligible(rows: Rows, now: Time, locked: set<EventId>): set<EventId> {
    set id | id in rows && rows[id].status == PENDING && rows[id].nextAttemptAt <= now && id !in locked
  }

  /** A possible answer of the claim query: the oldest eligible rows, at most `limit`, ties in any order. */
  ghost predicate IsOldestBatch(rows: Rows, eligible: set<EventId>, limit: nat, batch: seq<EventId>)
    requires eligible <= rows.Keys
  {
    && (forall i | 0 <= i < |batch| :: batch[i] in eligible)
    && (forall i, j | 0 <= i < j < |batch| :: batch[i] != batch[j])
    && (forall i, j | 0 <= i < j < |batch| :: rows[batch[i]].createdAt <= rows[batch[j]].createdAt)
    && (forall i, id | 0 <= i < |batch| && id in eligible && id !in batch ::
          rows[batch[i]].createdAt <= rows[id].createdAt)
    && (|batch| == limit || (|batch| < limit && forall id | id in eligible :: id in batch))
  }

  function ClaimRow(row: Row, now: Time, leaseSeconds: int): Row {
    row.(status := IN_FLIGHT, attempts := row.attempts + 1, leaseExpiresAt := Some(now + leaseSeconds * SECOND))
  }

  function Claimed(rows: Rows, batch: seq<EventId>, now: Time, leaseSeconds: int): Rows {
    map id | id in rows :: if id in batch then ClaimRow(rows[id], now, leaseSeconds) else rows[id]
  }

  predicate Expired(row: Row, now: Time) {
    row.status == IN_FLIGHT && row.leaseExpiresAt.Some? && row.leaseExpiresAt.value <= now
  }

  function Released(rows: Rows, now: Time): Rows {
    map id | id in rows ::
      if Expired(rows[id], now) then rows[id].(status := PENDING, leaseExpiresAt := None) else rows[id]
  }

  function Published(rows: Rows, id: EventId, now: Time): Rows {
    if id in rows && rows[id].status == IN_FLIGHT
    then rows[id := rows[id].(status := PUBLISHED, publishedAt := Some(now), leaseExpiresAt := None)]
    else rows
  }

  function Enqueued(rows: Rows, id: EventId, now: Time, createdAt: Time): Rows {
    if id in rows then rows else rows[id := Row(PENDING, 0, now, None, None, createdAt)]
  }

  class OutboxStore {
    var rows: Rows

    constructor ()
      ensures rows == map[]
    {
      rows := map[];
    }

    /** False when the primary key is already taken. */
    method EnqueueFinancialEvent(id: EventId, now: Time, createdAt: Time) returns (created: bool)
      modifies this
      ensures created <==> id !in old(rows)
      ensures rows == Enqueued(old(rows), id, now, createdAt)
    {
      created := id !in rows;
      if created {
        rows := rows[id := Row(PENDING, 0, now, None, None, createdAt)];
      }
    }

    /** None when the bounds are exceeded, otherwise the claimed rows. */
    method ClaimOutboxBatch(now: Time, limit: int, leaseSeconds: int, locked: set<EventId>)
      returns (claimed: Option<seq<EventId>>)
      modifies this
      ensures claimed.Some? <==> 1 <= limit <= 500 && 1 <= leaseSeconds <= 300
      ensures claimed.None? ==> rows == old(rows)
      ensures claimed.Some? ==>
                && IsOldestBatch(old(rows), Eligible(old(rows), now, locked), limit, claimed.value)
                && rows == Claimed(old(rows), claimed.value, now, leaseSeconds)
    {
      if !(1 <= limit <= 500) || !(1 <= leaseSeconds <= 300) {
        return None;
      }
      var batch := SelectOldest(rows, Eligible(rows, now, locked), limit);
      var before := rows;
      var i := 0;
      while i < |batch|
        invariant 0 <= i <= |batch|
        invariant rows.Keys == before.Keys
        invariant forall id | id in rows ::
                    rows[id] == if id in batch[..i] then ClaimRow(before[id], now, leaseSeconds) else before[id]
      {
        var row := rows[batch[i]];
        row := row.(status := IN_FLIGHT);
        row := row.(attempts := row.attempts + 1);
        row := row.(leaseExpiresAt := Some(now + leaseSeconds * SECOND));
        rows := rows[batch[i] := row];
        i := i + 1;
      }
      assert batch[..i] == batch;
      return Some(batch);
    }

    method ReleaseExpiredClaims(now: Time) returns (count: nat)
      modifies this
      ensures rows == Released(old(rows), now)
      ensures count == |set id | id in old(rows) && old(rows)[id].status == IN_FLIGHT &&
                                 old(rows)[id].leaseExpiresAt.Some? && old(rows)[id].leaseExpiresAt.value <= now|
    {
      var expired := set id | id in rows && rows[id].status == IN_FLIGHT &&
                              rows[id].leaseExpiresAt.Some? && rows[id].leaseExpiresAt.value <= now;
      assert expired == set id | id in rows && Expired(rows[id], now);
      rows := map id | id in rows ::
        if id in expired then rows[id].(status := PENDING, leaseExpiresAt := None) else rows[id];
      count := |expired|;
    }

    /** False when the row is not IN_FLIGHT; nobody asks which publisher holds the lease. */
    method MarkOutboxPublished(id: EventId, now: Time) returns (updated: bool)
      modifies this
      ensures updated <==> id in old(rows) && old(rows)[id].status == IN_FLIGHT
      ensures rows == Published(old(rows), id, now)
    {
      updated := id in rows && rows[id].status == IN_FLIGHT;
      if updated {
        var row := rows[id].(status := PUBLISHED, publishedAt := Some(now));
        rows := rows[id := row.(leaseExpiresAt := None)];
      }
    }
  }

  /** Column by column: a row is created pending and due; a claim sets its lease in seconds and counts it; a release
      takes back exactly an expired lease; a mark stamps exactly a row in flight. Every other row and column stays. */
  lemma StepsByColumn(rows: Rows, id: EventId, now: Time, createdAt: Time, batch: seq<EventId>, lease: int)
    ensures id !in rows ==>
              Enqueued(rows, id, now, createdAt) == rows[id := Row(PENDING, 0, now, None, None, createdAt)]
    ensures Claimed(rows, batch, now, lease).Keys == Released(rows, now).Keys == rows.Keys
    ensures id in rows ==>
              var r := rows[id];
              && Enqueued(rows, id, now, createdAt) == rows
              && Claimed(rows, batch, now, lease)[id] ==
                 (if id in batch
                  then Row(IN_FLIGHT, r.attempts + 1, r.nextAttemptAt, Some(now + lease * 1_000_000), r.publishedAt,
                           r.createdAt)
                  else r)
              && Released(rows, now)[id] ==
                 (if r.status == IN_FLIGHT && r.leaseExpiresAt.Some? && r.leaseExpiresAt.value <= now
                  then Row(PENDING, r.attempts, r.nextAttemptAt, None, r.publishedAt, r.createdAt)
                  else r)
              && Published(rows, id, now) ==
                 (if r.status == IN_FLIGHT
                  then rows[id := Row(PUBLISHED, r.attempts, r.nextAttemptAt, None, Some(now), r.createdAt)]
                  else rows)
    ensures id in Eligible(rows, now, {}) <==> id in rows && rows[id].status == PENDING && rows[id].nextAttemptAt <= now
  {
  }

  /** The bounds of a claim. */
  lemma ClaimBounds(limit: int, leaseSeconds: int)
    ensures WithinBounds(limit, leaseSeconds) <==>
            1 <= limit && limit <= 500 && 1 <= leaseSeconds && leaseSeconds <= 300
  {
  }

  /** ORDER BY created_at with a LIMIT. */
  method SelectOldest(rows: Rows, eligible: set<EventId>, limit: nat) returns (batch: seq<EventId>)
    requires eligible <= rows.Keys
    ensures IsOldestBatch(rows, eligible, limit, batch)
  {
    batch := [];
    var rest := eligible;
    while |batch| < limit && rest != {}
      invariant |batch| <= limit
      invariant rest <= eligible && forall id | id in eligible :: id in rest <==> id !in batch
      invariant forall i | 0 <= i < |batch| :: batch[i] in eligible
      invariant forall i, j | 0 <= i < j < |batch| :: batch[i] != batch[j]
      invariant forall i, j | 0 <= i < j < |batch| :: rows[batch[i]].createdAt <= rows[batch[j]].createdAt
      invariant forall i, id | 0 <= i < |batch| && id in rest :: rows[batch[i]].createdAt <= rows[id].createdAt
      decreases rest
    {
      var oldest := Oldest(rows, rest);
      batch := batch + [oldest];
      rest := rest - {oldest};
    }
  }

  method Oldest(rows: Rows, ids: set<EventId>) returns (oldest: EventId)
    requires ids != {} && ids <= rows.Keys
    ensures oldest in ids && forall id | id in ids :: rows[oldest].createdAt <= rows[id].createdAt
  {
    oldest :| oldest in ids;
    var rest := ids - {oldest};
    while rest != {}
      invariant rest <= ids && oldest in ids
      invariant forall id | id in ids && id !in rest :: rows[oldest].createdAt <= rows[id].createdAt
      decreases rest
    {
      var id :| id in rest;
      if rows[id].createdAt < rows[oldest].createdAt {
        oldest := id;
      }
      rest := rest - {id};
    }
  }

  // ---------------------------------------------------------------------------------------------
  // Runs
  // ---------------------------------------------------------------------------------------------

  /** A claim carries the batch that the query returned to it. */
  datatype Op =
    | Enqueue(id: EventId, now: Time, createdAt: Time)
    | Claim(now: Time, limit: int, leaseSeconds: int, locked: set<EventId>, batch: seq<EventId>)
    | Release(now: Time)
    | Mark(id: EventId, now: Time)

  datatype ClaimRecord = ClaimRecord(id: EventId, at: Time, leaseSeconds: int)

  /** The table, with the record of every claim ever made. */
  datatype History = History(rows: Rows, claims: seq<ClaimRecord>)

  ghost predicate Possible(rows: Rows, op: Op) {
    op.Claim? ==>
      WithinBounds(op.limit, op.leaseSeconds) &&
      IsOldestBatch(rows, Eligible(rows, op.now, op.locked), op.limit, op.batch)
  }

  function Records(batch: seq<EventId>, now: Time, leaseSeconds: int): seq<ClaimRecord> {
    seq(|batch|, i requires 0 <= i < |batch| => ClaimRecord(batch[i], now, leaseSeconds))
  }

  function NextRows(rows: Rows, op: Op): Rows {
    match op
    case Enqueue(id, now, createdAt) => Enqueued(rows, id, now, createdAt)
    case Claim(now, _, leaseSeconds, _, batch) => Claimed(rows, batch, now, leaseSeconds)
    case Release(now) => Released(rows, now)
    case Mark(id, now) => Published(rows, id, now)
  }

  function Next(h: History, op: Op): History {
    History(NextRows(h.rows, op), h.claims + if op.Claim? then Records(op.batch, op.now, op.leaseSeconds) else [])
  }

  function Run(ops: seq<Op>, n: nat): History
    requires n <= |ops|
  {
    if n == 0 then History(map[], []) else Next(Run(ops, n - 1), ops[n - 1])
  }

  /** Every claim is a possible query answer. */
  ghost predicate Feasible(ops: seq<Op>) {
    forall i {:trigger Possible(Run(ops, i).rows, ops[i])} | 0 <= i < |ops| :: Possible(Run(ops, i).rows, ops[i])
  }

  // ---------------------------------------------------------------------------------------------
  // Lease safety
  // ---------------------------------------------------------------------------------------------

  function Expiry(c: ClaimRecord): Time {
    c.at + c.leaseSeconds * SECOND
  }

  function ClaimsOf(claims: seq<ClaimRecord>, id: EventId): nat {
    if claims == [] then 0
    else ClaimsOf(claims[..|claims| - 1], id) + if claims[|claims| - 1].id == id then 1 else 0
  }

  /** The stored columns agree with the status. */
  ghost predicate Shaped(row: Row) {
    && (row.status == IN_FLIGHT <==> row.leaseExpiresAt.Some?)
    && (row.status == PUBLISHED <==> row.publishedAt.Some?)
  }

  /** No claim of the row outlives its current lease, or the clock once it is pending again. */
  ghost predicate LeasesOver(claims: seq<ClaimRecord>, id: EventId, row: Row, clock: Time) {
    forall i | 0 <= i < |claims| && claims[i].id == id ::
      && (row.status == PENDING ==> Expiry(claims[i]) <= clock)
      && (row.leaseExpiresAt.Some? ==> Expiry(claims[i]) <= row.leaseExpiresAt.value)
  }

  /** Columns in step with the status, every claim counted, and only of rows that exist. */
  ghost predicate Tallied(h: History) {
    && (forall id | id in h.rows :: Shaped(h.rows[id]) && h.rows[id].attempts == ClaimsOf(h.claims, id))
    && (forall i | 0 <= i < |h.claims| :: h.claims[i].id in h.rows && h.claims[i].leaseSeconds >= 1)
  }

  /** Successive claims of one row are at least the earlier lease apart. */
  ghost predicate ClaimsApart(claims: seq<ClaimRecord>) {
    forall i, j | 0 <= i < j < |claims| && claims[i].id == claims[j].id :: Expiry(claims[i]) <= claims[j].at
  }

  ghost predicate Spaced(h: History, clock: Time) {
    && (forall id | id in h.rows :: LeasesOver(h.claims, id, h.rows[id], clock))
    && ClaimsApart(h.claims)
  }

  lemma {:induction false} ClaimsOfAppend(
    claims: seq<ClaimRecord>, batch: seq<EventId>, now: Time, lease: int, id: EventId)
    requires forall i, j | 0 <= i < j < |batch| :: batch[i] != batch[j]
    ensures ClaimsOf(claims + Records(batch, now, lease), id) ==
            ClaimsOf(claims, id) + if id in batch then 1 else 0
  {
    var all := claims + Records(batch, now, lease);
    if batch == [] {
      assert all == claims;
    } else {
      var shorter := batch[..|batch| - 1];
      assert all[..|all| - 1] == claims + Records(shorter, now, lease);
      assert batch == shorter + [batch[|batch| - 1]];
      ClaimsOfAppend(claims, shorter, now, lease, id);
    }
  }

  lemma {:induction false} NoClaimsWithoutRecord(claims: seq<ClaimRecord>, id: EventId)
    requires forall i | 0 <= i < |claims| :: claims[i].id != id
    ensures ClaimsOf(claims, id) == 0
  {
    if claims != [] {
      NoClaimsWithoutRecord(claims[..|claims| - 1], id);
    }
  }

  lemma StepKeepsTallied(h: History, op: Op)
    requires Tallied(h) && Possible(h.rows, op)
    ensures Tallied(Next(h, op))
  {
    var next := Next(h, op);
    assert !op.Claim? ==> next.claims == h.claims;
    forall id | id in next.rows
      ensures Shaped(next.rows[id]) && next.rows[id].attempts == ClaimsOf(next.claims, id)
    {
      if op.Claim? {
        ClaimsOfAppend(h.claims, op.batch, op.now, op.leaseSeconds, id);
      } else if id !in h.rows {
        NoClaimsWithoutRecord(h.claims, id);
      }
      assert id in h.rows ==> Shaped(h.rows[id]);
    }
  }

  /** Every run, whatever its clock readings, keeps the columns in step with the status and counts each claim of a
      row in `attempts`. */
  lemma {:induction false} ColumnsFollowStatus(ops: seq<Op>, n: nat)
    requires n <= |ops| && Feasible(ops)
    ensures Tallied(Run(ops, n))
  {
    if n > 0 {
      ColumnsFollowStatus(ops, n - 1);
      assert Possible(Run(ops, n - 1).rows, ops[n - 1]);
      StepKeepsTallied(Run(ops, n - 1), ops[n - 1]);
    }
  }

  /** A claim stamped at or after every release so far follows every earlier lease of the rows it takes. */
  lemma ClaimKeepsSpaced(h: History, clock: Time, op: Op)
    requires Spaced(h, op.now) && Spaced(h, clock) && op.Claim? && Possible(h.rows, op)
    ensures Spaced(Next(h, op), clock)
  {
    var next := Next(h, op);
    forall id | id in next.rows ensures LeasesOver(next.claims, id, next.rows[id], clock) {
      assert LeasesOver(h.claims, id, h.rows[id], clock) && LeasesOver(h.claims, id, h.rows[id], op.now);
    }
  }

  lemma OtherKeepsSpaced(h: History, clock: Time, op: Op)
    requires Tallied(h) && Spaced(h, clock) && !op.Claim? && (op.Release? ==> op.now <= clock)
    ensures Spaced(Next(h, op), clock)
  {
    var next := Next(h, op);
    assert next.claims == h.claims;
    forall id | id in next.rows ensures LeasesOver(next.claims, id, next.rows[id], clock) {
      assert id in h.rows ==> Shaped(h.rows[id]) && LeasesOver(h.claims, id, h.rows[id], clock);
    }
  }

  /** No claim reads the clock earlier than a release committed before it. */
  ghost predicate ClaimsReadAfterReleases(ops: seq<Op>) {
    forall i, j | 0 <= i < j < |ops| && ops[i].Release? && ops[j].Claim? :: ops[i].now <= ops[j].now
  }

  /** Under that condition the claims of one row are spaced by at least the earlier lease. `clock` is any bound on
      the releases so far. */
  lemma {:induction false} RunIsSpaced(ops: seq<Op>, n: nat, clock: Time)
    requires n <= |ops| && Feasible(ops) && ClaimsReadAfterReleases(ops)
    requires forall i | 0 <= i < n && ops[i].Release? :: ops[i].now <= clock
    ensures Spaced(Run(ops, n), clock)
  {
    if n > 0 {
      var op := ops[n - 1];
      RunIsSpaced(ops, n - 1, clock);
      if op.Claim? {
        assert Possible(Run(ops, n - 1).rows, op);
        RunIsSpaced(ops, n - 1, op.now);
        ClaimKeepsSpaced(Run(ops, n - 1), clock, op);
      } else {
        ColumnsFollowStatus(ops, n - 1);
        OtherKeepsSpaced(Run(ops, n - 1), clock, op);
      }
    }
  }

  /** A bound on the readings of the first n operations. */
  lemma {:induction false} ReadingsBounded(ops: seq<Op>, n: nat) returns (clock: Time)
    requires n <= |ops|
    ensures forall i | 0 <= i < n :: ops[i].now <= clock
  {
    clock := 0;
    if n > 0 {
      clock := ReadingsBounded(ops, n - 1);
      clock := if ops[n - 1].now <= clock then clock else ops[n - 1].now;
    }
  }

  /** Every run keeps the columns in step and, when no claim reads the clock earlier than a release committed before
      it, spaces the claims of one row by at least the earlier lease. */
  lemma RunIsSafe(ops: seq<Op>, n: nat)
    requires n <= |ops| && Feasible(ops)
    ensures Tallied(Run(ops, n))
    ensures ClaimsReadAfterReleases(ops) ==> ClaimsApart(Run(ops, n).claims)
  {
    ColumnsFollowStatus(ops, n);
    if ClaimsReadAfterReleases(ops) {
      var clock := ReadingsBounded(ops, n);
      RunIsSpaced(ops, n, clock);
    }
  }

  /** A published row is never changed again. */
  lemma {:induction false} PublishedIsAbsorbing(ops: seq<Op>, m: nat, n: nat, id: EventId)
    requires m <= n <= |ops| && Feasible(ops)
    requires id in Run(ops, m).rows && Run(ops, m).rows[id].status == PUBLISHED
    ensures id in Run(ops, n).rows && Run(ops, n).rows[id] == Run(ops, m).rows[id]
    decreases n
  {
    if m < n {
      PublishedIsAbsorbing(ops, m, n - 1, id);
      assert Possible(Run(ops, n - 1).rows, ops[n - 1]);
    }
  }

  lemma {:induction false} SpacingSums(claims: seq<ClaimRecord>, first: nat, last: nat)
    requires ClaimsApart(claims) && (forall i | 0 <= i < |claims| :: claims[i].leaseSeconds >= 1)
    requires first <= last < |claims| && claims[first].id == claims[last].id
    requires forall i | 0 <= i < first :: claims[i].id != claims[first].id
    ensures (ClaimsOf(claims[..last + 1], claims[first].id) - 1) * SECOND <= claims[last].at - claims[first].at
    decreases last
  {
    var id := claims[first].id;
    assert claims[..last + 1][..last] == claims[..last];
    if first == last {
      NoClaimsWithoutRecord(claims[..last], id);
    } else {
      var previous := PreviousClaim(claims, first, last);
      SpacingSums(claims, first, previous);
    }
  }

  /** The last claim of the row before `last`, with no claim of it in between. */
  lemma {:induction false} PreviousClaim(claims: seq<ClaimRecord>, first: nat, last: nat) returns (previous: nat)
    requires first < last <= |claims|
    ensures first <= previous < last && claims[previous].id == claims[first].id
    ensures ClaimsOf(claims[..last], claims[first].id) == ClaimsOf(claims[..previous + 1], claims[first].id)
    decreases last
  {
    if claims[last - 1].id == claims[first].id {
      previous := last - 1;
    } else {
      assert claims[..last][..last - 1] == claims[..last - 1];
      previous := PreviousClaim(claims, first, last - 1);
    }
  }

  /** `first` and `last` are the first and the latest claim of one row. */
  ghost predicate SpansClaims(claims: seq<ClaimRecord>, first: nat, last: nat) {
    && first <= last < |claims| && claims[first].id == claims[last].id
    && (forall i | 0 <= i < first :: claims[i].id != claims[first].id)
    && (forall i | last < i < |claims| :: claims[i].id != claims[first].id)
  }

  lemma SafeBoundsAttempts(h: History, first: nat, last: nat)
    requires Tallied(h) && ClaimsApart(h.claims) && SpansClaims(h.claims, first, last)
    ensures h.claims[first].id in h.rows
    ensures (h.rows[h.claims[first].id].attempts - 1) * SECOND <= h.claims[last].at - h.claims[first].at
  {
    SpacingSums(h.claims, first, last);
    LaterClaimsOfOthers(h.claims, last + 1, h.claims[first].id);
  }

  /** A row's attempts, less one, never exceed the seconds between its first and its latest claim. */
  lemma AttemptsAreBoundedByTime(ops: seq<Op>, n: nat, first: nat, last: nat)
    requires n <= |ops| && Feasible(ops) && ClaimsReadAfterReleases(ops)
    requires SpansClaims(Run(ops, n).claims, first, last)
    ensures var h := Run(ops, n);
            && h.claims[first].id in h.rows
            && (h.rows[h.claims[first].id].attempts - 1) * 1_000_000 <= h.claims[last].at - h.claims[first].at
  {
    RunIsSafe(ops, n);
    SafeBoundsAttempts(Run(ops, n), first, last);
  }

  lemma {:induction false} LaterClaimsOfOthers(claims: seq<ClaimRecord>, from: nat, id: EventId)
    requires from <= |claims| && forall i | from <= i < |claims| :: claims[i].id != id
    ensures ClaimsOf(claims, id) == ClaimsOf(claims[..from], id)
  {
    if from == |claims| {
      assert claims[..from] == claims;
    } else {
      assert claims[..|claims| - 1][..from] == claims[..from];
      LaterClaimsOfOthers(claims[..|claims| - 1], from, id);
    }
  }

  /** One row claimed until `released`, released then, and claimed again with the reading `stale`. */
  function StaleRun(released: Time, stale: Time, lease: int): seq<Op> {
    var first := released - lease * SECOND;
    [Enqueue(7, if first <= stale then first else stale, 0), Claim(first, 1, lease, {}, [7]), Release(released),
     Claim(stale, 1, lease, {}, [7])]
  }

  /** The condition cannot be weakened: whenever a claim's reading is earlier than a release's, by however little and
      for whatever lease, there is a run with just that pair of readings in which the claims are too close. */
  lemma StaleReadingBreaksSpacing(released: Time, stale: Time, lease: int)
    requires stale < released && 1 <= lease <= 300
    ensures Feasible(StaleRun(released, stale, lease))
    ensures Run(StaleRun(released, stale, lease), 4).claims ==
            [ClaimRecord(7, released - lease * SECOND, lease), ClaimRecord(7, stale, lease)]
    ensures !ClaimsApart(Run(StaleRun(released, stale, lease), 4).claims)
  {
    var ops := StaleRun(released, stale, lease);
    var due, first := ops[0].now, released - lease * SECOND;
    var pending := map[7 := Row(PENDING, 0, due, None, None, 0)];
    assert Run(ops, 1) == History(pending, []);
    assert Records([7], first, lease) == [ClaimRecord(7, first, lease)];
    assert Records([7], stale, lease) == [ClaimRecord(7, stale, lease)];
    var held := map[7 := Row(IN_FLIGHT, 1, due, Some(released), None, 0)];
    assert Run(ops, 2).rows == held;
    assert Run(ops, 2) == History(held, [ClaimRecord(7, first, lease)]);
    var again := map[7 := Row(PENDING, 1, due, None, None, 0)];
    assert Run(ops, 3).rows == again;
    assert Run(ops, 4).claims == [ClaimRecord(7, first, lease)] + [ClaimRecord(7, stale, lease)];
    assert Possible(Run(ops, 0).rows, ops[0]) && Possible(Run(ops, 2).rows, ops[2]);
    SoleRowIsClaimed(pending, 7, first, lease);
    SoleRowIsClaimed(again, 7, stale, lease);
    assert Expiry(Run(ops, 4).claims[0]) > Run(ops, 4).claims[1].at;
  }

  lemma SoleRowIsClaimed(rows: Rows, id: EventId, now: Time, lease: int)
    requires rows.Keys == {id} && rows[id].status == PENDING && rows[id].nextAttemptAt <= now && 1 <= lease <= 300
    ensures Possible(rows, Claim(now, 1, lease, {}, [id]))
  {
  }

  /** Wherever a claim follows a release, the release reads at most `released` and the claim at least `claimed`. */
  ghost predicate ReadingsWithin(ops: seq<Op>, released: Time, claimed: Time) {
    forall i, j | 0 <= i < j < |ops| && ops[i].Release? && ops[j].Claim? ::
      ops[i].now <= released && claimed <= ops[j].now
  }

  ghost predicate SpacedRun(ops: seq<Op>) {
    ClaimsApart(Run(ops, |ops|).claims)
  }

  /** So, for any two readings, every feasible run within them spaces its claims if and only if the claim's reading
      is not the earlier one. */
  lemma SpacingIffClaimsReadAfterReleases(released: Time, claimed: Time)
    ensures (forall ops | Feasible(ops) && ReadingsWithin(ops, released, claimed) :: SpacedRun(ops)) <==>
            released <= claimed
  {
    if released <= claimed {
      forall ops | Feasible(ops) && ReadingsWithin(ops, released, claimed) ensures SpacedRun(ops) {
        RunIsSafe(ops, |ops|);
      }
    } else {
      StaleReadingBreaksSpacing(released, claimed, 1);
      var ops := StaleRun(released, claimed, 1);
      assert ReadingsWithin(ops, released, claimed) && !SpacedRun(ops);
    }
  }

  // ---------------------------------------------------------------------------------------------
  // Progress
  // ---------------------------------------------------------------------------------------------

  /** The other pending rows that are not younger than `id`. */
  ghost function Ahead(rows: Rows, id: EventId): set<EventId>
    requires id in rows
  {
    set x | x in rows && x != id && rows[x].status == PENDING && rows[x].createdAt <= rows[id].createdAt
  }

  /** Rows are due as soon as they are created, as enqueueing leaves them. */
  ghost predicate DueAtOnce(rows: Rows) {
    forall id | id in rows :: rows[id].nextAttemptAt <= rows[id].createdAt
  }

  lemma {:induction false} RunIsDueAtOnce(ops: seq<Op>, n: nat)
    requires n <= |ops| && forall i | 0 <= i < |ops| && ops[i].Enqueue? :: ops[i].now <= ops[i].createdAt
    ensures DueAtOnce(Run(ops, n).rows)
  {
    if n > 0 {
      RunIsDueAtOnce(ops, n - 1);
      assert ops[n - 1].Enqueue? ==> ops[n - 1].now <= ops[n - 1].createdAt;
    }
  }

  /** In such a table the rows ahead of a row are the eligible rows that are not younger than it. */
  lemma AheadIsEligible(rows: Rows, id: EventId, now: Time)
    requires DueAtOnce(rows) && id in rows && rows[id].createdAt <= now
    ensures Ahead(rows, id) == EligibleAhead(rows, id, now)
  {
  }

  /** Not a release; a claim takes at least `limit` rows, does not find the row locked, and reads the clock
      when the row is due. */
  ghost predicate Considerate(row: Row, op: Op, id: EventId, limit: nat) {
    && !op.Release?
    && (op.Claim? ==> limit <= op.limit && id !in op.locked && row.nextAttemptAt <= op.now)
  }

  ghost predicate Undisturbed(row: Row, ops: seq<Op>, m: nat, id: EventId, limit: nat) {
    forall i | m <= i < |ops| :: Considerate(row, ops[i], id, limit)
  }

  /** The claim calls among operations m to n. */
  function ClaimCalls(ops: seq<Op>, m: nat, n: nat): nat
    requires m <= n <= |ops|
    decreases n
  {
    if n == m then 0 else ClaimCalls(ops, m, n - 1) + if ops[n - 1].Claim? then 1 else 0
  }

  /** The rows among operations m to n that become visible late: enqueued after, but stamped no later than, `createdAt`.
      An enqueueing transaction stamps its row before it commits. */
  function LateRows(ops: seq<Op>, m: nat, n: nat, createdAt: Time): nat
    requires m <= n <= |ops|
    decreases n
  {
    if n == m then 0
    else LateRows(ops, m, n - 1, createdAt) + if IsLate(ops[n - 1], createdAt) then 1 else 0
  }

  predicate IsLate(op: Op, createdAt: Time) {
    op.Enqueue? && op.createdAt <= createdAt
  }

  lemma {:induction false} LateRowsCounted(ops: seq<Op>, m: nat, n: nat, createdAt: Time)
    requires m <= n <= |ops|
    ensures LateRows(ops, m, n, createdAt) ==
            |set i | m <= i < n && ops[i].Enqueue? && ops[i].createdAt <= createdAt|
    decreases n
  {
    var all := set i | m <= i < n && ops[i].Enqueue? && ops[i].createdAt <= createdAt;
    if m < n {
      LateRowsCounted(ops, m, n - 1, createdAt);
      var before := set i | m <= i < n - 1 && ops[i].Enqueue? && ops[i].createdAt <= createdAt;
      assert all == if IsLate(ops[n - 1], createdAt) then before + {n - 1} else before;
    }
  }

  lemma {:induction false} DistinctFit(batch: seq<EventId>, ids: set<EventId>)
    requires forall i, j | 0 <= i < j < |batch| :: batch[i] != batch[j]
    requires forall i | 0 <= i < |batch| :: batch[i] in ids
    ensures |batch| <= |ids|
  {
    if batch != [] {
      DistinctFit(batch[1..], ids - {batch[0]});
    }
  }

  /** A claim that passes the row over takes a full batch of the rows ahead of it. */
  lemma ClaimDrainsAhead(rows: Rows, op: Op, id: EventId)
    requires id in rows && rows[id].status == PENDING
    requires op.Claim? && Possible(rows, op) && id !in op.locked && rows[id].nextAttemptAt <= op.now
    requires id !in op.batch
    ensures |Ahead(NextRows(rows, op), id)| + op.limit <= |Ahead(rows, id)|
  {
    var ahead, left := Ahead(rows, id), Ahead(NextRows(rows, op), id);
    assert id in Eligible(rows, op.now, op.locked);
    assert |op.batch| == op.limit;
    forall i | 0 <= i < |op.batch| ensures op.batch[i] in ahead - left {
      assert op.batch[i] in Eligible(rows, op.now, op.locked);
    }
    assert left <= ahead;
    DistinctFit(op.batch, ahead - left);
  }

  lemma OtherKeepsAhead(rows: Rows, op: Op, id: EventId)
    requires id in rows && rows[id].status == PENDING && (op.Enqueue? || op.Mark?)
    ensures id in NextRows(rows, op) && NextRows(rows, op)[id] == rows[id]
    ensures |Ahead(NextRows(rows, op), id)| <= |Ahead(rows, id)| + if IsLate(op, rows[id].createdAt) then 1 else 0
  {
    var before, after := Ahead(rows, id), Ahead(NextRows(rows, op), id);
    if IsLate(op, rows[id].createdAt) {
      assert after <= before + {op.id};
      Grown(after, before, op.id);
    } else {
      assert after == before;
    }
  }

  lemma Grown(after: set<EventId>, before: set<EventId>, id: EventId)
    requires after <= before + {id}
    ensures |after| <= |before| + 1
  {
    Fits(after - {id}, before);
    assert after <= (after - {id}) + {id};
    Fits(after, (after - {id}) + {id});
  }

  lemma {:induction false} Fits(small: set<EventId>, large: set<EventId>)
    requires small <= large
    ensures |small| <= |large|
  {
    if small != {} {
      var x :| x in small;
      Fits(small - {x}, large - {x});
    }
  }

  lemma StepDrainsOrClaims(rows: Rows, op: Op, id: EventId, limit: nat)
    requires id in rows && Possible(rows, op) && Considerate(rows[id], op, id, limit)
    ensures id in NextRows(rows, op)
    ensures rows[id].status != PENDING ==> NextRows(rows, op)[id].status != PENDING
    ensures NextRows(rows, op)[id].attempts ==
            rows[id].attempts + if rows[id].status == PENDING && NextRows(rows, op)[id].status != PENDING then 1 else 0
    ensures NextRows(rows, op)[id].status == PENDING ==>
              && NextRows(rows, op)[id] == rows[id]
              && |Ahead(NextRows(rows, op), id)| + (if op.Claim? then limit else 0) <=
                 |Ahead(rows, id)| + (if IsLate(op, rows[id].createdAt) then 1 else 0)
  {
    if rows[id].status == PENDING {
      if !op.Claim? {
        OtherKeepsAhead(rows, op, id);
      } else if id !in op.batch {
        ClaimDrainsAhead(rows, op, id);
      }
    }
  }

  lemma {:induction false} PendingMeansDrained(ops: seq<Op>, m: nat, n: nat, id: EventId, limit: nat)
    requires m <= n <= |ops| && Feasible(ops)
    requires var rows := Run(ops, m).rows;
             id in rows && rows[id].status == PENDING && Undisturbed(rows[id], ops, m, id, limit)
    ensures var rows, after := Run(ops, m).rows, Run(ops, n).rows;
            && id in after
            && after[id].createdAt == rows[id].createdAt && after[id].nextAttemptAt == rows[id].nextAttemptAt
            && after[id].attempts == rows[id].attempts + (if after[id].status == PENDING then 0 else 1)
            && (after[id].status == PENDING ==>
                  |Ahead(after, id)| + ClaimCalls(ops, m, n) * limit <=
                  |Ahead(rows, id)| + LateRows(ops, m, n, rows[id].createdAt))
    decreases n
  {
    if m < n {
      PendingMeansDrained(ops, m, n - 1, id, limit);
      var before := Run(ops, n - 1).rows;
      assert Possible(before, ops[n - 1]) && Considerate(Run(ops, m).rows[id], ops[n - 1], id, limit);
      StepDrainsOrClaims(before, ops[n - 1], id, limit);
      StepKeepsTimes(before, ops[n - 1], id);
      AddOneCall(ops, m, n, limit);
    }
  }

  lemma StepKeepsTimes(rows: Rows, op: Op, id: EventId)
    requires id in rows
    ensures id in NextRows(rows, op)
    ensures NextRows(rows, op)[id].createdAt == rows[id].createdAt
    ensures NextRows(rows, op)[id].nextAttemptAt == rows[id].nextAttemptAt
  {
  }

  lemma AddOneCall(ops: seq<Op>, m: nat, n: nat, limit: nat)
    requires m < n <= |ops|
    ensures ClaimCalls(ops, m, n) * limit ==
            ClaimCalls(ops, m, n - 1) * limit + if ops[n - 1].Claim? then limit else 0
  {
  }

  /** The other rows a claim at `now` may take that are not younger than `id`. */
  ghost function EligibleAhead(rows: Rows, id: EventId, now: Time): set<EventId>
    requires id in rows
  {
    set x | x in Eligible(rows, now, {}) && x != id && rows[x].createdAt <= rows[id].createdAt
  }

  /** In every run, a pending row with k other eligible rows not younger than it is claimed within
      (k + late) / limit + 1 claim calls, exactly once as long as nothing is released, however many younger rows
      arrive; `late` counts the rows that arrive in between with an older stamp. */
  lemma ClaimedWithinBound(ops: seq<Op>, m: nat, n: nat, id: EventId, now: Time, limit: nat)
    requires m <= n <= |ops| && Feasible(ops) && limit >= 1
    requires forall i | 0 <= i < |ops| && ops[i].Enqueue? :: ops[i].now <= ops[i].createdAt
    requires var rows := Run(ops, m).rows;
             && id in rows && rows[id].status == PENDING && rows[id].createdAt <= now
             && Undisturbed(rows[id], ops, m, id, limit)
             && ClaimCalls(ops, m, n) >=
                (|EligibleAhead(rows, id, now)| + LateRows(ops, m, n, rows[id].createdAt)) / limit + 1
    ensures var rows, after := Run(ops, m).rows, Run(ops, n).rows;
            id in after && after[id].status != PENDING && after[id].attempts == rows[id].attempts + 1
  {
    RunIsDueAtOnce(ops, m);
    AheadIsEligible(Run(ops, m).rows, id, now);
    PendingMeansDrained(ops, m, n, id, limit);
    var rows := Run(ops, m).rows;
    EnoughCalls(|Ahead(rows, id)| + LateRows(ops, m, n, rows[id].createdAt), ClaimCalls(ops, m, n), limit);
  }

  lemma EnoughCalls(k: nat, calls: nat, limit: nat)
    requires limit >= 1 && calls >= k / limit + 1
    ensures calls * limit > k
  {
    assert (k / limit + 1) * limit <= calls * limit;
  }
}
