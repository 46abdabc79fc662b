/** The append-only, maker/checker halt authority: FX/financial_boundary/halts.py. */
module Halts {
  import opened Values

  datatype HaltState = ACTIVE | WITHDRAWALS_HALTED | FUNDING_HALTED | READ_ONLY | ALL_MUTATIONS_HALTED

  datatype Operation = DEPOSIT | WITHDRAWAL | TRANSFER | RESERVATION | SETTLEMENT

  datatype Role = FINANCIAL_VIEWER | FINANCIAL_OPERATIONS | FINANCIAL_MANAGER | OTHER_ROLE(name: string)

  type Tenant = string

  type RequestId = nat

  type Worker = nat

  /** Rows of financial_halt_requests and financial_halt_approvals; both tables only grow. */
  datatype Request = Request(tenant: Tenant, proposed: HaltState, maker: int)

  datatype Approval = Approval(request: RequestId, checker: int, at: int, id: int)

  datatype Reply =
    | Created(approval: Approval)
    | Existing(approval: Approval)
    | AuthorizationDenied
    | TransitionDenied
    | RequestMissing
    | RolledBack

  type Requests = map<RequestId, Request>

  const MUTATIONS: set<Operation> := {DEPOSIT, WITHDRAWAL, TRANSFER, RESERVATION, SETTLEMENT}

  function Allowed(state: HaltState): set<Operation> {
    match state
    case ACTIVE => MUTATIONS
    case WITHDRAWALS_HALTED => MUTATIONS - {WITHDRAWAL}
    case FUNDING_HALTED => MUTATIONS - {DEPOSIT}
    case READ_ONLY => {}
    case ALL_MUTATIONS_HALTED => {}
  }

  // ---------------------------------------------------------------------------------------------
  // current_halt_state
  // ---------------------------------------------------------------------------------------------

  predicate OfTenant(requests: Requests, a: Approval, tenant: Tenant) {
    a.request in requests && requests[a.request].tenant == tenant
  }

  /** The order of the query: approval time first, approval id on ties. */
  predicate Before(a: Approval, b: Approval) {
    a.at < b.at || (a.at == b.at && a.id < b.id)
  }

  function Latest(requests: Requests, approvals: seq<Approval>, tenant: Tenant): (latest: Option<Approval>)
    ensures latest.None? <==> forall a | a in approvals :: !OfTenant(requests, a, tenant)
    ensures latest.Some? ==>
              && latest.value in approvals && OfTenant(requests, latest.value, tenant)
              && forall a | a in approvals && OfTenant(requests, a, tenant) :: !Before(latest.value, a)
  {
    if approvals == [] then None
    else
      var a, rest := approvals[|approvals| - 1], approvals[..|approvals| - 1];
      assert approvals == rest + [a];
      var best := Latest(requests, rest, tenant);
      if OfTenant(requests, a, tenant) && (best.None? || Before(best.value, a)) then Some(a) else best
  }

  function Current(requests: Requests, approvals: seq<Approval>, tenant: Tenant): HaltState {
    match Latest(requests, approvals, tenant)
    case None => ACTIVE
    case Some(a) => requests[a.request].proposed
  }

  predicate Reduces(proposed: HaltState, current: HaltState) {
    Allowed(proposed) < Allowed(current)
  }

  // ---------------------------------------------------------------------------------------------
  // The two operations, each run alone
  // ---------------------------------------------------------------------------------------------

  function ApprovalOf(approvals: seq<Approval>, request: RequestId): (found: Option<Approval>)
    ensures found.None? <==> forall a | a in approvals :: a.request != request
    ensures found.Some? ==> found.value in approvals && found.value.request == request
  {
    if approvals == [] then None
    else if approvals[0].request == request then Some(approvals[0])
    else ApprovalOf(approvals[1..], request)
  }

  function ApproveReply(
    requests: Requests, approvals: seq<Approval>,
    request: RequestId, checker: int, roles: set<Role>, at: int, id: int): Reply
  {
    if checker < 1 || FINANCIAL_MANAGER !in roles then AuthorizationDenied
    else if request !in requests then RequestMissing
    else if requests[request].maker == checker then AuthorizationDenied
    else if ApprovalOf(approvals, request).Some? then Existing(ApprovalOf(approvals, request).value)
    else if !Reduces(requests[request].proposed, Current(requests, approvals, requests[request].tenant)) then
      TransitionDenied
    else Created(Approval(request, checker, at, id))
  }

  function Recorded(approvals: seq<Approval>, reply: Reply): seq<Approval> {
    if reply.Created? then approvals + [reply.approval] else approvals
  }

  predicate Capital(c: char) { 'A' <= c <= 'Z' }

  /** The reason-code pattern: a capital, then 2 to 63 capitals, digits or underscores. */
  predicate SafeReason(reason: string) {
    && 3 <= |reason| <= 64 && Capital(reason[0])
    && forall i | 1 <= i < |reason| :: Capital(reason[i]) || '0' <= reason[i] <= '9' || reason[i] == '_'
  }

  predicate Requestable(proposed: HaltState, maker: int, roles: set<Role>, reason: string) {
    && maker >= 1
    && (FINANCIAL_OPERATIONS in roles || FINANCIAL_MANAGER in roles)
    && proposed != ACTIVE
    && SafeReason(reason)
  }

  class HaltAuthority {
    var requests: Requests
    var approvals: seq<Approval>

    constructor ()
      ensures requests == map[] && approvals == []
    {
      requests, approvals := map[], [];
    }

    /** `key` is the generated primary key. */
    method RequestFinancialHalt(
      key: RequestId, tenant: Tenant, proposed: HaltState, maker: int, roles: set<Role>, reason: string)
      returns (accepted: bool)
      requires key !in requests
      modifies this
      ensures accepted <==> maker >= 1 && (FINANCIAL_OPERATIONS in roles || FINANCIAL_MANAGER in roles) &&
                            proposed != ACTIVE && SafeReason(reason)
      ensures approvals == old(approvals)
      ensures requests == if accepted then old(requests)[key := Request(tenant, proposed, maker)]
                          else old(requests)
    {
      if maker < 1 {
        return false;
      }
      if FINANCIAL_OPERATIONS !in roles && FINANCIAL_MANAGER !in roles {
        return false;
      }
      if proposed == ACTIVE {
        return false;
      }
      if !SafeReason(reason) {
        return false;
      }
      requests := requests[key := Request(tenant, proposed, maker)];
      return true;
    }

    method ApproveFinancialHalt(request: RequestId, checker: int, roles: set<Role>, at: int, id: int)
      returns (reply: Reply)
      modifies this
      ensures reply == ApproveReply(requests, old(approvals), request, checker, roles, at, id)
      ensures requests == old(requests) && approvals == Recorded(old(approvals), reply)
    {
      if checker < 1 {
        return AuthorizationDenied;
      }
      if FINANCIAL_MANAGER !in roles {
        return AuthorizationDenied;
      }
      if request !in requests {
        return RequestMissing;
      }
      var row := requests[request];
      if row.maker == checker {
        return AuthorizationDenied;
      }
      var existing := ApprovalOf(approvals, request);
      if existing.Some? {
        return Existing(existing.value);
      }
      var current := Current(requests, approvals, row.tenant);
      var proposedAllowed, currentAllowed := Allowed(row.proposed), Allowed(current);
      if proposedAllowed == currentAllowed || !(proposedAllowed <= currentAllowed) {
        return TransitionDenied;
      }
      var approval := Approval(request, checker, at, id);
      approvals := approvals + [approval];
      return Created(approval);
    }
  }

  // ---------------------------------------------------------------------------------------------
  // Concurrent workers: row lock, tenant lock, read, insert and commit are separate steps
  // ---------------------------------------------------------------------------------------------

  datatype Phase =
    | HoldsRow(request: RequestId, checker: int)
    | Unapproved(request: RequestId, checker: int)
    | HoldsTenant(request: RequestId, checker: int)
    | HasRead(request: RequestId, checker: int, current: HaltState)
    | HasInserted(request: RequestId, checker: int, approval: Approval)

  /** `replies` records the outcome of every approval call whose transaction has ended; a worker not in `workers` is
      between calls. */
  datatype Db = Db(
    requests: Requests,
    approvals: seq<Approval>,
    rowLocks: map<RequestId, Worker>,
    tenantLocks: map<int, Worker>,
    workers: map<Worker, Phase>,
    replies: seq<(RequestId, int, Reply)>)

  datatype Action =
    | Submit(key: RequestId, tenant: Tenant, proposed: HaltState, maker: int, roles: set<Role>, reason: string)
    | Begin(worker: Worker, request: RequestId, checker: int, roles: set<Role>)
    | CheckExisting(worker: Worker)
    | LockTenant(worker: Worker)
    | ReadCurrent(worker: Worker)
    | Insert(worker: Worker, at: int, id: int)
    | Commit(worker: Worker)
    | Abort(worker: Worker)

  const EMPTY := Db(map[], [], map[], map[], map[], [])

  /** The transaction ends: its locks go and its reply is recorded. */
  function Finish(db: Db, lockKey: Tenant -> int, worker: Worker, approvals: seq<Approval>, reply: Reply): Db
    requires worker in db.workers
  {
    var phase := db.workers[worker];
    db.(approvals := approvals,
        rowLocks := db.rowLocks - {phase.request},
        tenantLocks := if phase.HoldsRow? || phase.Unapproved? || phase.request !in db.requests then db.tenantLocks
                       else db.tenantLocks - {lockKey(db.requests[phase.request].tenant)},
        workers := db.workers - {worker},
        replies := db.replies + [(phase.request, phase.checker, reply)])
  }

  // Each step; one that is not enabled (a blocked lock, a worker in another phase) changes nothing.

  function SubmitStep(
    db: Db, key: RequestId, tenant: Tenant, proposed: HaltState, maker: int, roles: set<Role>, reason: string): Db
  {
    if key !in db.requests && Requestable(proposed, maker, roles, reason) then
      db.(requests := db.requests[key := Request(tenant, proposed, maker)])
    else db
  }

  function BeginStep(db: Db, w: Worker, request: RequestId, checker: int, roles: set<Role>): Db {
    if w in db.workers then db
    else if checker < 1 || FINANCIAL_MANAGER !in roles then
      db.(replies := db.replies + [(request, checker, AuthorizationDenied)])
    else if request !in db.requests then
      db.(replies := db.replies + [(request, checker, RequestMissing)])
    else if request in db.rowLocks then db
    else db.(rowLocks := db.rowLocks[request := w], workers := db.workers[w := HoldsRow(request, checker)])
  }

  function CheckExistingStep(lockKey: Tenant -> int, db: Db, w: Worker): Db {
    if w in db.workers && db.workers[w].HoldsRow? && db.workers[w].request in db.requests then
      var phase := db.workers[w];
      if db.requests[phase.request].maker == phase.checker then
        Finish(db, lockKey, w, db.approvals, AuthorizationDenied)
      else if ApprovalOf(db.approvals, phase.request).Some? then
        Finish(db, lockKey, w, db.approvals, Existing(ApprovalOf(db.approvals, phase.request).value))
      else db.(workers := db.workers[w := Unapproved(phase.request, phase.checker)])
    else db
  }

  function LockTenantStep(lockKey: Tenant -> int, db: Db, w: Worker): Db {
    if w in db.workers && db.workers[w].Unapproved? && db.workers[w].request in db.requests then
      var phase := db.workers[w];
      var key := lockKey(db.requests[phase.request].tenant);
      if key in db.tenantLocks then db
      else db.(tenantLocks := db.tenantLocks[key := w],
               workers := db.workers[w := HoldsTenant(phase.request, phase.checker)])
    else db
  }

  function ReadCurrentStep(db: Db, w: Worker): Db {
    if w in db.workers && db.workers[w].HoldsTenant? && db.workers[w].request in db.requests then
      var phase := db.workers[w];
      var current := Current(db.requests, db.approvals, db.requests[phase.request].tenant);
      db.(workers := db.workers[w := HasRead(phase.request, phase.checker, current)])
    else db
  }

  function InsertStep(lockKey: Tenant -> int, db: Db, w: Worker, at: int, id: int): Db {
    if w in db.workers && db.workers[w].HasRead? && db.workers[w].request in db.requests then
      var phase := db.workers[w];
      if Reduces(db.requests[phase.request].proposed, phase.current) then
        var approval := Approval(phase.request, phase.checker, at, id);
        db.(workers := db.workers[w := HasInserted(phase.request, phase.checker, approval)])
      else Finish(db, lockKey, w, db.approvals, TransitionDenied)
    else db
  }

  function CommitStep(lockKey: Tenant -> int, db: Db, w: Worker): Db {
    if w in db.workers && db.workers[w].HasInserted? then
      Finish(db, lockKey, w, db.approvals + [db.workers[w].approval], Created(db.workers[w].approval))
    else db
  }

  function AbortStep(lockKey: Tenant -> int, db: Db, w: Worker): Db {
    if w in db.workers then Finish(db, lockKey, w, db.approvals, RolledBack) else db
  }

  function Next(lockKey: Tenant -> int, db: Db, action: Action): Db {
    match action
    case Submit(key, tenant, proposed, maker, roles, reason) =>
      SubmitStep(db, key, tenant, proposed, maker, roles, reason)
    case Begin(w, request, checker, roles) => BeginStep(db, w, request, checker, roles)
    case CheckExisting(w) => CheckExistingStep(lockKey, db, w)
    case LockTenant(w) => LockTenantStep(lockKey, db, w)
    case ReadCurrent(w) => ReadCurrentStep(db, w)
    case Insert(w, at, id) => InsertStep(lockKey, db, w, at, id)
    case Commit(w) => CommitStep(lockKey, db, w)
    case Abort(w) => AbortStep(lockKey, db, w)
  }

  function Run(lockKey: Tenant -> int, actions: seq<Action>, n: nat): Db
    requires n <= |actions|
  {
    if n == 0 then EMPTY else Next(lockKey, Run(lockKey, actions, n - 1), actions[n - 1])
  }

  // ---------------------------------------------------------------------------------------------
  // What every step keeps
  // ---------------------------------------------------------------------------------------------

  predicate HasTenantLock(phase: Phase) {
    phase.HoldsTenant? || phase.HasRead? || phase.HasInserted?
  }

  ghost predicate WorkerOk(lockKey: Tenant -> int, db: Db, w: Worker)
    requires w in db.workers
  {
    var phase := db.workers[w];
    && phase.request in db.requests
    && phase.checker >= 1
    && phase.request in db.rowLocks && db.rowLocks[phase.request] == w
    && (!phase.HoldsRow? ==>
          && db.requests[phase.request].maker != phase.checker
          && ApprovalOf(db.approvals, phase.request).None?)
    && (HasTenantLock(phase) ==>
          var key := lockKey(db.requests[phase.request].tenant);
          key in db.tenantLocks && db.tenantLocks[key] == w)
    && (phase.HasRead? ==>
          phase.current == Current(db.requests, db.approvals, db.requests[phase.request].tenant))
    && (phase.HasInserted? ==>
          && phase.approval.request == phase.request && phase.approval.checker == phase.checker
          && Reduces(db.requests[phase.request].proposed,
                     Current(db.requests, db.approvals, db.requests[phase.request].tenant)))
  }

  /** Every approval is for a stored request, by someone other than its maker, and the only one of it. */
  ghost predicate ApprovalsOk(requests: Requests, approvals: seq<Approval>) {
    && (forall a | a in approvals :: a.request in requests && requests[a.request].maker != a.checker)
    && (forall i, j | 0 <= i < j < |approvals| :: approvals[i].request != approvals[j].request)
  }

  ghost predicate Safe(lockKey: Tenant -> int, db: Db) {
    && ApprovalsOk(db.requests, db.approvals)
    && (forall w | w in db.workers :: WorkerOk(lockKey, db, w))
  }

  /** A new request changes no tenant's current state. */
  lemma {:induction false} SubmitKeepsLatest(
    requests: Requests, approvals: seq<Approval>, key: RequestId, row: Request, tenant: Tenant)
    requires key !in requests && ApprovalsOk(requests, approvals)
    ensures Latest(requests[key := row], approvals, tenant) == Latest(requests, approvals, tenant)
    ensures Current(requests[key := row], approvals, tenant) == Current(requests, approvals, tenant)
  {
    if approvals != [] {
      var rest := approvals[..|approvals| - 1];
      assert forall a | a in rest :: a in approvals;
      assert approvals[|approvals| - 1] in approvals;
      SubmitKeepsLatest(requests, rest, key, row, tenant);
    }
  }

  /** Appending an approval moves its own tenant to the proposed state exactly when it is the greatest by
      (time, id), and otherwise changes nothing. */
  lemma AppendTakesEffectIffGreatest(requests: Requests, approvals: seq<Approval>, a: Approval, tenant: Tenant)
    requires a.request in requests
    ensures var latest := Latest(requests, approvals, tenant);
            Current(requests, approvals + [a], tenant) ==
            if requests[a.request].tenant == tenant && (latest.Some? ==> Before(latest.value, a))
            then requests[a.request].proposed
            else Current(requests, approvals, tenant)
  {
  }

  lemma AppendKeepsUnapproved(approvals: seq<Approval>, a: Approval, request: RequestId)
    requires a.request != request && ApprovalOf(approvals, request).None?
    ensures ApprovalOf(approvals + [a], request).None?
  {
  }

  lemma CommitKeepsApprovalsOk(requests: Requests, approvals: seq<Approval>, a: Approval)
    requires ApprovalsOk(requests, approvals) && ApprovalOf(approvals, a.request).None?
    requires a.request in requests && requests[a.request].maker != a.checker
    ensures ApprovalsOk(requests, approvals + [a])
  {
  }

  /** Other workers are undisturbed by a commit: they hold other rows, and those past the tenant lock
      belong to tenants with another lock key. */
  lemma CommitKeepsOther(lockKey: Tenant -> int, db: Db, w: Worker, other: Worker)
    requires Safe(lockKey, db) && w in db.workers && db.workers[w].HasInserted?
    requires other in db.workers && other != w
    ensures WorkerOk(lockKey, CommitStep(lockKey, db, w), other)
  {
    var a, phase := db.workers[w].approval, db.workers[other];
    var tenant := db.requests[phase.request].tenant;
    assert WorkerOk(lockKey, db, w) && WorkerOk(lockKey, db, other);
    if !phase.HoldsRow? {
      AppendKeepsUnapproved(db.approvals, a, phase.request);
    }
    if HasTenantLock(phase) {
      assert lockKey(db.requests[a.request].tenant) != lockKey(tenant);
      AppendTakesEffectIffGreatest(db.requests, db.approvals, a, tenant);
    }
  }

  lemma CommitKeepsSafe(lockKey: Tenant -> int, db: Db, w: Worker)
    requires Safe(lockKey, db)
    ensures Safe(lockKey, CommitStep(lockKey, db, w))
  {
    if w in db.workers && db.workers[w].HasInserted? {
      assert WorkerOk(lockKey, db, w);
      CommitKeepsApprovalsOk(db.requests, db.approvals, db.workers[w].approval);
      forall other | other in CommitStep(lockKey, db, w).workers
        ensures WorkerOk(lockKey, CommitStep(lockKey, db, w), other)
      {
        CommitKeepsOther(lockKey, db, w, other);
      }
    }
  }

  lemma SubmitKeepsSafe(lockKey: Tenant -> int, db: Db, key: RequestId, row: Request)
    requires Safe(lockKey, db) && key !in db.requests
    ensures Safe(lockKey, db.(requests := db.requests[key := row]))
  {
    forall w | w in db.workers ensures WorkerOk(lockKey, db.(requests := db.requests[key := row]), w) {
      assert WorkerOk(lockKey, db, w);
      SubmitKeepsLatest(db.requests, db.approvals, key, row, db.requests[db.workers[w].request].tenant);
    }
  }

  lemma BeginKeepsSafe(lockKey: Tenant -> int, db: Db, w: Worker, request: RequestId, checker: int, roles: set<Role>)
    requires Safe(lockKey, db)
    ensures Safe(lockKey, BeginStep(db, w, request, checker, roles))
  {
    var next := BeginStep(db, w, request, checker, roles);
    forall other | other in next.workers ensures WorkerOk(lockKey, next, other) {
      assert other in db.workers ==> WorkerOk(lockKey, db, other);
    }
  }

  lemma CheckExistingKeepsSafe(lockKey: Tenant -> int, db: Db, w: Worker)
    requires Safe(lockKey, db)
    ensures Safe(lockKey, CheckExistingStep(lockKey, db, w))
  {
    var next := CheckExistingStep(lockKey, db, w);
    if w in db.workers && w !in next.workers {
    } else {
      forall other | other in next.workers ensures WorkerOk(lockKey, next, other) {
        assert WorkerOk(lockKey, db, other);
      }
    }
  }

  lemma LockTenantKeepsSafe(lockKey: Tenant -> int, db: Db, w: Worker)
    requires Safe(lockKey, db)
    ensures Safe(lockKey, LockTenantStep(lockKey, db, w))
  {
  }

  lemma ReadCurrentKeepsSafe(lockKey: Tenant -> int, db: Db, w: Worker)
    requires Safe(lockKey, db)
    ensures Safe(lockKey, ReadCurrentStep(db, w))
  {
  }

  lemma InsertKeepsSafe(lockKey: Tenant -> int, db: Db, w: Worker, at: int, id: int)
    requires Safe(lockKey, db)
    ensures Safe(lockKey, InsertStep(lockKey, db, w, at, id))
  {
    var next := InsertStep(lockKey, db, w, at, id);
    if w in db.workers && w !in next.workers {
    } else {
      forall other | other in next.workers ensures WorkerOk(lockKey, next, other) {
        assert WorkerOk(lockKey, db, other);
      }
    }
  }

  lemma StepKeepsSafe(lockKey: Tenant -> int, db: Db, action: Action)
    requires Safe(lockKey, db)
    ensures Safe(lockKey, Next(lockKey, db, action))
  {
    match action {
      case Submit(key, tenant, proposed, maker, _, _) =>
        if key !in db.requests {
          SubmitKeepsSafe(lockKey, db, key, Request(tenant, proposed, maker));
        }
      case Begin(w, request, checker, roles) => BeginKeepsSafe(lockKey, db, w, request, checker, roles);
      case CheckExisting(w) => CheckExistingKeepsSafe(lockKey, db, w);
      case LockTenant(w) => LockTenantKeepsSafe(lockKey, db, w);
      case ReadCurrent(w) => ReadCurrentKeepsSafe(lockKey, db, w);
      case Insert(w, at, id) => InsertKeepsSafe(lockKey, db, w, at, id);
      case Commit(w) => CommitKeepsSafe(lockKey, db, w);
      case Abort(w) =>
    }
  }

  /** On every interleaving, no approval is by its maker, no request is approved twice, and the locks
      protect every value a worker has read. */
  lemma {:induction false} RunIsSafe(lockKey: Tenant -> int, actions: seq<Action>, n: nat)
    requires n <= |actions|
    ensures Safe(lockKey, Run(lockKey, actions, n))
  {
    if n > 0 {
      RunIsSafe(lockKey, actions, n - 1);
      StepKeepsSafe(lockKey, Run(lockKey, actions, n - 1), actions[n - 1]);
    }
  }

  // ---------------------------------------------------------------------------------------------
  // Capability only shrinks
  // ---------------------------------------------------------------------------------------------

  ghost function AllowedNow(db: Db, tenant: Tenant): set<Operation> {
    Allowed(Current(db.requests, db.approvals, tenant))
  }

  lemma StepShrinksAllowed(lockKey: Tenant -> int, db: Db, action: Action, tenant: Tenant)
    requires Safe(lockKey, db)
    ensures AllowedNow(Next(lockKey, db, action), tenant) <= AllowedNow(db, tenant)
  {
    match action {
      case Submit(key, t, proposed, maker, _, _) =>
        if key !in db.requests {
          SubmitKeepsLatest(db.requests, db.approvals, key, Request(t, proposed, maker), tenant);
        }
      case Commit(w) => CommitShrinksAllowed(lockKey, db, w, tenant);
      case _ => TablesChangeOnlyOnSubmitOrCommit(lockKey, db, action);
    }
  }

  lemma CommitShrinksAllowed(lockKey: Tenant -> int, db: Db, w: Worker, tenant: Tenant)
    requires Safe(lockKey, db)
    ensures AllowedNow(CommitStep(lockKey, db, w), tenant) <= AllowedNow(db, tenant)
  {
    if w in db.workers && db.workers[w].HasInserted? {
      assert WorkerOk(lockKey, db, w);
      AppendTakesEffectIffGreatest(db.requests, db.approvals, db.workers[w].approval, tenant);
    }
  }

  /** Along every interleaving, whatever the clock does, an operation once halted for a tenant stays halted. */
  lemma {:induction false} HaltedStaysHalted(
    lockKey: Tenant -> int, actions: seq<Action>, m: nat, n: nat, tenant: Tenant)
    requires m <= n <= |actions|
    ensures AllowedNow(Run(lockKey, actions, n), tenant) <= AllowedNow(Run(lockKey, actions, m), tenant)
    decreases n
  {
    if m < n {
      HaltedStaysHalted(lockKey, actions, m, n - 1, tenant);
      RunIsSafe(lockKey, actions, n - 1);
      StepShrinksAllowed(lockKey, Run(lockKey, actions, n - 1), actions[n - 1], tenant);
    }
  }

  // ---------------------------------------------------------------------------------------------
  // Interleaved approvals behave as if each ran alone
  // ---------------------------------------------------------------------------------------------

  /** The step recorded one reply, and it and the tables are those of a checker with these roles running the whole
      approval here. */
  ghost predicate EndsAtomically(db: Db, next: Db, roles: set<Role>) {
    && |next.replies| == |db.replies| + 1
    && var (request, checker, reply) := next.replies[|db.replies|];
    && next.replies == db.replies + [(request, checker, reply)]
    && next.requests == db.requests
    && next.approvals == Recorded(db.approvals, reply)
    && exists at, id ::
         reply == ApproveReply(db.requests, db.approvals, request, checker, roles, at, id)
  }

  lemma BeginIsAtomic(db: Db, w: Worker, request: RequestId, checker: int, roles: set<Role>)
    requires BeginStep(db, w, request, checker, roles).replies != db.replies
    ensures EndsAtomically(db, BeginStep(db, w, request, checker, roles), roles)
  {
    var reply := BeginStep(db, w, request, checker, roles).replies[|db.replies|].2;
    assert reply == ApproveReply(db.requests, db.approvals, request, checker, roles, 0, 0);
  }

  lemma CheckExistingIsAtomic(lockKey: Tenant -> int, db: Db, w: Worker)
    requires Safe(lockKey, db) && CheckExistingStep(lockKey, db, w).replies != db.replies
    ensures EndsAtomically(db, CheckExistingStep(lockKey, db, w), {FINANCIAL_MANAGER})
  {
    assert WorkerOk(lockKey, db, w);
    var (request, checker, reply) := CheckExistingStep(lockKey, db, w).replies[|db.replies|];
    assert reply == ApproveReply(db.requests, db.approvals, request, checker, {FINANCIAL_MANAGER}, 0, 0);
  }

  lemma InsertIsAtomic(lockKey: Tenant -> int, db: Db, w: Worker, at: int, id: int)
    requires Safe(lockKey, db) && InsertStep(lockKey, db, w, at, id).replies != db.replies
    ensures EndsAtomically(db, InsertStep(lockKey, db, w, at, id), {FINANCIAL_MANAGER})
  {
    assert WorkerOk(lockKey, db, w);
    var (request, checker, reply) := InsertStep(lockKey, db, w, at, id).replies[|db.replies|];
    assert reply == ApproveReply(db.requests, db.approvals, request, checker, {FINANCIAL_MANAGER}, at, id);
  }

  lemma CommitIsAtomic(lockKey: Tenant -> int, db: Db, w: Worker)
    requires Safe(lockKey, db) && CommitStep(lockKey, db, w).replies != db.replies
    ensures EndsAtomically(db, CommitStep(lockKey, db, w), {FINANCIAL_MANAGER})
  {
    assert WorkerOk(lockKey, db, w);
    var a := db.workers[w].approval;
    assert Created(a) == ApproveReply(db.requests, db.approvals, a.request, a.checker, {FINANCIAL_MANAGER}, a.at, a.id);
  }

  /** Every call whose transaction ends in a reply has exactly the effect and the reply of running the whole approval
      at that instant, with the roles it began with; one that got past its role check did so as a manager. A call
      that is rolled back leaves both tables as they were. */
  lemma ApprovalsAreAtomic(lockKey: Tenant -> int, db: Db, action: Action)
    requires Safe(lockKey, db) && Next(lockKey, db, action).replies != db.replies
    ensures if action.Abort?
            then
              && Next(lockKey, db, action).requests == db.requests
              && Next(lockKey, db, action).approvals == db.approvals
              && var phase := db.workers[action.worker];
                 Next(lockKey, db, action).replies == db.replies + [(phase.request, phase.checker, RolledBack)]
            else
              EndsAtomically(db, Next(lockKey, db, action), if action.Begin? then action.roles else {FINANCIAL_MANAGER})
  {
    match action {
      case Begin(w, request, checker, roles) => BeginIsAtomic(db, w, request, checker, roles);
      case CheckExisting(w) => CheckExistingIsAtomic(lockKey, db, w);
      case Insert(w, at, id) => InsertIsAtomic(lockKey, db, w, at, id);
      case Commit(w) => CommitIsAtomic(lockKey, db, w);
      case _ =>
    }
  }

  /** Approving an approved request again gives back the stored approval and changes nothing. */
  lemma ReapprovalReturnsStored(
    requests: Requests, approvals: seq<Approval>, a: Approval, checker: int, roles: set<Role>, at: int, id: int)
    requires ApprovalsOk(requests, approvals) && a in approvals
    requires checker >= 1 && FINANCIAL_MANAGER in roles && requests[a.request].maker != checker
    ensures ApproveReply(requests, approvals, a.request, checker, roles, at, id) == Existing(a)
    ensures Recorded(approvals, ApproveReply(requests, approvals, a.request, checker, roles, at, id)) == approvals
  {
  }

  // ---------------------------------------------------------------------------------------------
  // At most two approvals per tenant, when approvals are in order
  // ---------------------------------------------------------------------------------------------

  /** An inserted approval comes after every approval its tenant already has, in the order of the query. */
  ghost predicate InsertIsGreatest(db: Db, action: Action) {
    action.Insert? && action.worker in db.workers && db.workers[action.worker].request in db.requests ==>
      var phase := db.workers[action.worker];
      var tenant := db.requests[phase.request].tenant;
      forall a | a in db.approvals && OfTenant(db.requests, a, tenant) ::
        Before(a, Approval(phase.request, phase.checker, action.at, action.id))
  }

  ghost predicate ApprovalsInOrder(lockKey: Tenant -> int, actions: seq<Action>) {
    forall i | 0 <= i < |actions| :: InsertIsGreatest(Run(lockKey, actions, i), actions[i])
  }

  ghost function CountFor(requests: Requests, approvals: seq<Approval>, tenant: Tenant): nat {
    if approvals == [] then 0
    else
      CountFor(requests, approvals[..|approvals| - 1], tenant) +
      if OfTenant(requests, approvals[|approvals| - 1], tenant) then 1 else 0
  }

  function Severity(state: HaltState): nat {
    match state
    case ACTIVE => 0
    case WITHDRAWALS_HALTED => 1
    case FUNDING_HALTED => 1
    case READ_ONLY => 2
    case ALL_MUTATIONS_HALTED => 2
  }

  lemma ReducingIsMoreSevere(proposed: HaltState, current: HaltState)
    ensures Reduces(proposed, current) <==> Severity(current) < Severity(proposed)
  {
    assert WITHDRAWAL in MUTATIONS && DEPOSIT in MUTATIONS && TRANSFER in MUTATIONS;
    assert WITHDRAWAL !in Allowed(WITHDRAWALS_HALTED) && DEPOSIT in Allowed(WITHDRAWALS_HALTED);
    assert DEPOSIT !in Allowed(FUNDING_HALTED) && WITHDRAWAL in Allowed(FUNDING_HALTED);
  }

  lemma {:induction false} SubmitKeepsCount(
    requests: Requests, approvals: seq<Approval>, key: RequestId, row: Request, tenant: Tenant)
    requires key !in requests && ApprovalsOk(requests, approvals)
    ensures CountFor(requests[key := row], approvals, tenant) == CountFor(requests, approvals, tenant)
  {
    if approvals != [] {
      var rest := approvals[..|approvals| - 1];
      assert forall a | a in rest :: a in approvals;
      assert approvals[|approvals| - 1] in approvals;
      SubmitKeepsCount(requests, rest, key, row, tenant);
    }
  }

  /** Only a submitted request and a commit change the two tables. */
  lemma TablesChangeOnlyOnSubmitOrCommit(lockKey: Tenant -> int, db: Db, action: Action)
    requires !action.Submit? && !action.Commit?
    ensures Next(lockKey, db, action).requests == db.requests
    ensures Next(lockKey, db, action).approvals == db.approvals
  {
  }

  ghost predicate PendingOk(db: Db, w: Worker)
    requires w in db.workers
  {
    db.workers[w].HasInserted? && db.workers[w].request in db.requests ==>
      var latest := Latest(db.requests, db.approvals, db.requests[db.workers[w].request].tenant);
      latest.Some? ==> Before(latest.value, db.workers[w].approval)
  }

  /** Every pending insert will be the latest of its tenant when it commits. */
  ghost predicate PendingIsLatest(db: Db) {
    forall w | w in db.workers :: PendingOk(db, w)
  }

  lemma TableStepKeepsPending(lockKey: Tenant -> int, db: Db, action: Action, w: Worker)
    requires Safe(lockKey, db) && PendingIsLatest(db) && (action.Submit? || action.Commit?)
    requires w in Next(lockKey, db, action).workers
    ensures PendingOk(Next(lockKey, db, action), w)
  {
    assert WorkerOk(lockKey, db, w) && PendingOk(db, w);
    var tenant := db.requests[db.workers[w].request].tenant;
    if action.Submit? {
      if action.key !in db.requests {
        var row := Request(action.tenant, action.proposed, action.maker);
        SubmitKeepsLatest(db.requests, db.approvals, action.key, row, tenant);
      }
    } else if action.worker in db.workers && db.workers[action.worker].HasInserted? && db.workers[w].HasInserted? {
      assert WorkerOk(lockKey, db, action.worker);
    }
  }

  lemma OtherStepKeepsPending(lockKey: Tenant -> int, db: Db, action: Action, w: Worker)
    requires PendingIsLatest(db) && InsertIsGreatest(db, action) && !action.Submit? && !action.Commit?
    requires w in Next(lockKey, db, action).workers
    ensures PendingOk(Next(lockKey, db, action), w)
  {
    TablesChangeOnlyOnSubmitOrCommit(lockKey, db, action);
    assert w in db.workers ==> PendingOk(db, w);
    if !action.Insert? {
      OnlyInsertMakesPending(lockKey, db, action, w);
    }
  }

  lemma OnlyInsertMakesPending(lockKey: Tenant -> int, db: Db, action: Action, w: Worker)
    requires !action.Insert? && w in Next(lockKey, db, action).workers
    ensures Next(lockKey, db, action).workers[w].HasInserted? ==>
              w in db.workers && Next(lockKey, db, action).workers[w] == db.workers[w]
  {
  }

  lemma StepKeepsPending(lockKey: Tenant -> int, db: Db, action: Action)
    requires Safe(lockKey, db) && PendingIsLatest(db) && InsertIsGreatest(db, action)
    ensures PendingIsLatest(Next(lockKey, db, action))
  {
    forall w | w in Next(lockKey, db, action).workers ensures PendingOk(Next(lockKey, db, action), w) {
      if action.Submit? || action.Commit? {
        TableStepKeepsPending(lockKey, db, action, w);
      } else {
        OtherStepKeepsPending(lockKey, db, action, w);
      }
    }
  }

  ghost predicate CountOk(requests: Requests, approvals: seq<Approval>, tenant: Tenant) {
    CountFor(requests, approvals, tenant) <= Severity(Current(requests, approvals, tenant))
  }

  lemma AppendKeepsCount(requests: Requests, approvals: seq<Approval>, a: Approval, tenant: Tenant)
    requires a.request in requests && CountOk(requests, approvals, tenant)
    requires requests[a.request].tenant == tenant ==>
               var latest := Latest(requests, approvals, tenant);
               && (latest.Some? ==> Before(latest.value, a))
               && Reduces(requests[a.request].proposed, Current(requests, approvals, tenant))
    ensures CountOk(requests, approvals + [a], tenant)
  {
  }

  lemma StepKeepsCount(lockKey: Tenant -> int, db: Db, action: Action, tenant: Tenant)
    requires Safe(lockKey, db) && PendingIsLatest(db) && CountOk(db.requests, db.approvals, tenant)
    ensures CountOk(Next(lockKey, db, action).requests, Next(lockKey, db, action).approvals, tenant)
  {
    if action.Submit? {
      if action.key !in db.requests {
        var row := Request(action.tenant, action.proposed, action.maker);
        SubmitKeepsLatest(db.requests, db.approvals, action.key, row, tenant);
        SubmitKeepsCount(db.requests, db.approvals, action.key, row, tenant);
      }
    } else if action.Commit? {
      if action.worker in db.workers && db.workers[action.worker].HasInserted? {
        assert WorkerOk(lockKey, db, action.worker) && PendingOk(db, action.worker);
        AppendKeepsCount(db.requests, db.approvals, db.workers[action.worker].approval, tenant);
      }
    } else {
      TablesChangeOnlyOnSubmitOrCommit(lockKey, db, action);
    }
  }

  ghost predicate Bounded(lockKey: Tenant -> int, db: Db, tenant: Tenant) {
    Safe(lockKey, db) && PendingIsLatest(db) && CountOk(db.requests, db.approvals, tenant)
  }

  lemma StepKeepsBounded(lockKey: Tenant -> int, db: Db, action: Action, tenant: Tenant)
    requires Bounded(lockKey, db, tenant) && InsertIsGreatest(db, action)
    ensures Bounded(lockKey, Next(lockKey, db, action), tenant)
  {
    StepKeepsSafe(lockKey, db, action);
    StepKeepsPending(lockKey, db, action);
    StepKeepsCount(lockKey, db, action, tenant);
  }

  lemma {:induction false} RunIsBounded(lockKey: Tenant -> int, actions: seq<Action>, n: nat, tenant: Tenant)
    requires n <= |actions| && ApprovalsInOrder(lockKey, actions)
    ensures Bounded(lockKey, Run(lockKey, actions, n), tenant)
  {
    if n > 0 {
      RunIsBounded(lockKey, actions, n - 1, tenant);
      StepKeepsBounded(lockKey, Run(lockKey, actions, n - 1), actions[n - 1], tenant);
    }
  }

  /** When each approval comes after its tenant's earlier ones by (time, id), a tenant never gets more than two
      approvals on any interleaving. */
  lemma AtMostTwoApprovals(lockKey: Tenant -> int, actions: seq<Action>, n: nat, tenant: Tenant)
    requires n <= |actions| && ApprovalsInOrder(lockKey, actions)
    ensures CountFor(Run(lockKey, actions, n).requests, Run(lockKey, actions, n).approvals, tenant) <= 2
  {
    RunIsBounded(lockKey, actions, n, tenant);
  }

  lemma {:induction false} LatestIsCounted(requests: Requests, approvals: seq<Approval>, tenant: Tenant)
    requires Latest(requests, approvals, tenant).Some?
    ensures CountFor(requests, approvals, tenant) >= 1
  {
    var front, last := approvals[..|approvals| - 1], approvals[|approvals| - 1];
    if !OfTenant(requests, last, tenant) {
      LatestIsCounted(requests, front, tenant);
    }
  }

  /** And that order is exactly what the bound needs. Once a second, further reducing approval of a halted tenant is
      stored, a request for one of the two full halts is granted as a third approval if and only if the second does
      not come after the first. */
  lemma ThirdApprovalIffOutOfOrder(
    requests: Requests, approvals: seq<Approval>, a: Approval, request: RequestId, checker: int, roles: set<Role>,
    at: int, id: int)
    requires a.request in requests && request in requests && requests[request].tenant == requests[a.request].tenant
    requires var tenant := requests[request].tenant;
             && Latest(requests, approvals, tenant).Some? && Current(requests, approvals, tenant) != ACTIVE
             && Reduces(requests[a.request].proposed, Current(requests, approvals, tenant))
    requires Severity(requests[request].proposed) == 2 && ApprovalOf(approvals + [a], request).None?
    requires checker >= 1 && FINANCIAL_MANAGER in roles && requests[request].maker != checker
    ensures var tenant := requests[request].tenant;
            var reply := ApproveReply(requests, approvals + [a], request, checker, roles, at, id);
            && (reply.Created? <==> !Before(Latest(requests, approvals, tenant).value, a))
            && (reply.Created? ==> CountFor(requests, Recorded(approvals + [a], reply), tenant) >= 3)
  {
    var tenant := requests[request].tenant;
    var now := Current(requests, approvals + [a], tenant);
    AppendTakesEffectIffGreatest(requests, approvals, a, tenant);
    ReducingIsMoreSevere(requests[a.request].proposed, Current(requests, approvals, tenant));
    ReducingIsMoreSevere(requests[request].proposed, now);
    LatestIsCounted(requests, approvals, tenant);
  }

  /** Out of order is possible: with equal times and a smaller random id, an approved
      READ_ONLY halt does not take effect, and a third approval of the tenant is accepted. */
  lemma TiedTimesAdmitThirdApproval()
    ensures var requests: Requests := map[0 := Request("t", WITHDRAWALS_HALTED, 1),
                                          1 := Request("t", READ_ONLY, 1),
                                          2 := Request("t", ALL_MUTATIONS_HALTED, 1)];
            var first := [Approval(0, 2, 5, 9)];
            var second := Recorded(first, ApproveReply(requests, first, 1, 2, {FINANCIAL_MANAGER}, 5, 3));
            && |second| == 2
            && Current(requests, second, "t") == WITHDRAWALS_HALTED
            && ApproveReply(requests, second, 2, 2, {FINANCIAL_MANAGER}, 5, 4).Created?
  {
    var requests: Requests := map[0 := Request("t", WITHDRAWALS_HALTED, 1),
                                  1 := Request("t", READ_ONLY, 1),
                                  2 := Request("t", ALL_MUTATIONS_HALTED, 1)];
    var first := [Approval(0, 2, 5, 9)];
    assert first[..0] == [];
    assert Current(requests, first, "t") == WITHDRAWALS_HALTED;
    ReducingIsMoreSevere(READ_ONLY, WITHDRAWALS_HALTED);
    ReducingIsMoreSevere(ALL_MUTATIONS_HALTED, WITHDRAWALS_HALTED);
    var second := Recorded(first, ApproveReply(requests, first, 1, 2, {FINANCIAL_MANAGER}, 5, 3));
    assert second == first + [Approval(1, 2, 5, 3)];
    AppendTakesEffectIffGreatest(requests, first, Approval(1, 2, 5, 3), "t");
  }

  // ---------------------------------------------------------------------------------------------
  // What is granted
  // ---------------------------------------------------------------------------------------------

  /** The current state is that of the approval with the greatest time, and the greatest id among those. */
  lemma LatestIsGreatest(requests: Requests, approvals: seq<Approval>, tenant: Tenant, a: Approval)
    requires a in approvals && OfTenant(requests, a, tenant)
    ensures var latest := Latest(requests, approvals, tenant);
            && latest.Some? && latest.value in approvals && OfTenant(requests, latest.value, tenant)
            && (a.at < latest.value.at || (a.at == latest.value.at && a.id <= latest.value.id))
            && Current(requests, approvals, tenant) == requests[latest.value.request].proposed
  {
  }

  /** What a tenant may still do in each state. */
  lemma WhatEachStateAllows(operation: Operation)
    ensures operation in Allowed(ACTIVE)
    ensures operation in Allowed(WITHDRAWALS_HALTED) <==> operation != WITHDRAWAL
    ensures operation in Allowed(FUNDING_HALTED) <==> operation != DEPOSIT
    ensures operation !in Allowed(READ_ONLY) && operation !in Allowed(ALL_MUTATIONS_HALTED)
  {
  }

  /** A tenant without approvals may do everything, and any halt of it is granted to a manager other than its maker. */
  lemma NewTenantIsUnrestricted(
    requests: Requests, approvals: seq<Approval>, request: RequestId, checker: int, roles: set<Role>, at: int, id: int)
    requires request in requests && forall a | a in approvals :: !OfTenant(requests, a, requests[request].tenant)
    ensures Allowed(Current(requests, approvals, requests[request].tenant)) ==
            {DEPOSIT, WITHDRAWAL, TRANSFER, RESERVATION, SETTLEMENT}
    ensures requests[request].proposed != ACTIVE && checker >= 1 && FINANCIAL_MANAGER in roles &&
            requests[request].maker != checker ==>
              ApproveReply(requests, approvals, request, checker, roles, at, id) ==
              Created(Approval(request, checker, at, id))
  {
    ReducingIsMoreSevere(requests[request].proposed, ACTIVE);
    if a :| a in approvals && a.request == request {
      assert OfTenant(requests, a, requests[request].tenant);
    }
  }

  /** Each reply is given exactly where it is due: an approval is created if and only if a manager other than the maker
      asks, the request exists and is unapproved, and it takes at least one operation away and adds none. */
  lemma ReplyIff(
    requests: Requests, approvals: seq<Approval>, request: RequestId, checker: int, roles: set<Role>, at: int, id: int)
    ensures var reply := ApproveReply(requests, approvals, request, checker, roles, at, id);
            var manager := checker >= 1 && FINANCIAL_MANAGER in roles;
            var known := request in requests;
            var own := known && requests[request].maker == checker;
            var approved := exists a :: a in approvals && a.request == request;
            var reduces := known &&
                           var before := Allowed(Current(requests, approvals, requests[request].tenant));
                           var after := Allowed(requests[request].proposed);
                           after <= before && exists operation :: operation in before && operation !in after;
            && (reply == AuthorizationDenied <==> !manager || own)
            && (reply == RequestMissing <==> manager && !known)
            && (reply.Existing? <==> manager && known && !own && approved)
            && (reply == TransitionDenied <==> manager && known && !own && !approved && !reduces)
            && (reply == Created(Approval(request, checker, at, id)) <==>
                manager && known && !own && !approved && reduces)
  {
    if request in requests {
      var before := Allowed(Current(requests, approvals, requests[request].tenant));
      var after := Allowed(requests[request].proposed);
      assert after < before <==> after <= before && !(before <= after);
    }
  }

  /** A request is stored if and only if an operator or manager asks for a halt with a safe reason code. */
  lemma SubmittedIff(
    db: Db, key: RequestId, tenant: Tenant, proposed: HaltState, maker: int, roles: set<Role>, reason: string)
    requires key !in db.requests
    ensures SubmitStep(db, key, tenant, proposed, maker, roles, reason) ==
            if maker >= 1 && (FINANCIAL_OPERATIONS in roles || FINANCIAL_MANAGER in roles) && proposed != ACTIVE &&
               SafeReason(reason)
            then db.(requests := db.requests[key := Request(tenant, proposed, maker)]) else db
  {
  }

  /** The whole of one approval from the empty tables. */
  function FirstApproval(
    key: RequestId, tenant: Tenant, proposed: HaltState, maker: int, makerRoles: set<Role>, reason: string,
    worker: Worker, checker: int, roles: set<Role>, at: int, id: int): seq<Action>
  {
    [Submit(key, tenant, proposed, maker, makerRoles, reason), Begin(worker, key, checker, roles),
     CheckExisting(worker), LockTenant(worker), ReadCurrent(worker), Insert(worker, at, id), Commit(worker)]
  }

  /** It ends in the stored approval, with every lock given back, and leaves the tenant exactly the operations that the
      proposed state allows. */
  lemma FirstApprovalIsGranted(
    lockKey: Tenant -> int, key: RequestId, tenant: Tenant, proposed: HaltState, maker: int, makerRoles: set<Role>,
    reason: string, worker: Worker, checker: int, roles: set<Role>, at: int, id: int)
    requires maker >= 1 && (FINANCIAL_OPERATIONS in makerRoles || FINANCIAL_MANAGER in makerRoles)
    requires proposed != ACTIVE && SafeReason(reason)
    requires checker >= 1 && FINANCIAL_MANAGER in roles && checker != maker
    ensures var actions :=
              FirstApproval(key, tenant, proposed, maker, makerRoles, reason, worker, checker, roles, at, id);
            var db := Run(lockKey, actions, 7);
            && db.requests == map[key := Request(tenant, proposed, maker)]
            && db.approvals == [Approval(key, checker, at, id)]
            && db.replies == [(key, checker, Created(Approval(key, checker, at, id)))]
            && db.rowLocks == map[] && db.tenantLocks == map[] && db.workers == map[]
            && AllowedNow(db, tenant) == Allowed(proposed)
  {
    var actions := FirstApproval(key, tenant, proposed, maker, makerRoles, reason, worker, checker, roles, at, id);
    var row := Request(tenant, proposed, maker);
    assert Run(lockKey, actions, 0) == EMPTY;
    assert Run(lockKey, actions, 1) == Next(lockKey, EMPTY, actions[0]);
    assert Run(lockKey, actions, 1) == Db(map[key := row], [], map[], map[], map[], []);
    ApprovalRun(lockKey, actions, map[key := row], key, worker, checker, roles, at, id);
    AppendTakesEffectIffGreatest(map[key := row], [], Approval(key, checker, at, id), tenant);
    assert [] + [Approval(key, checker, at, id)] == [Approval(key, checker, at, id)];
  }

  lemma ApprovalRun(
    lockKey: Tenant -> int, actions: seq<Action>, requests: Requests, key: RequestId, w: Worker, checker: int,
    roles: set<Role>, at: int, id: int)
    requires |actions| == 7 && Run(lockKey, actions, 1) == Db(requests, [], map[], map[], map[], [])
    requires actions[1] == Begin(w, key, checker, roles) && actions[2] == CheckExisting(w)
    requires actions[3] == LockTenant(w) && actions[4] == ReadCurrent(w)
    requires actions[5] == Insert(w, at, id) && actions[6] == Commit(w)
    requires key in requests && requests[key].proposed != ACTIVE
    requires checker >= 1 && FINANCIAL_MANAGER in roles && requests[key].maker != checker
    ensures var a := Approval(key, checker, at, id);
            Run(lockKey, actions, 7) == Db(requests, [a], map[], map[], map[], [(key, checker, Created(a))])
  {
    TakesLocks(lockKey, requests, key, w, checker, roles);
    GetsApproval(lockKey, requests, key, w, checker, at, id);
    RunStep(lockKey, actions, 1);
    RunStep(lockKey, actions, 2);
    RunStep(lockKey, actions, 3);
    RunStep(lockKey, actions, 4);
    RunStep(lockKey, actions, 5);
    RunStep(lockKey, actions, 6);
  }

  lemma RunStep(lockKey: Tenant -> int, actions: seq<Action>, n: nat)
    requires n < |actions|
    ensures Run(lockKey, actions, n + 1) == Next(lockKey, Run(lockKey, actions, n), actions[n])
  {
  }

  /** A worker that holds both locks for a request and nothing else has happened. */
  function Locked(lockKey: Tenant -> int, requests: Requests, key: RequestId, w: Worker, checker: int): Db
    requires key in requests
  {
    Db(requests, [], map[key := w], map[lockKey(requests[key].tenant) := w], map[w := HoldsTenant(key, checker)], [])
  }

  lemma TakesLocks(
    lockKey: Tenant -> int, requests: Requests, key: RequestId, w: Worker, checker: int, roles: set<Role>)
    requires key in requests && checker >= 1 && FINANCIAL_MANAGER in roles && requests[key].maker != checker
    ensures var begun := BeginStep(Db(requests, [], map[], map[], map[], []), w, key, checker, roles);
            LockTenantStep(lockKey, CheckExistingStep(lockKey, begun, w), w) ==
            Locked(lockKey, requests, key, w, checker)
  {
    var begun := BeginStep(Db(requests, [], map[], map[], map[], []), w, key, checker, roles);
    assert begun == Db(requests, [], map[key := w], map[], map[w := HoldsRow(key, checker)], []);
    assert CheckExistingStep(lockKey, begun, w) ==
           Db(requests, [], map[key := w], map[], map[w := Unapproved(key, checker)], []);
  }

  lemma GetsApproval(
    lockKey: Tenant -> int, requests: Requests, key: RequestId, w: Worker, checker: int, at: int, id: int)
    requires key in requests && requests[key].proposed != ACTIVE
    ensures var a := Approval(key, checker, at, id);
            var read := ReadCurrentStep(Locked(lockKey, requests, key, w, checker), w);
            CommitStep(lockKey, InsertStep(lockKey, read, w, at, id), w) ==
            Db(requests, [a], map[], map[], map[], [(key, checker, Created(a))])
  {
    var a, locked := Approval(key, checker, at, id), Locked(lockKey, requests, key, w, checker);
    var read := ReadCurrentStep(locked, w);
    assert read == locked.(workers := map[w := HasRead(key, checker, ACTIVE)]);
    ReducingIsMoreSevere(requests[key].proposed, ACTIVE);
    var inserted := InsertStep(lockKey, read, w, at, id);
    assert inserted == locked.(workers := map[w := HasInserted(key, checker, a)]);
    assert CommitStep(lockKey, inserted, w).rowLocks == map[] && CommitStep(lockKey, inserted, w).tenantLocks == map[];
  }

  /** The shortest and the longest reason codes, and what is refused. */
  lemma ReasonCodes(reason: string)
    ensures SafeReason(reason) ==> 3 <= |reason| <= 64 && 'A' <= reason[0] <= 'Z'
    ensures SafeReason("A0_") && SafeReason("ZZ9") && !SafeReason("A0") && !SafeReason("0A_") && !SafeReason("AbC")
    ensures SafeReason(seq(64, i => 'A')) && !SafeReason(seq(65, i => 'A'))
  {
    assert "A0_"[0] == 'A' && "A0_"[1] == '0' && "A0_"[2] == '_';
    assert "AbC"[1] == 'b' && "0A_"[0] == '0';
  }
}
