/** Operator freezes, trading halts, legal holds and the maker/checker requests that release them:
    FX/operations/services.py and the state steps of FX/operations/views.py. */
module OperatorControl {
  import opened Values

  type Tenant = string

  type Actor = nat

  type Time = int

  const HOUR: int := 3_600_000_000

  datatype Role =
    | SECURITY_MANAGER | COMPLIANCE_MANAGER | FINANCIAL_MANAGER | OPERATIONS_MANAGER | PLATFORM_ADMIN
    | OTHER_ROLE(name: string)

  datatype ActionType =
    | UNFREEZE | COMPLIANCE_OVERRIDE | FINANCIAL_OVERRIDE | WITHDRAWAL_OVERRIDE | PROVIDER_ACTIVATION
    | REAL_MONEY_ACTIVATION | KILL_SWITCH_RELEASE | LEGAL_HOLD_RELEASE

  function Policy(action: ActionType): set<Role> {
    match action
    case UNFREEZE => {SECURITY_MANAGER, PLATFORM_ADMIN}
    case COMPLIANCE_OVERRIDE => {COMPLIANCE_MANAGER, PLATFORM_ADMIN}
    case FINANCIAL_OVERRIDE => {FINANCIAL_MANAGER, PLATFORM_ADMIN}
    case WITHDRAWAL_OVERRIDE => {FINANCIAL_MANAGER, PLATFORM_ADMIN}
    case PROVIDER_ACTIVATION => {OPERATIONS_MANAGER, PLATFORM_ADMIN}
    case REAL_MONEY_ACTIVATION => {PLATFORM_ADMIN}
    case KILL_SWITCH_RELEASE => {OPERATIONS_MANAGER, PLATFORM_ADMIN}
    case LEGAL_HOLD_RELEASE => {COMPLIANCE_MANAGER, PLATFORM_ADMIN}
  }

  // ---------------------------------------------------------------------------------------------
  // Tables; rows are never deleted, so a row's position is its key
  // ---------------------------------------------------------------------------------------------

  datatype Level = NONE | PARTIAL | FULL

  datatype Freeze = Freeze(tenant: Tenant, account: nat, level: Level, releasedAt: Option<Time>)

  datatype Halt = Halt(tenant: Tenant, reason: string, releasedAt: Option<Time>, releasedBy: Option<Actor>)

  datatype Hold = Hold(tenant: Tenant, account: nat, active: bool, releasedAt: Option<Time>, releasedBy: Option<Actor>)

  datatype Status = PENDING | APPROVED | EXECUTED

  datatype Request = Request(
    tenant: Tenant,
    action: ActionType,
    target: string,
    reason: string,
    requestedBy: Actor,
    status: Status,
    approvedBy: Option<Actor>,
    approvedAt: Option<Time>,
    executedAt: Option<Time>,
    expiresAt: Time)

  /** The audit rows of approvals and releases: who did what for which request. `checkedAt` is the clock
      reading that the expiry was compared with. */
  datatype Approval = Approval(request: nat, approver: Actor, checkedAt: Time)

  datatype Release = Release(action: ActionType, row: nat, request: nat, executor: Actor, at: Time)

  datatype Db = Db(
    accounts: map<nat, Tenant>,
    freezes: seq<Freeze>,
    halts: seq<Halt>,
    holds: seq<Hold>,
    requests: seq<Request>,
    approvals: seq<Approval>,
    releases: seq<Release>)

  /** What a request's target text names. The results hold for every way of reading it. */
  datatype Target = AccountTarget(account: nat) | HaltTarget(row: nat) | HoldTarget(row: nat) | Unreadable

  type Reader = string -> Target

  function Fresh(accounts: map<nat, Tenant>): Db {
    Db(accounts, [], [], [], [], [], [])
  }

  predicate ActiveFreeze(f: Freeze, tenant: Tenant, account: nat) {
    f.tenant == tenant && f.account == account && f.releasedAt.None?
  }

  function FindFreeze(freezes: seq<Freeze>, tenant: Tenant, account: nat): (found: Option<nat>)
    ensures found.Some? ==> found.value < |freezes| && ActiveFreeze(freezes[found.value], tenant, account)
    ensures found.None? <==> forall i | 0 <= i < |freezes| :: !ActiveFreeze(freezes[i], tenant, account)
  {
    if freezes == [] then None
    else if ActiveFreeze(freezes[|freezes| - 1], tenant, account) then Some(|freezes| - 1)
    else FindFreeze(freezes[..|freezes| - 1], tenant, account)
  }

  predicate ActiveHalt(h: Halt, tenant: Tenant) {
    h.tenant == tenant && h.releasedAt.None?
  }

  predicate Halted(halts: seq<Halt>, tenant: Tenant) {
    exists i :: 0 <= i < |halts| && ActiveHalt(halts[i], tenant)
  }

  // ---------------------------------------------------------------------------------------------
  // The sensitive-mutation check
  // ---------------------------------------------------------------------------------------------

  datatype Mutation = WITHDRAWAL | TRANSFER | TRADING | CREDENTIALS | OTHER_MUTATION(name: string)

  datatype Verdict = ALLOWED | TRADING_HALTED | ACCOUNT_FROZEN

  function Check(db: Db, tenant: Tenant, account: nat, mutation: Mutation): Verdict {
    if mutation == TRADING && Halted(db.halts, tenant) then TRADING_HALTED
    else
      match FindFreeze(db.freezes, tenant, account)
      case None => ALLOWED
      case Some(i) =>
        if db.freezes[i].level == NONE then ALLOWED
        else if db.freezes[i].level == FULL || !mutation.OTHER_MUTATION? then ACCOUNT_FROZEN
        else ALLOWED
  }

  // ---------------------------------------------------------------------------------------------
  // Specification of the steps
  // ---------------------------------------------------------------------------------------------

  predicate InTenant(db: Db, account: nat, tenant: Tenant) {
    account in db.accounts && db.accounts[account] == tenant
  }

  function Frozen(db: Db, tenant: Tenant, account: nat, level: Level): Db {
    if !InTenant(db, account, tenant) || level == NONE then db
    else
      match FindFreeze(db.freezes, tenant, account)
      case Some(i) => db.(freezes := db.freezes[i := db.freezes[i].(level := level)])
      case None => db.(freezes := db.freezes + [Freeze(tenant, account, level, None)])
  }

  function Cut(text: string, length: nat): string {
    if |text| <= length then text else text[..length]
  }

  /** `reason` has been stripped of blanks; none may be missing. */
  function TradingStopped(db: Db, tenant: Tenant, reason: string): Db {
    if reason == "" || Halted(db.halts, tenant) then db
    else db.(halts := db.halts + [Halt(tenant, Cut(reason, 500), None, None)])
  }

  function HoldPlaced(db: Db, tenant: Tenant, account: nat): Db {
    if InTenant(db, account, tenant) then db.(holds := db.holds + [Hold(tenant, account, true, None, None)]) else db
  }

  datatype CreateReply = CREATED | ACTION_NOT_ALLOWED | REASON_REQUIRED

  /** `reason` has been stripped of blanks. */
  function RequestReply(action: ActionType, roles: set<Role>, reason: string): CreateReply {
    if roles * Policy(action) == {} then ACTION_NOT_ALLOWED
    else if reason == "" then REASON_REQUIRED
    else CREATED
  }

  function Requested(
    db: Db, tenant: Tenant, action: ActionType, target: string, reason: string, actor: Actor, roles: set<Role>,
    now: Time): Db
  {
    if RequestReply(action, roles, reason) != CREATED then db
    else db.(requests := db.requests +
               [Request(tenant, action, Cut(target, 128), Cut(reason, 500), actor, PENDING, None, None, None,
                        now + HOUR)])
  }

  datatype Error =
    | MISSING | SELF_APPROVAL_FORBIDDEN | REQUEST_NOT_APPROVABLE | INSUFFICIENT_ROLE | REQUEST_NOT_EXECUTABLE
    | MAKER_CANNOT_EXECUTE | EXTERNAL_AUTHORITY_REQUIRED | INVALID_TARGET | NO_ACTIVE_FREEZE

  predicate Present(db: Db, request: nat, tenant: Tenant) {
    request < |db.requests| && db.requests[request].tenant == tenant
  }

  /** None when the approval goes through. */
  function ApprovalError(db: Db, request: nat, tenant: Tenant, approver: Actor, roles: set<Role>, now: Time)
    : Option<Error>
  {
    if !Present(db, request, tenant) then Some(MISSING)
    else
      var r := db.requests[request];
      if r.requestedBy == approver then Some(SELF_APPROVAL_FORBIDDEN)
      else if r.status != PENDING || r.expiresAt <= now then Some(REQUEST_NOT_APPROVABLE)
      else if roles * Policy(r.action) == {} then Some(INSUFFICIENT_ROLE)
      else None
  }

  /** `now` is compared with the expiry and `stamp` is the later reading that is stored. */
  function Approved(db: Db, request: nat, tenant: Tenant, approver: Actor, roles: set<Role>, now: Time, stamp: Time)
    : Db
  {
    if ApprovalError(db, request, tenant, approver, roles, now).Some? then db
    else
      var r := db.requests[request];
      var approved := r.(status := APPROVED, approvedBy := Some(approver), approvedAt := Some(stamp));
      db.(requests := db.requests[request := approved],
          approvals := db.approvals + [Approval(request, approver, now)])
  }

  predicate Executable(action: ActionType) {
    action == UNFREEZE || action == KILL_SWITCH_RELEASE || action == LEGAL_HOLD_RELEASE
  }

  /** The row that the target names, if it can be released. */
  function ReleasableRow(read: Reader, db: Db, r: Request): Option<nat> {
    match (r.action, read(r.target))
    case (KILL_SWITCH_RELEASE, HaltTarget(row)) =>
      if row < |db.halts| && ActiveHalt(db.halts[row], r.tenant) then Some(row) else None
    case (LEGAL_HOLD_RELEASE, HoldTarget(row)) =>
      if row < |db.holds| && db.holds[row].tenant == r.tenant && db.holds[row].active && db.holds[row].releasedAt.None?
      then Some(row) else None
    case (UNFREEZE, AccountTarget(account)) =>
      if InTenant(db, account, r.tenant) then FindFreeze(db.freezes, r.tenant, account) else None
    case _ => None
  }

  function ExecutionError(
    read: Reader, db: Db, request: nat, tenant: Tenant, executor: Actor, roles: set<Role>): Option<Error>
  {
    if !Present(db, request, tenant) then Some(MISSING)
    else
      var r := db.requests[request];
      if r.status != APPROVED || r.approvedBy.None? then Some(REQUEST_NOT_EXECUTABLE)
      else if r.requestedBy == executor then Some(MAKER_CANNOT_EXECUTE)
      else if !Executable(r.action) then Some(EXTERNAL_AUTHORITY_REQUIRED)
      else if roles * Policy(r.action) == {} then Some(INSUFFICIENT_ROLE)
      else if ReleasableRow(read, db, r).Some? then None
      else if r.action == UNFREEZE && read(r.target).AccountTarget? && InTenant(db, read(r.target).account, r.tenant)
      then Some(NO_ACTIVE_FREEZE)
      else Some(INVALID_TARGET)
  }

  function ReleaseRow(db: Db, action: ActionType, row: nat, executor: Actor, now: Time): Db
    requires action == UNFREEZE ==> row < |db.freezes|
    requires action == KILL_SWITCH_RELEASE ==> row < |db.halts|
    requires action == LEGAL_HOLD_RELEASE ==> row < |db.holds|
  {
    match action
    case UNFREEZE => db.(freezes := db.freezes[row := db.freezes[row].(releasedAt := Some(now))])
    case KILL_SWITCH_RELEASE =>
      db.(halts := db.halts[row := db.halts[row].(releasedAt := Some(now), releasedBy := Some(executor))])
    case LEGAL_HOLD_RELEASE =>
      var released := db.holds[row].(active := false, releasedAt := Some(now), releasedBy := Some(executor));
      db.(holds := db.holds[row := released])
    case _ => db
  }

  /** `now` stamps the released row and `stamp` the request. */
  function Executed(
    read: Reader, db: Db, request: nat, tenant: Tenant, executor: Actor, roles: set<Role>, now: Time, stamp: Time): Db
  {
    if ExecutionError(read, db, request, tenant, executor, roles).Some? then db
    else
      var r := db.requests[request];
      var row := ReleasableRow(read, db, r).value;
      ReleaseRow(db, r.action, row, executor, now).(
        requests := db.requests[request := r.(status := EXECUTED, executedAt := Some(stamp))],
        releases := db.releases + [Release(r.action, row, request, executor, now)])
  }

  class OperatorStore {
    const accounts: map<nat, Tenant>
    var freezes: seq<Freeze>
    var halts: seq<Halt>
    var holds: seq<Hold>
    var requests: seq<Request>
    var approvals: seq<Approval>
    var releases: seq<Release>

    function Tables(): Db
      reads this
    {
      Db(accounts, freezes, halts, holds, requests, approvals, releases)
    }

    constructor (accounts: map<nat, Tenant>)
      ensures Tables() == Fresh(accounts)
    {
      this.accounts := accounts;
      freezes, halts, holds, requests, approvals, releases := [], [], [], [], [], [];
    }

    method AssertSensitiveMutationAllowed(tenant: Tenant, account: nat, mutation: Mutation) returns (v: Verdict)
      ensures v == Check(Tables(), tenant, account, mutation)
    {
      if mutation == TRADING && Halted(halts, tenant) {
        return TRADING_HALTED;
      }
      var freeze := FindFreeze(freezes, tenant, account);
      if freeze.None? || freezes[freeze.value].level == NONE {
        return ALLOWED;
      }
      if freezes[freeze.value].level == FULL || mutation in {WITHDRAWAL, TRANSFER, TRADING, CREDENTIALS} {
        return ACCOUNT_FROZEN;
      }
      return ALLOWED;
    }

    method FreezeAccount(tenant: Tenant, account: nat, level: Level)
      modifies this
      ensures Tables() == Frozen(old(Tables()), tenant, account, level)
    {
      if !InTenant(Tables(), account, tenant) {
        return;
      }
      if level != PARTIAL && level != FULL {
        return;
      }
      var existing := FindFreeze(freezes, tenant, account);
      if existing.Some? {
        freezes := freezes[existing.value := freezes[existing.value].(level := level)];
      } else {
        freezes := freezes + [Freeze(tenant, account, level, None)];
      }
    }

    /** False when no reason is given. */
    method StopTrading(tenant: Tenant, reason: string) returns (accepted: bool)
      modifies this
      ensures accepted <==> reason != ""
      ensures Tables() == TradingStopped(old(Tables()), tenant, reason)
    {
      if reason == "" {
        return false;
      }
      if !Halted(halts, tenant) {
        halts := halts + [Halt(tenant, Cut(reason, 500), None, None)];
      }
      return true;
    }

    method PlaceHold(tenant: Tenant, account: nat)
      modifies this
      ensures Tables() == HoldPlaced(old(Tables()), tenant, account)
    {
      if InTenant(Tables(), account, tenant) {
        holds := holds + [Hold(tenant, account, true, None, None)];
      }
    }

    method CreateRequest(
      tenant: Tenant, action: ActionType, target: string, reason: string, actor: Actor, roles: set<Role>, now: Time)
      returns (reply: CreateReply)
      modifies this
      ensures reply == RequestReply(action, roles, reason)
      ensures Tables() == Requested(old(Tables()), tenant, action, target, reason, actor, roles, now)
    {
      if roles * Policy(action) == {} {
        return ACTION_NOT_ALLOWED;
      }
      if reason == "" {
        return REASON_REQUIRED;
      }
      var targetRef := Cut(target, 128);
      requests := requests +
        [Request(tenant, action, targetRef, Cut(reason, 500), actor, PENDING, None, None, None, now + HOUR)];
      return CREATED;
    }

    method ApproveOperatorRequest(
      request: nat, tenant: Tenant, approver: Actor, roles: set<Role>, now: Time, stamp: Time)
      returns (error: Option<Error>)
      modifies this
      ensures error == ApprovalError(old(Tables()), request, tenant, approver, roles, now)
      ensures Tables() == Approved(old(Tables()), request, tenant, approver, roles, now, stamp)
    {
      if request >= |requests| || requests[request].tenant != tenant {
        return Some(MISSING);
      }
      var row := requests[request];
      if row.requestedBy == approver {
        return Some(SELF_APPROVAL_FORBIDDEN);
      }
      if row.status != PENDING || row.expiresAt <= now {
        return Some(REQUEST_NOT_APPROVABLE);
      }
      if roles * Policy(row.action) == {} {
        return Some(INSUFFICIENT_ROLE);
      }
      row := row.(status := APPROVED);
      row := row.(approvedBy := Some(approver));
      row := row.(approvedAt := Some(stamp));
      requests := requests[request := row];
      approvals := approvals + [Approval(request, approver, now)];
      return None;
    }

    method ExecuteOperatorRequest(
      read: Reader, request: nat, tenant: Tenant, executor: Actor, roles: set<Role>, now: Time, stamp: Time)
      returns (error: Option<Error>)
      modifies this
      ensures error == ExecutionError(read, old(Tables()), request, tenant, executor, roles)
      ensures Tables() == Executed(read, old(Tables()), request, tenant, executor, roles, now, stamp)
    {
      if request >= |requests| || requests[request].tenant != tenant {
        return Some(MISSING);
      }
      var r := requests[request];
      if r.status != APPROVED || r.approvedBy.None? {
        return Some(REQUEST_NOT_EXECUTABLE);
      }
      if r.requestedBy == executor {
        return Some(MAKER_CANNOT_EXECUTE);
      }
      if r.action !in {UNFREEZE, KILL_SWITCH_RELEASE, LEGAL_HOLD_RELEASE} {
        return Some(EXTERNAL_AUTHORITY_REQUIRED);
      }
      if roles * Policy(r.action) == {} {
        return Some(INSUFFICIENT_ROLE);
      }
      var target := read(r.target);
      var row: nat;
      if r.action == KILL_SWITCH_RELEASE {
        if !target.HaltTarget? || target.row >= |halts| || !ActiveHalt(halts[target.row], tenant) {
          return Some(INVALID_TARGET);
        }
        row := target.row;
        halts := halts[row := halts[row].(releasedAt := Some(now), releasedBy := Some(executor))];
      } else if r.action == LEGAL_HOLD_RELEASE {
        if !target.HoldTarget? || target.row >= |holds| || holds[target.row].tenant != tenant ||
           !holds[target.row].active || holds[target.row].releasedAt.Some? {
          return Some(INVALID_TARGET);
        }
        row := target.row;
        holds := holds[row := holds[row].(active := false, releasedAt := Some(now), releasedBy := Some(executor))];
      } else {
        if !target.AccountTarget? || !InTenant(Tables(), target.account, tenant) {
          return Some(INVALID_TARGET);
        }
        var freeze := FindFreeze(freezes, tenant, target.account);
        if freeze.None? {
          return Some(NO_ACTIVE_FREEZE);
        }
        row := freeze.value;
        freezes := freezes[row := freezes[row].(releasedAt := Some(now))];
      }
      requests := requests[request := r.(status := EXECUTED, executedAt := Some(stamp))];
      releases := releases + [Release(r.action, row, request, executor, now)];
      return None;
    }
  }

  // ---------------------------------------------------------------------------------------------
  // Runs
  // ---------------------------------------------------------------------------------------------

  datatype Op =
    | FreezeAccount(tenant: Tenant, account: nat, level: Level)
    | StopTrading(tenant: Tenant, reason: string)
    | PlaceHold(tenant: Tenant, account: nat)
    | CreateRequest(
        tenant: Tenant, action: ActionType, target: string, reason: string, actor: Actor, roles: set<Role>, now: Time)
    | Approve(request: nat, tenant: Tenant, actor: Actor, roles: set<Role>, now: Time, stamp: Time)
    | Execute(request: nat, tenant: Tenant, actor: Actor, roles: set<Role>, now: Time, stamp: Time)

  function Next(read: Reader, db: Db, op: Op): Db {
    match op
    case FreezeAccount(tenant, account, level) => Frozen(db, tenant, account, level)
    case StopTrading(tenant, reason) => TradingStopped(db, tenant, reason)
    case PlaceHold(tenant, account) => HoldPlaced(db, tenant, account)
    case CreateRequest(tenant, action, target, reason, actor, roles, now) =>
      Requested(db, tenant, action, target, reason, actor, roles, now)
    case Approve(request, tenant, actor, roles, now, stamp) => Approved(db, request, tenant, actor, roles, now, stamp)
    case Execute(request, tenant, actor, roles, now, stamp) =>
      Executed(read, db, request, tenant, actor, roles, now, stamp)
  }

  function Run(read: Reader, accounts: map<nat, Tenant>, ops: seq<Op>, n: nat): Db
    requires n <= |ops|
  {
    if n == 0 then Fresh(accounts) else Next(read, Run(read, accounts, ops, n - 1), ops[n - 1])
  }

  // ---------------------------------------------------------------------------------------------
  // What every step keeps
  // ---------------------------------------------------------------------------------------------

  /** An approved or executed request was approved before its expiry by someone other than its maker. */
  ghost predicate ProperlyApproved(db: Db, i: nat)
    requires i < |db.requests|
  {
    var r := db.requests[i];
    && r.approvedBy.Some? && r.approvedBy.value != r.requestedBy
    && exists k :: 0 <= k < |db.approvals| && db.approvals[k].request == i &&
                   db.approvals[k].approver == r.approvedBy.value && db.approvals[k].checkedAt < r.expiresAt
  }

  ghost predicate RequestsOk(db: Db) {
    forall i | 0 <= i < |db.requests| ::
      && (db.requests[i].status == EXECUTED <==> db.requests[i].executedAt.Some?)
      && (db.requests[i].status != PENDING ==> ProperlyApproved(db, i))
  }

  /** The row that a release names is released, and is the one its request's target names. */
  ghost predicate RowReleased(read: Reader, db: Db, k: Release, r: Request) {
    match k.action
    case UNFREEZE =>
      && k.row < |db.freezes| && db.freezes[k.row].releasedAt.Some?
      && db.freezes[k.row].tenant == r.tenant && read(r.target) == AccountTarget(db.freezes[k.row].account)
    case KILL_SWITCH_RELEASE =>
      && k.row < |db.halts| && db.halts[k.row].releasedAt.Some?
      && db.halts[k.row].tenant == r.tenant && read(r.target) == HaltTarget(k.row)
    case LEGAL_HOLD_RELEASE =>
      && k.row < |db.holds| && db.holds[k.row].releasedAt.Some?
      && db.holds[k.row].tenant == r.tenant && read(r.target) == HoldTarget(k.row)
    case _ => false
  }

  ghost predicate ReleaseOk(read: Reader, db: Db, k: Release) {
    && k.request < |db.requests|
    && db.requests[k.request].status == EXECUTED
    && db.requests[k.request].action == k.action
    && db.requests[k.request].requestedBy != k.executor
    && RowReleased(read, db, k, db.requests[k.request])
  }

  ghost predicate ReleasesOk(read: Reader, db: Db) {
    && (forall k | 0 <= k < |db.releases| :: ReleaseOk(read, db, db.releases[k]))
    && (forall j, k | 0 <= j < k < |db.releases| :: db.releases[j].request != db.releases[k].request)
    && (forall j, k | 0 <= j < k < |db.releases| && db.releases[j].action == db.releases[k].action ::
          db.releases[j].row != db.releases[k].row)
  }

  ghost predicate HasRelease(db: Db, action: ActionType, row: nat) {
    exists k :: 0 <= k < |db.releases| && db.releases[k].action == action && db.releases[k].row == row
  }

  /** Every released row and every executed request has its release. */
  ghost predicate Accounted(db: Db) {
    && (forall i | 0 <= i < |db.freezes| && db.freezes[i].releasedAt.Some? :: HasRelease(db, UNFREEZE, i))
    && (forall i | 0 <= i < |db.halts| && db.halts[i].releasedAt.Some? :: HasRelease(db, KILL_SWITCH_RELEASE, i))
    && (forall i | 0 <= i < |db.holds| && db.holds[i].releasedAt.Some? :: HasRelease(db, LEGAL_HOLD_RELEASE, i))
    && (forall i | 0 <= i < |db.requests| && db.requests[i].status == EXECUTED ::
          exists k :: 0 <= k < |db.releases| && db.releases[k].request == i)
  }

  /** Real levels, one active freeze per account, one active halt per tenant, holds active until released. */
  ghost predicate RowsOk(db: Db) {
    && (forall i | 0 <= i < |db.freezes| :: db.freezes[i].level != NONE)
    && (forall i, j | 0 <= i < j < |db.freezes| && db.freezes[i].releasedAt.None? ::
          !ActiveFreeze(db.freezes[j], db.freezes[i].tenant, db.freezes[i].account))
    && (forall i, j | 0 <= i < j < |db.halts| && db.halts[i].releasedAt.None? ::
          !ActiveHalt(db.halts[j], db.halts[i].tenant))
    && (forall i | 0 <= i < |db.holds| :: db.holds[i].active <==> db.holds[i].releasedAt.None?)
  }

  ghost predicate Safe(read: Reader, db: Db) {
    RequestsOk(db) && ReleasesOk(read, db) && Accounted(db) && RowsOk(db)
  }

  // ---------------------------------------------------------------------------------------------
  // Tables only grow
  // ---------------------------------------------------------------------------------------------

  ghost predicate RequestGrows(a: Request, b: Request) {
    && b.tenant == a.tenant && b.action == a.action && b.target == a.target && b.reason == a.reason
    && b.requestedBy == a.requestedBy && b.expiresAt == a.expiresAt
    && (a.status != PENDING ==> b.status != PENDING && b.approvedBy == a.approvedBy && b.approvedAt == a.approvedAt)
    && (a.status == EXECUTED ==> b == a)
  }

  /** Rows keep their identity, what is released or executed stays so, and the audit rows are only added to. */
  ghost predicate Grows(a: Db, b: Db) {
    && b.accounts == a.accounts
    && |a.freezes| <= |b.freezes| && |a.halts| <= |b.halts| && |a.holds| <= |b.holds| && |a.requests| <= |b.requests|
    && (forall i | 0 <= i < |a.freezes| ::
          && b.freezes[i].tenant == a.freezes[i].tenant && b.freezes[i].account == a.freezes[i].account
          && (a.freezes[i].releasedAt.Some? ==> b.freezes[i] == a.freezes[i]))
    && (forall i | 0 <= i < |a.halts| ::
          b.halts[i].tenant == a.halts[i].tenant && (a.halts[i].releasedAt.Some? ==> b.halts[i] == a.halts[i]))
    && (forall i | 0 <= i < |a.holds| ::
          && b.holds[i].tenant == a.holds[i].tenant && b.holds[i].account == a.holds[i].account
          && (a.holds[i].releasedAt.Some? ==> b.holds[i] == a.holds[i]))
    && (forall i | 0 <= i < |a.requests| :: RequestGrows(a.requests[i], b.requests[i]))
    && a.approvals <= b.approvals && a.releases <= b.releases
  }

  lemma ExecuteGrows(read: Reader, db: Db, op: Op)
    requires op.Execute?
    ensures Grows(db, Next(read, db, op))
  {
  }

  lemma TableOpGrows(read: Reader, db: Db, op: Op)
    requires op.FreezeAccount? || op.StopTrading? || op.PlaceHold?
    ensures Grows(db, Next(read, db, op))
  {
  }

  lemma StepGrows(read: Reader, db: Db, op: Op)
    ensures Grows(db, Next(read, db, op))
  {
    if op.Execute? {
      ExecuteGrows(read, db, op);
    } else if !op.CreateRequest? && !op.Approve? {
      TableOpGrows(read, db, op);
    }
  }

  lemma StepGrowsFurther(read: Reader, start: Db, db: Db, op: Op)
    requires Grows(start, db)
    ensures Grows(start, Next(read, db, op))
  {
    StepGrows(read, db, op);
  }

  lemma {:induction false} RunGrows(read: Reader, accounts: map<nat, Tenant>, ops: seq<Op>, m: nat, n: nat)
    requires m <= n <= |ops|
    ensures Grows(Run(read, accounts, ops, m), Run(read, accounts, ops, n))
    decreases n
  {
    if m < n {
      RunGrows(read, accounts, ops, m, n - 1);
      StepGrowsFurther(read, Run(read, accounts, ops, m), Run(read, accounts, ops, n - 1), ops[n - 1]);
    } else {
      GrowsReflexive(Run(read, accounts, ops, m));
    }
  }

  lemma GrowsReflexive(db: Db)
    ensures Grows(db, db)
  {
  }

  lemma ReleaseStaysFound(a: Db, b: Db, action: ActionType, row: nat)
    requires a.releases <= b.releases && HasRelease(a, action, row)
    ensures HasRelease(b, action, row)
  {
  }

  // ---------------------------------------------------------------------------------------------
  // Each step keeps Safe
  // ---------------------------------------------------------------------------------------------

  lemma StepKeepsRequests(read: Reader, db: Db, op: Op)
    requires RequestsOk(db)
    ensures RequestsOk(Next(read, db, op))
  {
    var next := Next(read, db, op);
    StepGrows(read, db, op);
    forall i | 0 <= i < |next.requests|
      ensures next.requests[i].status == EXECUTED <==> next.requests[i].executedAt.Some?
      ensures next.requests[i].status != PENDING ==> ProperlyApproved(next, i)
    {
      if i < |db.requests| && db.requests[i].status != PENDING {
      } else if next.requests[i].status != PENDING {
        assert next.approvals[|db.approvals|].request == i;
      }
    }
  }

  lemma ExecuteKeepsRows(read: Reader, db: Db, op: Op)
    requires RowsOk(db) && op.Execute?
    ensures RowsOk(Next(read, db, op))
  {
  }

  lemma StepKeepsRows(read: Reader, db: Db, op: Op)
    requires RowsOk(db)
    ensures RowsOk(Next(read, db, op))
  {
    if op.Execute? {
      ExecuteKeepsRows(read, db, op);
    }
  }

  lemma OtherKeepsReleases(read: Reader, db: Db, op: Op)
    requires ReleasesOk(read, db) && !op.Execute?
    ensures ReleasesOk(read, Next(read, db, op)) && Next(read, db, op).releases == db.releases
  {
    StepGrows(read, db, op);
    var next := Next(read, db, op);
    assert next.releases == db.releases;
    forall k | 0 <= k < |next.releases| ensures ReleaseOk(read, next, next.releases[k]) {
    }
  }

  ghost predicate RowActive(db: Db, action: ActionType, row: nat) {
    match action
    case UNFREEZE => row < |db.freezes| && db.freezes[row].releasedAt.None?
    case KILL_SWITCH_RELEASE => row < |db.halts| && db.halts[row].releasedAt.None?
    case LEGAL_HOLD_RELEASE => row < |db.holds| && db.holds[row].releasedAt.None?
    case _ => false
  }

  /** What a successful execution finds: an approved request of another maker and a row still active. */
  lemma ExecuteFinds(read: Reader, db: Db, op: Op)
    requires op.Execute? && ExecutionError(read, db, op.request, op.tenant, op.actor, op.roles).None?
    ensures op.request < |db.requests| && db.requests[op.request].status == APPROVED
    ensures var r := db.requests[op.request];
            && ReleasableRow(read, db, r).Some?
            && RowActive(db, r.action, ReleasableRow(read, db, r).value)
            && Next(read, db, op).releases ==
               db.releases + [Release(r.action, ReleasableRow(read, db, r).value, op.request, op.actor, op.now)]
  {
  }

  lemma NewReleaseOk(read: Reader, db: Db, op: Op)
    requires op.Execute? && ExecutionError(read, db, op.request, op.tenant, op.actor, op.roles).None?
    ensures var next := Next(read, db, op); ReleaseOk(read, next, next.releases[|next.releases| - 1])
  {
  }

  /** The released row was active, so no earlier release names it, and its request was not executed before. */
  lemma ExecuteKeepsReleases(read: Reader, db: Db, op: Op)
    requires ReleasesOk(read, db) && op.Execute?
    ensures ReleasesOk(read, Next(read, db, op))
  {
    if ExecutionError(read, db, op.request, op.tenant, op.actor, op.roles).None? {
      var next := Next(read, db, op);
      StepGrows(read, db, op);
      ExecuteFinds(read, db, op);
      NewReleaseOk(read, db, op);
      AppendRelease(read, db, next, next.releases[|db.releases|]);
    }
  }

  lemma AppendRelease(read: Reader, db: Db, next: Db, added: Release)
    requires ReleasesOk(read, db) && Grows(db, next) && next.releases == db.releases + [added]
    requires added.request < |db.requests| && db.requests[added.request].status == APPROVED
    requires RowActive(db, added.action, added.row) && ReleaseOk(read, next, added)
    ensures ReleasesOk(read, next)
  {
    forall k | 0 <= k < |next.releases| ensures ReleaseOk(read, next, next.releases[k]) {
    }
    forall k | 0 <= k < |db.releases|
      ensures db.releases[k].request != added.request
      ensures db.releases[k].action == added.action ==> db.releases[k].row != added.row
    {
      assert ReleaseOk(read, db, db.releases[k]);
    }
  }

  lemma OtherKeepsAccounted(read: Reader, db: Db, op: Op)
    requires Accounted(db)
    requires !op.Execute? || ExecutionError(read, db, op.request, op.tenant, op.actor, op.roles).Some?
    ensures Accounted(Next(read, db, op))
  {
    var next := Next(read, db, op);
    forall action, row | HasRelease(db, action, row) ensures HasRelease(next, action, row) {
      ReleaseStaysFound(db, next, action, row);
    }
  }

  /** A successful execution releases the one row and executes the one request that its release names. */
  lemma ExecuteReleasesOne(read: Reader, db: Db, op: Op)
    requires op.Execute? && ExecutionError(read, db, op.request, op.tenant, op.actor, op.roles).None?
    ensures var next := Next(read, db, op);
            && next.releases != []
            && var k := next.releases[|next.releases| - 1];
            && (forall i | 0 <= i < |next.freezes| && next.freezes[i].releasedAt.Some? ::
                  (i < |db.freezes| && db.freezes[i].releasedAt.Some?) || (k.action == UNFREEZE && k.row == i))
            && (forall i | 0 <= i < |next.halts| && next.halts[i].releasedAt.Some? ::
                  (i < |db.halts| && db.halts[i].releasedAt.Some?) || (k.action == KILL_SWITCH_RELEASE && k.row == i))
            && (forall i | 0 <= i < |next.holds| && next.holds[i].releasedAt.Some? ::
                  (i < |db.holds| && db.holds[i].releasedAt.Some?) || (k.action == LEGAL_HOLD_RELEASE && k.row == i))
            && (forall i | 0 <= i < |next.requests| && next.requests[i].status == EXECUTED ::
                  (i < |db.requests| && db.requests[i].status == EXECUTED) || k.request == i)
  {
  }

  lemma ExecuteKeepsAccounted(read: Reader, db: Db, op: Op)
    requires Accounted(db) && op.Execute?
    requires ExecutionError(read, db, op.request, op.tenant, op.actor, op.roles).None?
    ensures Accounted(Next(read, db, op))
  {
    var next := Next(read, db, op);
    ExecuteReleasesOne(read, db, op);
    ExecuteFinds(read, db, op);
    var k := next.releases[|db.releases|];
    assert HasRelease(next, k.action, k.row);
    forall action, row | HasRelease(db, action, row) ensures HasRelease(next, action, row) {
      ReleaseStaysFound(db, next, action, row);
    }
    forall i | 0 <= i < |next.requests| && next.requests[i].status == EXECUTED
      ensures exists k :: 0 <= k < |next.releases| && next.releases[k].request == i
    {
      if i < |db.requests| && db.requests[i].status == EXECUTED {
        var j :| 0 <= j < |db.releases| && db.releases[j].request == i;
        assert next.releases[j] == db.releases[j];
      }
    }
  }

  lemma StepKeepsSafe(read: Reader, db: Db, op: Op)
    requires Safe(read, db)
    ensures Safe(read, Next(read, db, op))
  {
    StepKeepsRequests(read, db, op);
    StepKeepsRows(read, db, op);
    if op.Execute? {
      ExecuteKeepsReleases(read, db, op);
    } else {
      OtherKeepsReleases(read, db, op);
    }
    if op.Execute? && ExecutionError(read, db, op.request, op.tenant, op.actor, op.roles).None? {
      ExecuteKeepsAccounted(read, db, op);
    } else {
      OtherKeepsAccounted(read, db, op);
    }
  }

  /** On every run, releases of freezes, halts and holds stand one to one with executed requests, each approved
      before expiry by someone other than its maker and executed by someone other than its maker. */
  lemma {:induction false} ReleasesMatchExecutedRequests(
    read: Reader, accounts: map<nat, Tenant>, ops: seq<Op>, n: nat)
    requires n <= |ops|
    ensures Safe(read, Run(read, accounts, ops, n))
  {
    if n > 0 {
      ReleasesMatchExecutedRequests(read, accounts, ops, n - 1);
      StepKeepsSafe(read, Run(read, accounts, ops, n - 1), ops[n - 1]);
    }
  }

  // ---------------------------------------------------------------------------------------------
  // A denied mutation is allowed again only after a release
  // ---------------------------------------------------------------------------------------------

  /** A release made since there were `since` of them, for a request approved before its expiry, whose maker is
      neither its approver nor its executor. */
  ghost predicate ProperReleaseSince(read: Reader, db: Db, since: nat, action: ActionType, row: nat) {
    exists k :: since <= k < |db.releases| && db.releases[k].action == action && db.releases[k].row == row &&
                ReleaseOk(read, db, db.releases[k]) && ProperlyApproved(db, db.releases[k].request)
  }

  lemma FrozenUntilReleased(read: Reader, a: Db, b: Db, tenant: Tenant, account: nat, mutation: Mutation)
    requires Safe(read, a) && Safe(read, b) && Grows(a, b)
    requires Check(a, tenant, account, mutation) == ACCOUNT_FROZEN
    ensures Check(b, tenant, account, mutation) == ALLOWED ==>
              var row := FindFreeze(a.freezes, tenant, account).value;
              || ProperReleaseSince(read, b, |a.releases|, UNFREEZE, row)
              || (mutation.OTHER_MUTATION? && b.freezes[row].releasedAt.None? && b.freezes[row].level == PARTIAL)
  {
    FreezeReleased(read, a, b, tenant, account, FindFreeze(a.freezes, tenant, account).value);
  }

  lemma FreezeReleased(read: Reader, a: Db, b: Db, tenant: Tenant, account: nat, row: nat)
    requires Safe(read, a) && Safe(read, b) && Grows(a, b)
    requires row < |a.freezes| && ActiveFreeze(a.freezes[row], tenant, account)
    ensures b.freezes[row].releasedAt.Some? ==> ProperReleaseSince(read, b, |a.releases|, UNFREEZE, row)
    ensures b.freezes[row].releasedAt.None? ==> ActiveFreeze(b.freezes[row], tenant, account)
  {
  }

  /** Over every run, a frozen account's withdrawal, transfer, trading or credentials check passes again only
      after a proper release of the very freeze that denied it. A mutation of another kind, which only a FULL
      freeze denies, can also pass because the freeze was lowered to PARTIAL. */
  lemma FreezeEndsOnlyByProperRelease(
    read: Reader, accounts: map<nat, Tenant>, ops: seq<Op>, m: nat, n: nat,
    tenant: Tenant, account: nat, mutation: Mutation)
    requires m <= n <= |ops|
    requires Check(Run(read, accounts, ops, m), tenant, account, mutation) == ACCOUNT_FROZEN
    requires Check(Run(read, accounts, ops, n), tenant, account, mutation) == ALLOWED
    ensures var a, b := Run(read, accounts, ops, m), Run(read, accounts, ops, n);
            var row := FindFreeze(a.freezes, tenant, account).value;
            && row < |b.freezes|
            && (|| ProperReleaseSince(read, b, |a.releases|, UNFREEZE, row)
                || (mutation.OTHER_MUTATION? && b.freezes[row].releasedAt.None? && b.freezes[row].level == PARTIAL))
  {
    ReleasesMatchExecutedRequests(read, accounts, ops, m);
    ReleasesMatchExecutedRequests(read, accounts, ops, n);
    RunGrows(read, accounts, ops, m, n);
    FrozenUntilReleased(read, Run(read, accounts, ops, m), Run(read, accounts, ops, n), tenant, account, mutation);
  }

  /** Re-freezing at PARTIAL is how a FULL freeze lets other mutations through without any release. */
  lemma RefreezeLowersFullFreeze(read: Reader, tenant: Tenant, account: nat, name: string)
    ensures var ops := [FreezeAccount(tenant, account, FULL), FreezeAccount(tenant, account, PARTIAL)];
            var accounts := map[account := tenant];
            && Check(Run(read, accounts, ops, 1), tenant, account, OTHER_MUTATION(name)) == ACCOUNT_FROZEN
            && Check(Run(read, accounts, ops, 2), tenant, account, OTHER_MUTATION(name)) == ALLOWED
            && Run(read, accounts, ops, 2).releases == []
  {
  }

  lemma HaltedUntilReleased(read: Reader, a: Db, b: Db, tenant: Tenant, row: nat)
    requires Safe(read, a) && Safe(read, b) && Grows(a, b)
    requires row < |a.halts| && ActiveHalt(a.halts[row], tenant)
    ensures !Halted(b.halts, tenant) ==> ProperReleaseSince(read, b, |a.releases|, KILL_SWITCH_RELEASE, row)
  {
  }

  /** Over every run, a halted tenant's trading check stops answering TRADING_HALTED only after a proper release
      of the halt that was active. */
  lemma TradingHaltEndsOnlyByProperRelease(
    read: Reader, accounts: map<nat, Tenant>, ops: seq<Op>, m: nat, n: nat, tenant: Tenant, account: nat)
    requires m <= n <= |ops|
    requires Check(Run(read, accounts, ops, m), tenant, account, TRADING) == TRADING_HALTED
    requires Check(Run(read, accounts, ops, n), tenant, account, TRADING) != TRADING_HALTED
    ensures var a, b := Run(read, accounts, ops, m), Run(read, accounts, ops, n);
            exists row :: 0 <= row < |a.halts| && ActiveHalt(a.halts[row], tenant) &&
                          ProperReleaseSince(read, b, |a.releases|, KILL_SWITCH_RELEASE, row)
  {
    var a, b := Run(read, accounts, ops, m), Run(read, accounts, ops, n);
    ReleasesMatchExecutedRequests(read, accounts, ops, m);
    ReleasesMatchExecutedRequests(read, accounts, ops, n);
    RunGrows(read, accounts, ops, m, n);
    var row :| 0 <= row < |a.halts| && ActiveHalt(a.halts[row], tenant);
    HaltedUntilReleased(read, a, b, tenant, row);
  }

  /** deletion_disposition: an active hold blocks the deletion of the account. */
  predicate BlockedByHold(db: Db, tenant: Tenant, account: nat) {
    exists i :: 0 <= i < |db.holds| && db.holds[i].tenant == tenant && db.holds[i].account == account &&
                db.holds[i].active
  }

  /** Over every run, a held account's deletion is unblocked only after every hold that blocked it was properly
      released. */
  lemma HoldEndsOnlyByProperRelease(
    read: Reader, accounts: map<nat, Tenant>, ops: seq<Op>, m: nat, n: nat, tenant: Tenant, account: nat, row: nat)
    requires m <= n <= |ops| && row < |Run(read, accounts, ops, m).holds|
    requires var hold := Run(read, accounts, ops, m).holds[row];
             hold.tenant == tenant && hold.account == account && hold.active
    requires !BlockedByHold(Run(read, accounts, ops, n), tenant, account)
    ensures ProperReleaseSince(read, Run(read, accounts, ops, n), |Run(read, accounts, ops, m).releases|,
                               LEGAL_HOLD_RELEASE, row)
  {
    var a, b := Run(read, accounts, ops, m), Run(read, accounts, ops, n);
    ReleasesMatchExecutedRequests(read, accounts, ops, m);
    ReleasesMatchExecutedRequests(read, accounts, ops, n);
    RunGrows(read, accounts, ops, m, n);
    assert !b.holds[row].active;
    assert HasRelease(b, LEGAL_HOLD_RELEASE, row);
  }
}
