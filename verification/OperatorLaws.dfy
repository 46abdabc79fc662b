/** What operator freezes, halts, holds and requests grant and deny (FX/operations/services.py and
    FX/operations/views.py), in terms of the rows alone. */
module OperatorLaws {
  import opened Values
  import opened OperatorControl

  // ---------------------------------------------------------------------------------------------
  // What is denied
  // ---------------------------------------------------------------------------------------------

  /** The tenant has an unreleased halt. */
  predicate TradingStoppedFor(db: Db, tenant: Tenant) {
    exists i :: 0 <= i < |db.halts| && db.halts[i].tenant == tenant && db.halts[i].releasedAt == None
  }

  /** The account has an unreleased freeze. */
  predicate FrozenFor(db: Db, tenant: Tenant, account: nat) {
    exists i :: 0 <= i < |db.freezes| && db.freezes[i].tenant == tenant && db.freezes[i].account == account &&
                db.freezes[i].releasedAt == None
  }

  /** The account has an unreleased FULL freeze. */
  predicate FullyFrozenFor(db: Db, tenant: Tenant, account: nat) {
    exists i :: 0 <= i < |db.freezes| && db.freezes[i].tenant == tenant && db.freezes[i].account == account &&
                db.freezes[i].releasedAt == None && db.freezes[i].level == FULL
  }

  predicate Sensitive(mutation: Mutation) {
    mutation == WITHDRAWAL || mutation == TRANSFER || mutation == TRADING || mutation == CREDENTIALS
  }

  /** The answer that the rows call for. */
  predicate AnsweredRightly(db: Db, tenant: Tenant, account: nat, mutation: Mutation) {
    var verdict, halted := Check(db, tenant, account, mutation), mutation == TRADING && TradingStoppedFor(db, tenant);
    var frozen := FullyFrozenFor(db, tenant, account) || (Sensitive(mutation) && FrozenFor(db, tenant, account));
    && (verdict == TRADING_HALTED <==> halted)
    && (verdict == ACCOUNT_FROZEN <==> !halted && frozen)
    && (verdict == ALLOWED <==> !halted && !frozen)
  }

  lemma CheckFollowsRows(db: Db, tenant: Tenant, account: nat, mutation: Mutation)
    requires RowsOk(db)
    ensures AnsweredRightly(db, tenant, account, mutation)
  {
    assert Halted(db.halts, tenant) <==> TradingStoppedFor(db, tenant) by {
      assert forall i | 0 <= i < |db.halts| ::
          ActiveHalt(db.halts[i], tenant) <==> db.halts[i].tenant == tenant && db.halts[i].releasedAt == None;
    }
    var found := FindFreeze(db.freezes, tenant, account);
    assert forall i | 0 <= i < |db.freezes| ::
        ActiveFreeze(db.freezes[i], tenant, account) <==>
        db.freezes[i].tenant == tenant && db.freezes[i].account == account && db.freezes[i].releasedAt == None;
    if found.Some? {
      assert FrozenFor(db, tenant, account);
      assert forall i | 0 <= i < |db.freezes| && ActiveFreeze(db.freezes[i], tenant, account) :: i == found.value;
    }
  }

  /** A freeze row at no level, which no step writes, denies nothing. */
  lemma NoLevelDeniesNothing(db: Db, tenant: Tenant, account: nat, mutation: Mutation)
    requires forall i | 0 <= i < |db.freezes| && ActiveFreeze(db.freezes[i], tenant, account) ::
               db.freezes[i].level == NONE
    requires mutation != TRADING
    ensures Check(db, tenant, account, mutation) == ALLOWED
  {
  }

  /** Over every run: while an account has an unreleased freeze, withdrawal, transfer, trading and credentials are
      denied, and anything else if and only if the freeze is FULL; while a tenant has an unreleased halt, trading is
      denied as halted; and nothing else is denied. */
  lemma DeniedIff(
    read: Reader, accounts: map<nat, Tenant>, ops: seq<Op>, n: nat, tenant: Tenant, account: nat, mutation: Mutation)
    requires n <= |ops|
    ensures AnsweredRightly(Run(read, accounts, ops, n), tenant, account, mutation)
  {
    ReleasesMatchExecutedRequests(read, accounts, ops, n);
    CheckFollowsRows(Run(read, accounts, ops, n), tenant, account, mutation);
  }

  // ---------------------------------------------------------------------------------------------
  // What each step does, and to whom
  // ---------------------------------------------------------------------------------------------

  /** Freezing an account of the tenant freezes it at the level asked for, and no one else; anything else is refused. */
  lemma FreezeTakesHold(db: Db, tenant: Tenant, account: nat, level: Level)
    requires RowsOk(db)
    ensures var next := Frozen(db, tenant, account, level);
            var own := account in db.accounts && db.accounts[account] == tenant;
            if own && (level == PARTIAL || level == FULL) then
              && FrozenFor(next, tenant, account)
              && (FullyFrozenFor(next, tenant, account) <==> level == FULL)
              && next == db.(freezes := next.freezes)
              && (forall t, a: nat | (t, a) != (tenant, account) ::
                    && (FrozenFor(next, t, a) <==> FrozenFor(db, t, a))
                    && (FullyFrozenFor(next, t, a) <==> FullyFrozenFor(db, t, a)))
            else next == db
  {
    var next := Frozen(db, tenant, account, level);
    if InTenant(db, account, tenant) && level != NONE {
      var found := FindFreeze(db.freezes, tenant, account);
      var row := if found.Some? then found.value else |db.freezes|;
      assert next.freezes[row] == Freeze(tenant, account, level, None);
      forall i | 0 <= i < |next.freezes| && i != row ensures i < |db.freezes| && next.freezes[i] == db.freezes[i] {
      }
      forall i | 0 <= i < |next.freezes| && ActiveFreeze(next.freezes[i], tenant, account) ensures i == row {
        assert i < |db.freezes| && next.freezes[i] == db.freezes[i] ==> ActiveFreeze(db.freezes[i], tenant, account);
      }
    }
  }

  /** A reason stops the tenant's trading, and no one else's. */
  lemma HaltTakesHold(db: Db, tenant: Tenant, reason: string)
    ensures var next := TradingStopped(db, tenant, reason);
            && (reason == "" ==> next == db)
            && (reason != "" ==> TradingStoppedFor(next, tenant))
            && next == db.(halts := next.halts)
            && (forall t | t != tenant :: TradingStoppedFor(next, t) <==> TradingStoppedFor(db, t))
  {
    var next := TradingStopped(db, tenant, reason);
    assert Halted(db.halts, tenant) ==> TradingStoppedFor(db, tenant);
    if next != db {
      assert next.halts[|db.halts|] == Halt(tenant, Cut(reason, 500), None, None);
      assert forall i | 0 <= i < |db.halts| :: next.halts[i] == db.halts[i];
    }
  }

  /** A hold blocks the deletion of that account, and of no other. */
  lemma HoldTakesHold(db: Db, tenant: Tenant, account: nat)
    ensures var next := HoldPlaced(db, tenant, account);
            var own := account in db.accounts && db.accounts[account] == tenant;
            && (own ==> BlockedByHold(next, tenant, account))
            && (!own ==> next == db)
            && next == db.(holds := next.holds)
            && (forall t, a: nat | (t, a) != (tenant, account) ::
                  BlockedByHold(next, t, a) <==> BlockedByHold(db, t, a))
  {
    var next := HoldPlaced(db, tenant, account);
    if InTenant(db, account, tenant) {
      assert next.holds[|db.holds|] == Hold(tenant, account, true, None, None);
      assert forall i | 0 <= i < |db.holds| :: next.holds[i] == db.holds[i];
    }
  }

  // ---------------------------------------------------------------------------------------------
  // Who may do what
  // ---------------------------------------------------------------------------------------------

  /** By role: what each manager may request, approve and execute. */
  predicate MayAct(roles: set<Role>, action: ActionType) {
    || PLATFORM_ADMIN in roles
    || (SECURITY_MANAGER in roles && action == UNFREEZE)
    || (COMPLIANCE_MANAGER in roles && (action == COMPLIANCE_OVERRIDE || action == LEGAL_HOLD_RELEASE))
    || (FINANCIAL_MANAGER in roles && (action == FINANCIAL_OVERRIDE || action == WITHDRAWAL_OVERRIDE))
    || (OPERATIONS_MANAGER in roles && (action == PROVIDER_ACTIVATION || action == KILL_SWITCH_RELEASE))
  }

  lemma PolicyByRole(roles: set<Role>, action: ActionType)
    ensures roles * Policy(action) != {} <==> MayAct(roles, action)
  {
    var allowed := Policy(action);
    assert forall role :: role in roles * allowed <==> role in roles && role in allowed;
    if roles * allowed != {} {
      var role :| role in roles * allowed;
    }
  }

  /** A request is created if and only if the role allows it and a reason is given; it is pending for an hour. */
  lemma CreatedIff(
    db: Db, tenant: Tenant, action: ActionType, target: string, reason: string, actor: Actor, roles: set<Role>,
    now: Time)
    ensures var next := Requested(db, tenant, action, target, reason, actor, roles, now);
            var reply := RequestReply(action, roles, reason);
            && (reply == ACTION_NOT_ALLOWED <==> !MayAct(roles, action))
            && (reply == REASON_REQUIRED <==> MayAct(roles, action) && reason == "")
            && (reply != CREATED ==> next == db)
            && (reply == CREATED ==>
                  && next == db.(requests := next.requests)
                  && |next.requests| == |db.requests| + 1 && next.requests[..|db.requests|] == db.requests
                  && var r := next.requests[|db.requests|];
                  && r.tenant == tenant && r.action == action && r.requestedBy == actor && r.status == PENDING
                  && r.approvedBy == None && r.approvedAt == None && r.executedAt == None
                  && r.expiresAt == now + 3_600_000_000
                  && r.target <= target && (|r.target| == 128 || r.target == target) && |r.target| <= 128
                  && r.reason <= reason && (|r.reason| == 500 || r.reason == reason) && |r.reason| <= 500)
  {
    PolicyByRole(roles, action);
  }

  /** An approval goes through if and only if the tenant's request is pending and not expired, and the approver is
      another person with the role; then only the request's status, approver and time of approval change. */
  lemma ApprovedIff(
    db: Db, request: nat, tenant: Tenant, approver: Actor, roles: set<Role>, now: Time, stamp: Time)
    ensures var next := Approved(db, request, tenant, approver, roles, now, stamp);
            var error := ApprovalError(db, request, tenant, approver, roles, now);
            var known := request < |db.requests| && db.requests[request].tenant == tenant;
            && (error == Some(MISSING) <==> !known)
            && (known ==>
                  var r := db.requests[request];
                  var other := r.requestedBy != approver;
                  var open := r.status == PENDING && now < r.expiresAt;
                  && (error == Some(SELF_APPROVAL_FORBIDDEN) <==> !other)
                  && (error == Some(REQUEST_NOT_APPROVABLE) <==> other && !open)
                  && (error == Some(INSUFFICIENT_ROLE) <==> other && open && !MayAct(roles, r.action))
                  && (error == None <==> other && open && MayAct(roles, r.action))
                  && (error == None ==>
                        next.requests == db.requests[request := Request(
                          r.tenant, r.action, r.target, r.reason, r.requestedBy, APPROVED, Some(approver), Some(stamp),
                          r.executedAt, r.expiresAt)]))
            && (error.Some? ==> next == db)
            && next == db.(requests := next.requests, approvals := next.approvals)
            && (error == None ==> next.approvals == db.approvals + [Approval(request, approver, now)])
  {
    if request < |db.requests| {
      PolicyByRole(roles, db.requests[request].action);
    }
  }

  /** The unreleased row of the tenant that the target names. */
  predicate Names(read: Reader, db: Db, r: Request, row: nat) {
    match r.action
    case UNFREEZE =>
      && read(r.target).AccountTarget? && row < |db.freezes| && db.freezes[row].tenant == r.tenant
      && db.freezes[row].account == read(r.target).account && db.freezes[row].releasedAt == None
      && read(r.target).account in db.accounts && db.accounts[read(r.target).account] == r.tenant
    case KILL_SWITCH_RELEASE =>
      && read(r.target) == HaltTarget(row) && row < |db.halts| && db.halts[row].tenant == r.tenant
      && db.halts[row].releasedAt == None
    case LEGAL_HOLD_RELEASE =>
      && read(r.target) == HoldTarget(row) && row < |db.holds| && db.holds[row].tenant == r.tenant
      && db.holds[row].active && db.holds[row].releasedAt == None
    case _ => false
  }

  lemma NamedRowIsReleasable(read: Reader, db: Db, r: Request)
    requires RowsOk(db)
    ensures forall row: nat | Names(read, db, r, row) :: ReleasableRow(read, db, r) == Some(row)
    ensures ReleasableRow(read, db, r).Some? ==> Names(read, db, r, ReleasableRow(read, db, r).value)
  {
    if r.action == UNFREEZE && read(r.target).AccountTarget? {
      var account := read(r.target).account;
      forall row: nat | Names(read, db, r, row) ensures ReleasableRow(read, db, r) == Some(row) {
        assert ActiveFreeze(db.freezes[row], r.tenant, account);
      }
    }
  }

  /** An execution goes through if and only if the tenant's request is approved, the executor is not its maker and has
      the role, the action is one of the three releases, and the target names an unreleased row of the tenant. */
  lemma ExecutedIff(read: Reader, db: Db, request: nat, tenant: Tenant, executor: Actor, roles: set<Role>)
    requires RowsOk(db)
    ensures var error := ExecutionError(read, db, request, tenant, executor, roles);
            var known := request < |db.requests| && db.requests[request].tenant == tenant;
            && (error == Some(MISSING) <==> !known)
            && (known ==>
                  var r := db.requests[request];
                  var approved := r.status == APPROVED && r.approvedBy != None;
                  var other := r.requestedBy != executor;
                  var release :=
                    r.action == UNFREEZE || r.action == KILL_SWITCH_RELEASE || r.action == LEGAL_HOLD_RELEASE;
                  var may := approved && other && release && MayAct(roles, r.action);
                  var named := exists row: nat :: Names(read, db, r, row);
                  var ownAccount := r.action == UNFREEZE && read(r.target).AccountTarget? &&
                                    read(r.target).account in db.accounts &&
                                    db.accounts[read(r.target).account] == r.tenant;
                  && (error == Some(REQUEST_NOT_EXECUTABLE) <==> !approved)
                  && (error == Some(MAKER_CANNOT_EXECUTE) <==> approved && !other)
                  && (error == Some(EXTERNAL_AUTHORITY_REQUIRED) <==> approved && other && !release)
                  && (error == Some(INSUFFICIENT_ROLE) <==> approved && other && release && !MayAct(roles, r.action))
                  && (error == None <==> may && named)
                  && (error == Some(NO_ACTIVE_FREEZE) <==> may && !named && ownAccount)
                  && (error == Some(INVALID_TARGET) <==> may && !named && !ownAccount))
  {
    if request < |db.requests| {
      var r := db.requests[request];
      PolicyByRole(roles, r.action);
      NamedRowIsReleasable(read, db, r);
    }
  }

  /** It releases exactly the named row, by the executor and at that time, and marks the request executed. */
  lemma ExecutedReleases(
    read: Reader, db: Db, request: nat, tenant: Tenant, executor: Actor, roles: set<Role>, now: Time, stamp: Time,
    row: nat)
    requires RowsOk(db) && ExecutionError(read, db, request, tenant, executor, roles) == None
    requires Names(read, db, db.requests[request], row)
    ensures var next, r := Executed(read, db, request, tenant, executor, roles, now, stamp), db.requests[request];
            && next.requests == db.requests[request := r.(status := EXECUTED, executedAt := Some(stamp))]
            && next.releases == db.releases + [Release(r.action, row, request, executor, now)]
            && next.accounts == db.accounts && next.approvals == db.approvals
            && next.freezes == (if r.action != UNFREEZE then db.freezes
                                else db.freezes[row := db.freezes[row].(releasedAt := Some(now))])
            && next.halts == (if r.action != KILL_SWITCH_RELEASE then db.halts
                              else db.halts[row := Halt(db.halts[row].tenant, db.halts[row].reason, Some(now),
                                                        Some(executor))])
            && next.holds == (if r.action != LEGAL_HOLD_RELEASE then db.holds
                              else db.holds[row := Hold(db.holds[row].tenant, db.holds[row].account, false, Some(now),
                                                        Some(executor))])
  {
    NamedRowIsReleasable(read, db, db.requests[request]);
  }

  // ---------------------------------------------------------------------------------------------
  // A release can be obtained
  // ---------------------------------------------------------------------------------------------

  /** The request, its approval within the hour and its execution, by three people. */
  function Released(
    read: Reader, db: Db, tenant: Tenant, action: ActionType, target: string, reason: string, maker: Actor,
    approver: Actor, executor: Actor, roles: set<Role>, now: Time): Db
  {
    var asked := Next(read, db, CreateRequest(tenant, action, target, reason, maker, roles, now));
    var granted := Next(read, asked, Approve(|db.requests|, tenant, approver, roles, now, now));
    Next(read, granted, Execute(|db.requests|, tenant, executor, roles, now, now))
  }

  lemma ReleaseGoesThrough(
    read: Reader, db: Db, tenant: Tenant, action: ActionType, target: string, reason: string, maker: Actor,
    approver: Actor, executor: Actor, roles: set<Role>, now: Time, row: nat)
    requires RowsOk(db) && MayAct(roles, action) && reason != "" && |target| <= 128
    requires maker != approver && maker != executor
    requires Names(read, db, Request(tenant, action, target, "", maker, PENDING, None, None, None, 0), row)
    ensures var next := Released(read, db, tenant, action, target, reason, maker, approver, executor, roles, now);
            && next.releases == db.releases + [Release(action, row, |db.requests|, executor, now)]
            && next.freezes == (if action != UNFREEZE then db.freezes
                                else db.freezes[row := db.freezes[row].(releasedAt := Some(now))])
            && next.halts == (if action != KILL_SWITCH_RELEASE then db.halts
                              else db.halts[row := Halt(db.halts[row].tenant, db.halts[row].reason, Some(now),
                                                        Some(executor))])
            && next.holds == (if action != LEGAL_HOLD_RELEASE then db.holds
                              else db.holds[row := Hold(db.holds[row].tenant, db.holds[row].account, false, Some(now),
                                                        Some(executor))])
  {
    var n := |db.requests|;
    var asked := Next(read, db, CreateRequest(tenant, action, target, reason, maker, roles, now));
    CreatedIff(db, tenant, action, target, reason, maker, roles, now);
    var granted := Next(read, asked, Approve(n, tenant, approver, roles, now, now));
    ApprovedIff(asked, n, tenant, approver, roles, now, now);
    var r := granted.requests[n];
    assert r.target == target && r.action == action && r.tenant == tenant && r.requestedBy == maker;
    assert RowsOk(granted) && Names(read, granted, r, row);
    ExecutedIff(read, granted, n, tenant, executor, roles);
    ExecutedReleases(read, granted, n, tenant, executor, roles, now, now, row);
  }

  /** From any reachable table, a frozen account of the tenant can be released by a maker, another approver and an
      executor other than the maker, with the security role; then nothing of it is denied by a freeze. */
  lemma UnfreezeCanBeObtained(
    read: Reader, db: Db, tenant: Tenant, account: nat, target: string, reason: string, maker: Actor, approver: Actor,
    executor: Actor, now: Time)
    requires RowsOk(db) && account in db.accounts && db.accounts[account] == tenant && FrozenFor(db, tenant, account)
    requires reason != "" && |target| <= 128 && read(target) == AccountTarget(account)
    requires maker != approver && maker != executor
    ensures !FrozenFor(Released(read, db, tenant, UNFREEZE, target, reason, maker, approver, executor,
                                {SECURITY_MANAGER}, now), tenant, account)
  {
    var row :| 0 <= row < |db.freezes| && db.freezes[row].tenant == tenant && db.freezes[row].account == account &&
               db.freezes[row].releasedAt == None;
    ReleaseGoesThrough(
      read, db, tenant, UNFREEZE, target, reason, maker, approver, executor, {SECURITY_MANAGER}, now, row);
    assert forall i | 0 <= i < |db.freezes| && ActiveFreeze(db.freezes[i], tenant, account) :: i == row by {
      assert ActiveFreeze(db.freezes[row], tenant, account);
    }
  }

  /** Likewise a tenant's trading can be resumed with the operations role. */
  lemma TradingCanBeResumed(
    read: Reader, db: Db, tenant: Tenant, row: nat, target: string, reason: string, maker: Actor, approver: Actor,
    executor: Actor, now: Time)
    requires RowsOk(db) && row < |db.halts| && db.halts[row].tenant == tenant && db.halts[row].releasedAt == None
    requires reason != "" && |target| <= 128 && read(target) == HaltTarget(row)
    requires maker != approver && maker != executor
    ensures !TradingStoppedFor(Released(read, db, tenant, KILL_SWITCH_RELEASE, target, reason, maker, approver,
                                        executor, {OPERATIONS_MANAGER}, now), tenant)
  {
    ReleaseGoesThrough(
      read, db, tenant, KILL_SWITCH_RELEASE, target, reason, maker, approver, executor, {OPERATIONS_MANAGER}, now, row);
    assert forall i | 0 <= i < |db.halts| && ActiveHalt(db.halts[i], tenant) :: i == row by {
      assert ActiveHalt(db.halts[row], tenant);
    }
  }

  /** And each hold can be released with the compliance role. */
  lemma HoldCanBeReleased(
    read: Reader, db: Db, tenant: Tenant, row: nat, target: string, reason: string, maker: Actor, approver: Actor,
    executor: Actor, now: Time)
    requires RowsOk(db) && row < |db.holds| && db.holds[row].tenant == tenant && db.holds[row].active
    requires reason != "" && |target| <= 128 && read(target) == HoldTarget(row)
    requires maker != approver && maker != executor
    ensures var next := Released(read, db, tenant, LEGAL_HOLD_RELEASE, target, reason, maker, approver, executor,
                                 {COMPLIANCE_MANAGER}, now);
            row < |next.holds| && !next.holds[row].active
  {
    ReleaseGoesThrough(
      read, db, tenant, LEGAL_HOLD_RELEASE, target, reason, maker, approver, executor, {COMPLIANCE_MANAGER}, now, row);
  }
}
