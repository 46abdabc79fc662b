/** Operational reconciliation, statements, support cases, report and privacy jobs, and notifications:
    FX/operations/services.py, FX/operations/tasks.py and the state steps of FX/operations/views.py. */
module Operations {
  import opened Values
  import Control = OperatorControl

  type Tenant = Control.Tenant

  type Time = Control.Time

  /** A row of the statement table; `supersedes` is the position of another row. */
  datatype Statement = Statement(
    statementId: nat, version: nat, tenant: Tenant, account: nat, supersedes: Option<nat>, reconciliationPassed: bool)

  datatype CaseStatus = OPEN | PENDING_CUSTOMER | PENDING_INTERNAL | ESCALATED | RESOLVED | CLOSED

  datatype Team = SECURITY | COMPLIANCE | FINANCIAL | ENGINEERING | OPERATIONS

  datatype Case = Case(
    tenant: Tenant, status: CaseStatus, resolvedAt: Option<Time>, assignedTeam: Option<Team>, assignedTo: Option<nat>)

  /** The person that an assignment names: not an account of the tenant, without a support role, or fit for it. */
  datatype Assignee = Nobody | Ineligible | Eligible(user: nat)

  /** An event as it is submitted; None and UNKNOWN_EVENT stand for texts that name no team, status or event. */
  datatype CaseEvent =
    | NOTE
    | ASSIGN(assignee: Assignee)
    | ESCALATE(team: Option<Team>)
    | CHANGE_STATUS(to: Option<CaseStatus>)
    | RESOLVE
    | REOPEN
    | UNKNOWN_EVENT

  datatype EventReply =
    | RECORDED | INVALID_CASE_ACTION | INVALID_ESCALATION | ASSIGNEE_NOT_FOUND | INVALID_ASSIGNEE | INVALID_STATUS

  datatype JobStatus = QUEUED | RUNNING | COMPLETED | FAILED

  /** A report or privacy export job. */
  datatype Job = Job(
    tenant: Tenant, status: JobStatus, artifactRef: string, completedAt: Option<Time>, reconciliationPassed: bool)

  datatype NoticeStatus = NOTICE_QUEUED | NOTICE_SENT | NOTICE_DELIVERED | NOTICE_READ | NOTICE_FAILED

  datatype Notice = Notice(tenant: Tenant, status: NoticeStatus, deliveredAt: Option<Time>)

  datatype NoticeEvent = SEND | READ | RETRY | FAIL

  datatype Tables = Tables(
    control: Control.Db,
    statements: seq<Statement>,
    cases: seq<Case>,
    reports: seq<Job>,
    exports: seq<Job>,
    notices: seq<Notice>)

  // ---------------------------------------------------------------------------------------------
  // The six checks
  // ---------------------------------------------------------------------------------------------

  predicate SecurityCheck(t: Tables, tenant: Tenant) {
    forall i | 0 <= i < |t.control.freezes| && t.control.freezes[i].tenant == tenant ::
      !(t.control.freezes[i].level == Control.NONE && t.control.freezes[i].releasedAt.None?)
  }

  predicate NotificationCheck(t: Tables, tenant: Tenant) {
    forall i | 0 <= i < |t.notices| && t.notices[i].tenant == tenant ::
      !(t.notices[i].status == NOTICE_DELIVERED && t.notices[i].deliveredAt.None?)
  }

  predicate SupportCheck(t: Tables, tenant: Tenant) {
    forall i | 0 <= i < |t.cases| && t.cases[i].tenant == tenant ::
      !((t.cases[i].status == RESOLVED || t.cases[i].status == CLOSED) && t.cases[i].resolvedAt.None?)
  }

  predicate CompletedWithoutArtifact(jobs: seq<Job>, tenant: Tenant) {
    exists i :: 0 <= i < |jobs| && jobs[i].tenant == tenant && jobs[i].status == COMPLETED && jobs[i].artifactRef == ""
  }

  predicate ReportingCheck(t: Tables, tenant: Tenant) {
    && (forall i | 0 <= i < |t.statements| && t.statements[i].tenant == tenant :: t.statements[i].reconciliationPassed)
    && !CompletedWithoutArtifact(t.reports, tenant)
  }

  predicate PrivacyCheck(t: Tables, tenant: Tenant) {
    !CompletedWithoutArtifact(t.exports, tenant)
  }

  predicate OperatorCheck(t: Tables, tenant: Tenant) {
    forall i | 0 <= i < |t.control.requests| && t.control.requests[i].tenant == tenant ::
      !(t.control.requests[i].status == Control.EXECUTED && t.control.requests[i].executedAt.None?)
  }

  predicate AllPass(t: Tables, tenant: Tenant) {
    && SecurityCheck(t, tenant) && NotificationCheck(t, tenant) && SupportCheck(t, tenant)
    && ReportingCheck(t, tenant) && PrivacyCheck(t, tenant) && OperatorCheck(t, tenant)
  }

  // ---------------------------------------------------------------------------------------------
  // Statements
  // ---------------------------------------------------------------------------------------------

  datatype IssueError =
    | INVALID_STATEMENT_PERIOD | FINANCIAL_SERVICE_AUTHORITY_REQUIRED | RECONCILIATION_REQUIRED
    | INVALID_SUPERSEDED_STATEMENT | CORRECTION_REASON_REQUIRED | UNIQUE_VIOLATION

  /** What the caller of issue_simulation_statement supplies: `realHistory` tells whether the period holds a
      non-simulated entry, `newId` is the generated statement id and `reasonGiven` whether the reason is not
      blank. */
  datatype Issue = Issue(
    tenant: Tenant, account: nat, start: Time, end: Time, realHistory: bool, newId: nat, supersedes: Option<nat>,
    reasonGiven: bool)

  predicate Taken(statements: seq<Statement>, statementId: nat, version: nat) {
    exists i :: 0 <= i < |statements| && statements[i].statementId == statementId && statements[i].version == version
  }

  function Drafted(statements: seq<Statement>, issue: Issue): Statement
    requires issue.supersedes.Some? ==> issue.supersedes.value < |statements|
  {
    if issue.supersedes.None? then Statement(issue.newId, 1, issue.tenant, issue.account, None, true)
    else
      var previous := statements[issue.supersedes.value];
      Statement(previous.statementId, previous.version + 1, issue.tenant, issue.account, issue.supersedes, true)
  }

  function IssueErrorOf(t: Tables, issue: Issue): Option<IssueError>
    requires issue.supersedes.Some? ==> issue.supersedes.value < |t.statements|
  {
    if issue.start >= issue.end then Some(INVALID_STATEMENT_PERIOD)
    else if issue.realHistory then Some(FINANCIAL_SERVICE_AUTHORITY_REQUIRED)
    else if !AllPass(t, issue.tenant) then Some(RECONCILIATION_REQUIRED)
    else if issue.supersedes.Some? && (t.statements[issue.supersedes.value].tenant != issue.tenant ||
                                       t.statements[issue.supersedes.value].account != issue.account)
    then Some(INVALID_SUPERSEDED_STATEMENT)
    else if issue.supersedes.Some? && !issue.reasonGiven then Some(CORRECTION_REASON_REQUIRED)
    else
      var draft := Drafted(t.statements, issue);
      if Taken(t.statements, draft.statementId, draft.version) then Some(UNIQUE_VIOLATION) else None
  }

  function Issued(t: Tables, issue: Issue): Tables
    requires issue.supersedes.Some? ==> issue.supersedes.value < |t.statements|
  {
    if IssueErrorOf(t, issue).Some? then t
    else t.(statements := t.statements + [Drafted(t.statements, issue)])
  }

  // ---------------------------------------------------------------------------------------------
  // Cases, jobs and notifications
  // ---------------------------------------------------------------------------------------------

  function ReplyTo(event: CaseEvent): EventReply {
    match event
    case UNKNOWN_EVENT => INVALID_CASE_ACTION
    case ESCALATE(None) => INVALID_ESCALATION
    case ASSIGN(Nobody) => ASSIGNEE_NOT_FOUND
    case ASSIGN(Ineligible) => INVALID_ASSIGNEE
    case CHANGE_STATUS(None) => INVALID_STATUS
    case _ => RECORDED
  }

  function CaseAfter(c: Case, event: CaseEvent, now: Time): Case {
    match event
    case ASSIGN(Eligible(user)) => c.(assignedTo := Some(user))
    case ESCALATE(Some(team)) => c.(status := ESCALATED, assignedTeam := Some(team))
    case CHANGE_STATUS(Some(to)) =>
      c.(status := to, resolvedAt := if to == RESOLVED || to == CLOSED then Some(now) else None)
    case RESOLVE => c.(status := RESOLVED, resolvedAt := Some(now))
    case REOPEN => c.(status := OPEN, resolvedAt := None)
    case _ => c
  }

  /** The first transaction of a job; `checked` is false for privacy exports, which carry no reconciliation. */
  function Started(job: Job, checked: bool): Job {
    if job.status == COMPLETED || job.status == RUNNING then job
    else if checked && !job.reconciliationPassed then job.(status := FAILED)
    else job.(status := RUNNING)
  }

  /** The last transaction of a job, which does not look at the status it overwrites. */
  function Finished(job: Job, artifactRef: string, now: Time): Job {
    job.(status := COMPLETED, completedAt := Some(now), artifactRef := artifactRef)
  }

  /** The failure handler. */
  function Failed(job: Job): Job {
    job.(status := FAILED)
  }

  function NoticeAfter(n: Notice, event: NoticeEvent): Notice {
    match event
    case SEND => n.(status := NOTICE_SENT)
    case READ => n.(status := NOTICE_READ)
    case RETRY => n.(status := NOTICE_QUEUED)
    case FAIL => n.(status := NOTICE_FAILED)
  }

  class OperationsStore {
    var tables: Tables

    constructor (accounts: map<nat, Tenant>)
      ensures tables == Fresh(accounts)
    {
      tables := Fresh(accounts);
    }

    method IssueSimulationStatement(issue: Issue) returns (error: Option<IssueError>)
      requires issue.supersedes.Some? ==> issue.supersedes.value < |tables.statements|
      modifies this
      ensures error == IssueErrorOf(old(tables), issue)
      ensures tables == Issued(old(tables), issue)
    {
      if issue.start >= issue.end {
        return Some(INVALID_STATEMENT_PERIOD);
      }
      if issue.realHistory {
        return Some(FINANCIAL_SERVICE_AUTHORITY_REQUIRED);
      }
      if !AllPass(tables, issue.tenant) {
        return Some(RECONCILIATION_REQUIRED);
      }
      var version, statementId := 1, issue.newId;
      if issue.supersedes.Some? {
        var superseded := tables.statements[issue.supersedes.value];
        if superseded.tenant != issue.tenant || superseded.account != issue.account {
          return Some(INVALID_SUPERSEDED_STATEMENT);
        }
        if !issue.reasonGiven {
          return Some(CORRECTION_REASON_REQUIRED);
        }
        statementId := superseded.statementId;
        version := superseded.version + 1;
      }
      if Taken(tables.statements, statementId, version) {
        return Some(UNIQUE_VIOLATION);
      }
      var statement := Statement(statementId, version, issue.tenant, issue.account, issue.supersedes, true);
      tables := tables.(statements := tables.statements + [statement]);
      return None;
    }

    /** The report job's first transaction; returns the status the task ends or goes on with. */
    method StartReport(i: nat) returns (status: JobStatus)
      requires i < |tables.reports|
      modifies this
      ensures tables == old(tables).(reports := old(tables).reports[i := Started(old(tables).reports[i], true)])
      ensures status == tables.reports[i].status
    {
      var job := tables.reports[i];
      if job.status == COMPLETED {
        assert tables.reports == tables.reports[i := job];
        return COMPLETED;
      }
      if job.status != QUEUED && job.status != FAILED {
        assert tables.reports == tables.reports[i := job];
        return job.status;
      }
      if !job.reconciliationPassed {
        tables := tables.(reports := tables.reports[i := job.(status := FAILED)]);
        return FAILED;
      }
      tables := tables.(reports := tables.reports[i := job.(status := RUNNING)]);
      return RUNNING;
    }

    method HandleSupportEvent(i: nat, event: CaseEvent, now: Time) returns (reply: EventReply)
      requires i < |tables.cases|
      modifies this
      ensures reply == ReplyTo(event)
      ensures tables == old(tables).(cases := old(tables).cases[i := CaseAfter(old(tables).cases[i], event, now)])
    {
      var row := tables.cases[i];
      assert tables.cases == tables.cases[i := row];
      if event.UNKNOWN_EVENT? {
        return INVALID_CASE_ACTION;
      }
      match event {
        case ESCALATE(team) =>
          if team.None? {
            return INVALID_ESCALATION;
          }
          row := row.(status := ESCALATED, assignedTeam := team);
        case ASSIGN(assignee) =>
          if assignee.Nobody? {
            return ASSIGNEE_NOT_FOUND;
          }
          if assignee.Ineligible? {
            return INVALID_ASSIGNEE;
          }
          row := row.(assignedTo := Some(assignee.user));
        case CHANGE_STATUS(to) =>
          if to.None? {
            return INVALID_STATUS;
          }
          row := row.(status := to.value);
          if to.value == RESOLVED || to.value == CLOSED {
            row := row.(resolvedAt := Some(now));
          } else {
            row := row.(resolvedAt := None);
          }
        case RESOLVE =>
          row := row.(status := RESOLVED);
          row := row.(resolvedAt := Some(now));
        case REOPEN =>
          row := row.(status := OPEN);
          row := row.(resolvedAt := None);
        case NOTE =>
      }
      tables := tables.(cases := tables.cases[i := row]);
      return RECORDED;
    }
  }

  // ---------------------------------------------------------------------------------------------
  // Runs
  // ---------------------------------------------------------------------------------------------

  datatype Op =
    | Operator(op: Control.Op)
    | IssueStatement(issue: Issue)
    | OpenCase(tenant: Tenant)
    | TouchCase(row: nat, event: CaseEvent, now: Time)
    | CreateReport(tenant: Tenant)
    | StartReport(row: nat)
    | FinishReport(row: nat, artifactRef: string, now: Time)
    | FailReport(row: nat)
    | CreateExport(tenant: Tenant)
    | StartExport(row: nat)
    | FinishExport(row: nat, artifactRef: string, now: Time)
    | FailExport(row: nat)
    | CreateNotice(tenant: Tenant)
    | TouchNotice(row: nat, change: NoticeEvent)

  function Fresh(accounts: map<nat, Tenant>): Tables {
    Tables(Control.Fresh(accounts), [], [], [], [], [])
  }

  /** A written artifact always has a non-empty reference, so an empty one finishes nothing. */
  function FinishedAt(jobs: seq<Job>, row: nat, artifactRef: string, now: Time): seq<Job> {
    if row < |jobs| && artifactRef != "" then jobs[row := Finished(jobs[row], artifactRef, now)] else jobs
  }

  function Next(read: Control.Reader, t: Tables, op: Op): Tables {
    match op
    case Operator(o) => t.(control := Control.Next(read, t.control, o))
    case IssueStatement(issue) =>
      if issue.supersedes.Some? && issue.supersedes.value >= |t.statements| then t else Issued(t, issue)
    case OpenCase(tenant) => t.(cases := t.cases + [Case(tenant, OPEN, None, None, None)])
    case TouchCase(row, event, now) =>
      if row < |t.cases| then t.(cases := t.cases[row := CaseAfter(t.cases[row], event, now)]) else t
    case CreateReport(tenant) => t.(reports := t.reports + [Job(tenant, QUEUED, "", None, AllPass(t, tenant))])
    case StartReport(row) =>
      if row < |t.reports| then t.(reports := t.reports[row := Started(t.reports[row], true)]) else t
    case FinishReport(row, artifactRef, now) => t.(reports := FinishedAt(t.reports, row, artifactRef, now))
    case FailReport(row) =>
      if row < |t.reports| then t.(reports := t.reports[row := Failed(t.reports[row])]) else t
    case CreateExport(tenant) => t.(exports := t.exports + [Job(tenant, QUEUED, "", None, false)])
    case StartExport(row) =>
      if row < |t.exports| then t.(exports := t.exports[row := Started(t.exports[row], false)]) else t
    case FinishExport(row, artifactRef, now) => t.(exports := FinishedAt(t.exports, row, artifactRef, now))
    case FailExport(row) =>
      if row < |t.exports| then t.(exports := t.exports[row := Failed(t.exports[row])]) else t
    case CreateNotice(tenant) => t.(notices := t.notices + [Notice(tenant, NOTICE_QUEUED, None)])
    case TouchNotice(row, event) =>
      if row < |t.notices| then t.(notices := t.notices[row := NoticeAfter(t.notices[row], event)]) else t
  }

  function Run(read: Control.Reader, accounts: map<nat, Tenant>, ops: seq<Op>, n: nat): Tables
    requires n <= |ops|
  {
    if n == 0 then Fresh(accounts) else Next(read, Run(read, accounts, ops, n - 1), ops[n - 1])
  }

  // ---------------------------------------------------------------------------------------------
  // Statement chains
  // ---------------------------------------------------------------------------------------------

  /** Row i starts its chain or follows, in the same tenant and account, the row it supersedes. */
  ghost predicate Linked(statements: seq<Statement>, i: nat)
    requires i < |statements|
  {
    var s := statements[i];
    match s.supersedes
    case None => s.version == 1
    case Some(j) =>
      && j < i
      && s.statementId == statements[j].statementId && s.version == statements[j].version + 1
      && s.tenant == statements[j].tenant && s.account == statements[j].account
  }

  ghost predicate ChainsOk(statements: seq<Statement>) {
    && (forall i | 0 <= i < |statements| :: Linked(statements, i) && statements[i].reconciliationPassed)
    && (forall i, j | 0 <= i < j < |statements| ::
          !(statements[i].statementId == statements[j].statementId && statements[i].version == statements[j].version))
  }

  lemma IssueKeepsChains(t: Tables, issue: Issue)
    requires ChainsOk(t.statements) && (issue.supersedes.Some? ==> issue.supersedes.value < |t.statements|)
    ensures ChainsOk(Issued(t, issue).statements)
  {
  }

  /** Below every version of a statement stands each smaller version of it, for the same tenant and account. */
  lemma {:induction false} VersionsAreContiguous(statements: seq<Statement>, i: nat, version: nat) returns (j: nat)
    requires ChainsOk(statements) && i < |statements| && 1 <= version <= statements[i].version
    ensures j < |statements| && statements[j].version == version
    ensures statements[j].statementId == statements[i].statementId
    ensures statements[j].tenant == statements[i].tenant && statements[j].account == statements[i].account
    decreases i
  {
    j := i;
    assert Linked(statements, i);
    if version < statements[i].version {
      j := VersionsAreContiguous(statements, statements[i].supersedes.value, version);
    }
  }

  /** Chains never fork: no two statements supersede the same one. */
  lemma ChainsNeverFork(statements: seq<Statement>, i: nat, j: nat)
    requires ChainsOk(statements) && i < |statements| && j < |statements|
    requires statements[i].supersedes.Some? && statements[i].supersedes == statements[j].supersedes
    ensures i == j
  {
  }

  // ---------------------------------------------------------------------------------------------
  // No reachable state fails a check
  // ---------------------------------------------------------------------------------------------

  ghost predicate CasesOk(cases: seq<Case>) {
    forall i | 0 <= i < |cases| ::
      cases[i].status == RESOLVED || cases[i].status == CLOSED ==> cases[i].resolvedAt.Some?
  }

  ghost predicate JobsOk(jobs: seq<Job>) {
    forall i | 0 <= i < |jobs| :: jobs[i].status == COMPLETED ==> jobs[i].artifactRef != ""
  }

  ghost predicate NoticesOk(notices: seq<Notice>) {
    forall i | 0 <= i < |notices| :: notices[i].status != NOTICE_DELIVERED
  }

  ghost predicate Consistent(read: Control.Reader, t: Tables) {
    && Control.Safe(read, t.control)
    && ChainsOk(t.statements) && CasesOk(t.cases) && JobsOk(t.reports) && JobsOk(t.exports) && NoticesOk(t.notices)
  }

  lemma StepKeepsConsistent(read: Control.Reader, t: Tables, op: Op)
    requires Consistent(read, t)
    ensures Consistent(read, Next(read, t, op))
  {
    match op {
      case Operator(o) => Control.StepKeepsSafe(read, t.control, o);
      case IssueStatement(issue) =>
        if !(issue.supersedes.Some? && issue.supersedes.value >= |t.statements|) {
          IssueKeepsChains(t, issue);
        }
      case _ =>
    }
  }

  lemma ConsistentPasses(read: Control.Reader, t: Tables, tenant: Tenant)
    requires Consistent(read, t)
    ensures AllPass(t, tenant)
  {
  }

  lemma {:induction false} RunIsConsistent(read: Control.Reader, accounts: map<nat, Tenant>, ops: seq<Op>, n: nat)
    requires n <= |ops|
    ensures Consistent(read, Run(read, accounts, ops, n))
  {
    if n > 0 {
      RunIsConsistent(read, accounts, ops, n - 1);
      StepKeepsConsistent(read, Run(read, accounts, ops, n - 1), ops[n - 1]);
    }
  }

  /** No state that operator, support, report, privacy, statement and notification steps can reach fails one of
      the six checks for any tenant, so a statement is never refused with RECONCILIATION_REQUIRED. */
  lemma ReconciliationNeverFails(
    read: Control.Reader, accounts: map<nat, Tenant>, ops: seq<Op>, n: nat, tenant: Tenant, issue: Issue)
    requires n <= |ops|
    ensures AllPass(Run(read, accounts, ops, n), tenant)
    ensures var t := Run(read, accounts, ops, n);
            (issue.supersedes.Some? ==> issue.supersedes.value < |t.statements|) ==>
              IssueErrorOf(t, issue) != Some(RECONCILIATION_REQUIRED)
  {
    RunIsConsistent(read, accounts, ops, n);
    ConsistentPasses(read, Run(read, accounts, ops, n), tenant);
    ConsistentPasses(read, Run(read, accounts, ops, n), issue.tenant);
  }

  /** Some row is version `v` of the statement that `s` is a version of, for the same tenant and account. */
  ghost predicate HasVersion(statements: seq<Statement>, s: Statement, v: nat) {
    exists j :: 0 <= j < |statements| && statements[j].statementId == s.statementId && statements[j].version == v &&
                statements[j].tenant == s.tenant && statements[j].account == s.account
  }

  /** The versions of each statement id are exactly 1..n, once each; each above 1 supersedes the one before it for
      the same tenant and account; and no two statements supersede the same one. */
  ghost predicate UnforkedChains(statements: seq<Statement>) {
    && (forall i | 0 <= i < |statements| :: statements[i].version >= 1 && Linked(statements, i))
    && (forall i, j | 0 <= i < j < |statements| ::
          statements[i].statementId != statements[j].statementId || statements[i].version != statements[j].version)
    && (forall i, v | 0 <= i < |statements| && 1 <= v <= statements[i].version ::
          HasVersion(statements, statements[i], v))
    && (forall i, j | 0 <= i < j < |statements| && statements[i].supersedes.Some? ::
          statements[i].supersedes != statements[j].supersedes)
  }

  lemma ChainsAreUnforked(statements: seq<Statement>)
    requires ChainsOk(statements)
    ensures UnforkedChains(statements)
  {
    forall i, v | 0 <= i < |statements| && 1 <= v <= statements[i].version
      ensures HasVersion(statements, statements[i], v)
    {
      var j := VersionsAreContiguous(statements, i, v);
    }
    forall i, j | 0 <= i < |statements| && 0 <= j < |statements| && statements[i].supersedes.Some? &&
                  statements[i].supersedes == statements[j].supersedes
      ensures i == j
    {
      ChainsNeverFork(statements, i, j);
    }
  }

  /** Every run keeps statement chains complete and unforked. */
  lemma StatementChainsInEveryRun(read: Control.Reader, accounts: map<nat, Tenant>, ops: seq<Op>, n: nat)
    requires n <= |ops|
    ensures UnforkedChains(Run(read, accounts, ops, n).statements)
  {
    RunIsConsistent(read, accounts, ops, n);
    ChainsAreUnforked(Run(read, accounts, ops, n).statements);
  }

  // ---------------------------------------------------------------------------------------------
  // What each step comes to
  // ---------------------------------------------------------------------------------------------

  /** A completed job of the tenant without an artifact. */
  predicate Hollow(job: Job, tenant: Tenant) {
    job.tenant == tenant && job.status == COMPLETED && |job.artifactRef| == 0
  }

  /** The checks fail for a tenant if and only if one of its rows is inconsistent: an unreleased freeze at no level, a
      delivered notification without its time, a resolved or closed case without its time, an unreconciled statement,
      a completed report or export without an artifact, or an executed request without its time. */
  lemma ChecksFailIff(t: Tables, tenant: Tenant)
    ensures !AllPass(t, tenant) <==>
            || (exists f :: f in t.control.freezes && f.tenant == tenant && f.level == Control.NONE &&
                            f.releasedAt == None)
            || (exists n :: n in t.notices && n.tenant == tenant && n.status == NOTICE_DELIVERED &&
                            n.deliveredAt == None)
            || (exists c :: c in t.cases && c.tenant == tenant && (c.status == RESOLVED || c.status == CLOSED) &&
                            c.resolvedAt == None)
            || (exists s :: s in t.statements && s.tenant == tenant && !s.reconciliationPassed)
            || (exists j :: j in t.reports && Hollow(j, tenant))
            || (exists j :: j in t.exports && Hollow(j, tenant))
            || (exists r :: r in t.control.requests && r.tenant == tenant && r.status == Control.EXECUTED &&
                            r.executedAt == None)
  {
    SecurityFailsIff(t, tenant);
    NotificationFailsIff(t, tenant);
    SupportFailsIff(t, tenant);
    HollowIff(t.reports, tenant);
    HollowIff(t.exports, tenant);
    OperatorFailsIff(t, tenant);
    assert forall i | 0 <= i < |t.statements| :: t.statements[i] in t.statements;
    if s :| s in t.statements && s.tenant == tenant && !s.reconciliationPassed {
      var i :| 0 <= i < |t.statements| && t.statements[i] == s;
    }
  }

  lemma SecurityFailsIff(t: Tables, tenant: Tenant)
    ensures !SecurityCheck(t, tenant) <==>
            exists f :: f in t.control.freezes && f.tenant == tenant && f.level == Control.NONE && f.releasedAt == None
  {
    assert forall i | 0 <= i < |t.control.freezes| :: t.control.freezes[i] in t.control.freezes;
  }

  lemma NotificationFailsIff(t: Tables, tenant: Tenant)
    ensures !NotificationCheck(t, tenant) <==>
            exists n :: n in t.notices && n.tenant == tenant && n.status == NOTICE_DELIVERED && n.deliveredAt == None
  {
    assert forall i | 0 <= i < |t.notices| :: t.notices[i] in t.notices;
  }

  lemma SupportFailsIff(t: Tables, tenant: Tenant)
    ensures !SupportCheck(t, tenant) <==>
            exists c :: c in t.cases && c.tenant == tenant && (c.status == RESOLVED || c.status == CLOSED) &&
                        c.resolvedAt == None
  {
    assert forall i | 0 <= i < |t.cases| :: t.cases[i] in t.cases;
  }

  lemma HollowIff(jobs: seq<Job>, tenant: Tenant)
    ensures CompletedWithoutArtifact(jobs, tenant) <==> exists j :: j in jobs && Hollow(j, tenant)
  {
    assert forall i | 0 <= i < |jobs| :: jobs[i] in jobs;
    if j :| j in jobs && Hollow(j, tenant) {
      var i :| 0 <= i < |jobs| && jobs[i] == j;
    }
  }

  lemma OperatorFailsIff(t: Tables, tenant: Tenant)
    ensures !OperatorCheck(t, tenant) <==>
            exists r :: r in t.control.requests && r.tenant == tenant && r.status == Control.EXECUTED &&
                        r.executedAt == None
  {
    assert forall i | 0 <= i < |t.control.requests| :: t.control.requests[i] in t.control.requests;
  }

  /** A statement is refused for the first of these reasons that applies, and issued otherwise: as version 1 of a new
      statement, or as the next version of the one it corrects. */
  lemma IssuedIff(t: Tables, issue: Issue)
    requires issue.supersedes.Some? ==> issue.supersedes.value < |t.statements|
    ensures var error := IssueErrorOf(t, issue);
            var badPeriod := issue.end <= issue.start;
            var foreign := issue.supersedes.Some? &&
                           var s := t.statements[issue.supersedes.value];
                           s.tenant != issue.tenant || s.account != issue.account;
            var noReason := issue.supersedes.Some? && !issue.reasonGiven;
            var draft := match issue.supersedes
                         case None => Statement(issue.newId, 1, issue.tenant, issue.account, None, true)
                         case Some(i) =>
                           Statement(t.statements[i].statementId, t.statements[i].version + 1, issue.tenant,
                                     issue.account, Some(i), true);
            var taken := exists i :: 0 <= i < |t.statements| && t.statements[i].statementId == draft.statementId &&
                                     t.statements[i].version == draft.version;
            && error == (if badPeriod then Some(INVALID_STATEMENT_PERIOD)
                         else if issue.realHistory then Some(FINANCIAL_SERVICE_AUTHORITY_REQUIRED)
                         else if !AllPass(t, issue.tenant) then Some(RECONCILIATION_REQUIRED)
                         else if foreign then Some(INVALID_SUPERSEDED_STATEMENT)
                         else if noReason then Some(CORRECTION_REASON_REQUIRED)
                         else if taken then Some(UNIQUE_VIOLATION)
                         else None)
            && Issued(t, issue) == (if error == None then t.(statements := t.statements + [draft]) else t)
  {
  }

  /** In every reachable state a statement of a sound period without real entries can be issued under a new id. */
  lemma FirstStatementIsIssued(
    read: Control.Reader, accounts: map<nat, Tenant>, ops: seq<Op>, n: nat, issue: Issue)
    requires n <= |ops| && issue.start < issue.end && !issue.realHistory && issue.supersedes == None
    requires forall s | s in Run(read, accounts, ops, n).statements :: s.statementId != issue.newId
    ensures var t := Run(read, accounts, ops, n);
            Next(read, t, IssueStatement(issue)) ==
            t.(statements := t.statements + [Statement(issue.newId, 1, issue.tenant, issue.account, None, true)])
  {
    var t := Run(read, accounts, ops, n);
    ReconciliationNeverFails(read, accounts, ops, n, issue.tenant, issue);
    assert forall i | 0 <= i < |t.statements| :: t.statements[i] in t.statements;
    assert !Taken(t.statements, issue.newId, 1);
  }

  /** And in every reachable state the latest version of a statement can be corrected, with a reason. */
  lemma LatestStatementIsCorrected(
    read: Control.Reader, accounts: map<nat, Tenant>, ops: seq<Op>, n: nat, issue: Issue, i: nat)
    requires n <= |ops| && issue.start < issue.end && !issue.realHistory && issue.reasonGiven
    requires i < |Run(read, accounts, ops, n).statements| && issue.supersedes == Some(i)
    requires var statements := Run(read, accounts, ops, n).statements;
             && statements[i].tenant == issue.tenant && statements[i].account == issue.account
             && forall s | s in statements && s.statementId == statements[i].statementId ::
                  s.version <= statements[i].version
    ensures var t := Run(read, accounts, ops, n);
            Next(read, t, IssueStatement(issue)) ==
            t.(statements := t.statements +
                 [Statement(t.statements[i].statementId, t.statements[i].version + 1, issue.tenant, issue.account,
                            Some(i), true)])
  {
    var t := Run(read, accounts, ops, n);
    ReconciliationNeverFails(read, accounts, ops, n, issue.tenant, issue);
    NextVersionIsFree(t.statements, i);
    IssuedIff(t, issue);
  }

  lemma NextVersionIsFree(statements: seq<Statement>, i: nat)
    requires i < |statements|
    requires forall s | s in statements && s.statementId == statements[i].statementId ::
               s.version <= statements[i].version
    ensures forall j | 0 <= j < |statements| ::
              || statements[j].statementId != statements[i].statementId
              || statements[j].version != statements[i].version + 1
  {
    assert forall j | 0 <= j < |statements| :: statements[j] in statements;
  }

  /** What each support event does to a case, and what is refused. */
  lemma CaseComesTo(c: Case, now: Time, team: Team, user: nat, to: CaseStatus)
    ensures CaseAfter(c, NOTE, now) == c && ReplyTo(NOTE) == RECORDED
    ensures CaseAfter(c, ESCALATE(Some(team)), now) ==
            Case(c.tenant, ESCALATED, c.resolvedAt, Some(team), c.assignedTo)
    ensures CaseAfter(c, ASSIGN(Eligible(user)), now) ==
            Case(c.tenant, c.status, c.resolvedAt, c.assignedTeam, Some(user))
    ensures CaseAfter(c, CHANGE_STATUS(Some(to)), now) ==
            Case(c.tenant, to, if to == RESOLVED || to == CLOSED then Some(now) else None, c.assignedTeam, c.assignedTo)
    ensures CaseAfter(c, RESOLVE, now) == Case(c.tenant, RESOLVED, Some(now), c.assignedTeam, c.assignedTo)
    ensures CaseAfter(c, REOPEN, now) == Case(c.tenant, OPEN, None, c.assignedTeam, c.assignedTo)
    ensures forall event | ReplyTo(event) != RECORDED :: CaseAfter(c, event, now) == c
    ensures ReplyTo(UNKNOWN_EVENT) == INVALID_CASE_ACTION && ReplyTo(ESCALATE(None)) == INVALID_ESCALATION
    ensures ReplyTo(ASSIGN(Nobody)) == ASSIGNEE_NOT_FOUND && ReplyTo(ASSIGN(Ineligible)) == INVALID_ASSIGNEE
    ensures ReplyTo(CHANGE_STATUS(None)) == INVALID_STATUS
    ensures ReplyTo(ESCALATE(Some(team))) == ReplyTo(ASSIGN(Eligible(user))) == RECORDED
    ensures ReplyTo(CHANGE_STATUS(Some(to))) == RECORDED
    ensures ReplyTo(RESOLVE) == ReplyTo(REOPEN) == RECORDED
  {
  }

  /** A queued or failed job starts, unless it is a report that was not reconciled, which fails; a completed or running
      one is left alone. A finished job is completed with its artifact, whatever its status was. */
  lemma JobComesTo(job: Job, artifactRef: string, now: Time)
    ensures job.status == COMPLETED || job.status == RUNNING ==> Started(job, true) == Started(job, false) == job
    ensures job.status == QUEUED || job.status == FAILED ==>
              && Started(job, false) ==
                 Job(job.tenant, RUNNING, job.artifactRef, job.completedAt, job.reconciliationPassed)
              && Started(job, true) ==
                 Job(job.tenant, if job.reconciliationPassed then RUNNING else FAILED, job.artifactRef, job.completedAt,
                     job.reconciliationPassed)
    ensures Finished(job, artifactRef, now) ==
            Job(job.tenant, COMPLETED, artifactRef, Some(now), job.reconciliationPassed)
    ensures Failed(job) == Job(job.tenant, FAILED, job.artifactRef, job.completedAt, job.reconciliationPassed)
  {
  }

  /** What each delivery event does to a notification, which starts queued. */
  lemma NoticeComesTo(read: Control.Reader, t: Tables, tenant: Tenant, n: Notice)
    ensures NoticeAfter(n, SEND) == Notice(n.tenant, NOTICE_SENT, n.deliveredAt)
    ensures NoticeAfter(n, READ) == Notice(n.tenant, NOTICE_READ, n.deliveredAt)
    ensures NoticeAfter(n, RETRY) == Notice(n.tenant, NOTICE_QUEUED, n.deliveredAt)
    ensures NoticeAfter(n, FAIL) == Notice(n.tenant, NOTICE_FAILED, n.deliveredAt)
    ensures Next(read, t, CreateNotice(tenant)).notices == t.notices + [Notice(tenant, NOTICE_QUEUED, None)]
  {
  }

  /** In every reachable state a report is created queued and reconciled, starts, and ends with its artifact. */
  lemma ReportIsProduced(
    read: Control.Reader, accounts: map<nat, Tenant>, ops: seq<Op>, n: nat, tenant: Tenant, artifactRef: string,
    now: Time)
    requires n <= |ops| && artifactRef != ""
    ensures var t := Run(read, accounts, ops, n);
            var row := |t.reports|;
            var created := Next(read, t, CreateReport(tenant));
            var started := Next(read, created, StartReport(row));
            && created == t.(reports := t.reports + [Job(tenant, QUEUED, [], None, true)])
            && started == t.(reports := t.reports + [Job(tenant, RUNNING, [], None, true)])
            && Next(read, started, FinishReport(row, artifactRef, now)) ==
               t.(reports := t.reports + [Job(tenant, COMPLETED, artifactRef, Some(now), true)])
            && Next(read, started, FailReport(row)) == t.(reports := t.reports + [Job(tenant, FAILED, [], None, true)])
  {
    RunIsConsistent(read, accounts, ops, n);
    ConsistentPasses(read, Run(read, accounts, ops, n), tenant);
    ReplaceLast(Run(read, accounts, ops, n).reports, Job(tenant, QUEUED, [], None, true));
    ReplaceLast(Run(read, accounts, ops, n).reports, Job(tenant, RUNNING, [], None, true));
  }

  /** So is an export, which asks for no reconciliation. */
  lemma ExportIsProduced(read: Control.Reader, t: Tables, tenant: Tenant, artifactRef: string, now: Time)
    requires artifactRef != ""
    ensures var row := |t.exports|;
            var created := Next(read, t, CreateExport(tenant));
            var started := Next(read, created, StartExport(row));
            && created == t.(exports := t.exports + [Job(tenant, QUEUED, [], None, false)])
            && started == t.(exports := t.exports + [Job(tenant, RUNNING, [], None, false)])
            && Next(read, started, FinishExport(row, artifactRef, now)) ==
               t.(exports := t.exports + [Job(tenant, COMPLETED, artifactRef, Some(now), false)])
            && Next(read, started, FailExport(row)) == t.(exports := t.exports + [Job(tenant, FAILED, [], None, false)])
  {
    ReplaceLast(t.exports, Job(tenant, QUEUED, [], None, false));
    ReplaceLast(t.exports, Job(tenant, RUNNING, [], None, false));
  }

  lemma ReplaceLast(jobs: seq<Job>, job: Job)
    ensures forall other: Job :: (jobs + [job])[|jobs| := other] == jobs + [other]
  {
  }

  /** An unreconciled report fails instead of starting. */
  lemma UnreconciledReportFails(read: Control.Reader, t: Tables, row: nat)
    requires row < |t.reports| && t.reports[row].status == QUEUED && !t.reports[row].reconciliationPassed
    ensures Next(read, t, StartReport(row)) == t.(reports := t.reports[row := t.reports[row].(status := FAILED)])
  {
  }
}
