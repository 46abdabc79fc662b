/** The report of a comparison: what it lists, in what order, with which hashes, and when it lets activation go ahead
    (FX/financial_boundary/reconciliation.py). */
module Reports {
  import opened Values
  import opened Ordering
  import opened Evidence
  import opened Reconciliation

  function Name(violation: Violation): string {
    match violation
    case MISSING_FINANCIAL_OPERATION => "MISSING_FINANCIAL_OPERATION"
    case DUPLICATE_FINANCIAL_EFFECT => "DUPLICATE_FINANCIAL_EFFECT"
    case ORPHAN_RESERVATION => "ORPHAN_RESERVATION"
    case RESERVATION_LEAK => "RESERVATION_LEAK"
    case SETTLEMENT_MISMATCH => "SETTLEMENT_MISMATCH"
    case WALLET_PROJECTION_MISMATCH => "WALLET_PROJECTION_MISMATCH"
    case DEPOSIT_CREDIT_MISMATCH => "DEPOSIT_CREDIT_MISMATCH"
    case WITHDRAWAL_STATE_MISMATCH => "WITHDRAWAL_STATE_MISMATCH"
    case TRANSFER_STATE_MISMATCH => "TRANSFER_STATE_MISMATCH"
    case AUDIT_GAP => "AUDIT_GAP"
  }

  /** The place of a violation among the sorted names. */
  function Rank(violation: Violation): nat {
    match violation
    case AUDIT_GAP => 0
    case DEPOSIT_CREDIT_MISMATCH => 1
    case DUPLICATE_FINANCIAL_EFFECT => 2
    case MISSING_FINANCIAL_OPERATION => 3
    case ORPHAN_RESERVATION => 4
    case RESERVATION_LEAK => 5
    case SETTLEMENT_MISMATCH => 6
    case TRANSFER_STATE_MISMATCH => 7
    case WALLET_PROJECTION_MISMATCH => 8
    case WITHDRAWAL_STATE_MISMATCH => 9
  }

  lemma RankFollowsNames(a: Violation, b: Violation)
    ensures Rank(a) < Rank(b) <==> LexLess(Name(a), Name(b))
  {
    if Rank(a) < Rank(b) {
      NamesIncrease(a, b);
    } else if Rank(b) < Rank(a) {
      NamesIncrease(b, a);
      LexTotal(Name(a), Name(b));
    } else {
      LexTotal(Name(a), Name(a));
    }
  }

  /** The first two letters of a name, which tell the names apart. */
  function Letters(violation: Violation): string {
    match violation
    case AUDIT_GAP => "AU"
    case DEPOSIT_CREDIT_MISMATCH => "DE"
    case DUPLICATE_FINANCIAL_EFFECT => "DU"
    case MISSING_FINANCIAL_OPERATION => "MI"
    case ORPHAN_RESERVATION => "OR"
    case RESERVATION_LEAK => "RE"
    case SETTLEMENT_MISMATCH => "SE"
    case TRANSFER_STATE_MISMATCH => "TR"
    case WALLET_PROJECTION_MISMATCH => "WA"
    case WITHDRAWAL_STATE_MISMATCH => "WI"
  }

  lemma NameStarts(violation: Violation)
    ensures |Name(violation)| >= 2 && Name(violation)[..2] == Letters(violation)
  {
  }

  lemma NamesIncrease(a: Violation, b: Violation)
    requires Rank(a) < Rank(b)
    ensures LexLess(Name(a), Name(b))
  {
    NameStarts(a);
    NameStarts(b);
    LettersDecide(Name(a), Name(b));
  }

  lemma LettersDecide(s: string, t: string)
    requires |s| >= 2 && |t| >= 2
    requires s[0] < t[0] || (s[0] == t[0] && s[1] < t[1])
    ensures LexLess(s, t)
  {
  }

  predicate FlagLess(a: Flag, b: Flag) {
    Rank(a.violation) < Rank(b.violation) || (a.violation == b.violation && LexLess(a.reference, b.reference))
  }

  lemma FlagIsTotalOn(keys: set<Flag>)
    ensures TotalOn(keys, FlagLess)
  {
    forall a, b | a in keys && b in keys ensures a == b || FlagLess(a, b) || FlagLess(b, a) {
      LexTotal(a.reference, b.reference);
    }
    forall a | a in keys ensures !FlagLess(a, a) {
      LexTotal(a.reference, a.reference);
    }
    forall a, b, c | a in keys && b in keys && c in keys && FlagLess(a, b) && FlagLess(b, c) ensures FlagLess(a, c) {
      if a.violation == b.violation == c.violation {
        LexTransitive(a.reference, b.reference, c.reference);
      }
    }
  }

  // ---------------------------------------------------------------------------------------------
  // The comparison
  // ---------------------------------------------------------------------------------------------

  function Keys(report: seq<Finding>): seq<Flag> {
    seq(|report|, i requires 0 <= i < |report| => report[i].key)
  }

  /** Sorted, without duplicates, and exactly what is expected. */
  ghost predicate IsReport(e: Bundle, m: Moment, report: seq<Finding>) {
    && Increasing(Keys(report), FlagLess)
    && (forall finding :: finding in report <==> Expected(e, m, finding.key) == Some(finding.source))
  }

  /** The order in which the violations are looked for. */
  function Turn(violation: Violation): nat {
    match violation
    case MISSING_FINANCIAL_OPERATION => 0
    case DUPLICATE_FINANCIAL_EFFECT => 1
    case ORPHAN_RESERVATION => 2
    case RESERVATION_LEAK => 3
    case SETTLEMENT_MISMATCH => 4
    case WALLET_PROJECTION_MISMATCH => 5
    case DEPOSIT_CREDIT_MISMATCH => 6
    case WITHDRAWAL_STATE_MISMATCH => 7
    case TRANSFER_STATE_MISMATCH => 8
    case AUDIT_GAP => 9
  }

  /** The first `turns` violations have been looked for. */
  ghost predicate Stage(found: Found, e: Bundle, m: Moment, turns: nat) {
    forall key :: Look(found, key) == if Turn(key.violation) < turns then Expected(e, m, key) else None
  }

  lemma StageIsFresh(found: Found, e: Bundle, m: Moment, turns: nat, violation: Violation)
    requires Stage(found, e, m, turns) && Turn(violation) >= turns
    ensures Fresh(found, violation)
  {
  }

  method ReconcileOperations(e: Bundle, m: Moment, operations: map<string, Row>) returns (r: Option<Found>)
    requires Indexes(operations, e.applicationOperations) && !Unreferenced(e.applicationOperations)
    ensures r.None? <==> MalformedOperations(e, m)
    ensures r.Some? ==> Stage(r.value, e, m, 4)
  {
    var financial := Groups(e.financialOperations);
    if financial.None? {
      return None;
    }
    var missing := FlagMissing(map[], operations, financial.value, e);
    assert Stage(missing, e, m, 1);
    StageIsFresh(missing, e, m, 1, DUPLICATE_FINANCIAL_EFFECT);
    var duplicates := FlagDuplicates(missing, financial.value, e.financialOperations);
    assert Stage(duplicates, e, m, 2);
    StageIsFresh(duplicates, e, m, 2, ORPHAN_RESERVATION);
    StageIsFresh(duplicates, e, m, 2, RESERVATION_LEAK);
    r := FlagReservations(duplicates, operations, e.reservations, m, e.applicationOperations);
  }

  /** One compared domain: the next violation in turn. */
  method ReconcileDomain(
    before: Found, application: seq<Row>, financial: seq<Row>, violation: Violation, ghost e: Bundle, ghost m: Moment)
    returns (r: Option<Found>)
    requires Stage(before, e, m, Turn(violation))
    requires forall reference ::
               Expected(e, m, Flag(violation, reference)) ==
               MismatchAt(application, financial, FieldsFor(violation), reference)
    ensures r.None? <==> Unreferenced(application) || Unreferenced(financial)
    ensures r.Some? ==> Stage(r.value, e, m, Turn(violation) + 1)
  {
    StageIsFresh(before, e, m, Turn(violation), violation);
    r := CompareDomain(before, application, financial, violation, FieldsFor(violation));
    if r.Some? {
      forall key
        ensures Look(r.value, key) == if Turn(key.violation) < Turn(violation) + 1 then Expected(e, m, key) else None
      {
        assert key == Flag(key.violation, key.reference);
      }
    }
  }

  method ReconcileDomains(before: Found, e: Bundle, ghost m: Moment) returns (r: Option<Found>)
    requires Stage(before, e, m, 4)
    ensures r.None? <==> MalformedDomains(e)
    ensures r.Some? ==> Stage(r.value, e, m, 9)
  {
    r := ReconcileDomain(before, e.applicationSettlements, e.financialSettlements, SETTLEMENT_MISMATCH, e, m);
    if r.Some? {
      r := ReconcileDomain(r.value, e.walletProjections, e.walletSnapshots, WALLET_PROJECTION_MISMATCH, e, m);
    }
    if r.Some? {
      r := ReconcileDomain(r.value, e.applicationDeposits, e.financialDeposits, DEPOSIT_CREDIT_MISMATCH, e, m);
    }
    if r.Some? {
      r := ReconcileDomain(r.value, e.applicationWithdrawals, e.financialWithdrawals, WITHDRAWAL_STATE_MISMATCH, e, m);
    }
    if r.Some? {
      r := ReconcileDomain(r.value, e.applicationTransfers, e.financialTransfers, TRANSFER_STATE_MISMATCH, e, m);
    }
  }

  method ReconcileGaps(before: Found, index: map<string, Row>, e: Bundle, ghost m: Moment) returns (r: Option<Found>)
    requires Indexes(index, e.applicationOperations)
    requires Stage(before, e, m, 9)
    ensures r.None? <==> MalformedActions(e)
    ensures r.Some? ==> Stage(r.value, e, m, 10)
  {
    StageIsFresh(before, e, m, 9, AUDIT_GAP);
    r := FlagOperationGaps(before, index, e);
    if r.Some? {
      ghost var gaps := r.value;
      var found := FlagEventGaps(r.value, e.receivedEvents, e.inbox);
      forall key ensures Look(found, key) == if Turn(key.violation) < 10 then Expected(e, m, key) else None {
        assert Look(found, key) == GapsAt(gaps, e.inbox, e.receivedEvents, key);
        assert Look(gaps, key) == OperationGapsAt(before, e, key);
      }
      r := Some(found);
    }
  }

  /** `reconcile_financial_boundary`; None where it raises. */
  method Reconcile(e: Bundle, m: Moment) returns (r: Option<seq<Finding>>)
    ensures r.None? <==> Malformed(e, m)
    ensures r.Some? ==> IsReport(e, m, r.value)
  {
    var operations := SingleIndex(e.applicationOperations);
    if operations.None? {
      return None;
    }
    var found := ReconcileOperations(e, m, operations.value);
    if found.Some? {
      found := ReconcileDomains(found.value, e, m);
    }
    if found.Some? {
      found := ReconcileGaps(found.value, operations.value, e, m);
    }
    if found.None? {
      return None;
    }
    var report := Ordered(found.value);
    forall finding: Finding
      ensures finding in report <==> Expected(e, m, finding.key) == Some(finding.source)
    {
      assert Look(found.value, finding.key) == Expected(e, m, finding.key);
    }
    return Some(report);
  }

  method Ordered(found: Found) returns (report: seq<Finding>)
    ensures Increasing(Keys(report), FlagLess)
    ensures forall finding :: finding in report <==> Look(found, finding.key) == Some(finding.source)
  {
    FlagIsTotalOn(found.Keys);
    var keys := SortKeys(found.Keys, FlagLess);
    assert forall i | 0 <= i < |keys| :: keys[i] in found;
    report := seq(|keys|, i requires 0 <= i < |keys| => Finding(keys[i], found[keys[i]]));
    assert Keys(report) == keys;
    forall finding: Finding | Look(found, finding.key) == Some(finding.source) ensures finding in report {
      assert finding.key in keys;
      var i :| 0 <= i < |keys| && keys[i] == finding.key;
      assert report[i] == finding;
    }
  }

  // ---------------------------------------------------------------------------------------------
  // The report as it is returned
  // ---------------------------------------------------------------------------------------------

  /** A returned finding; its severity is always CRITICAL. */
  datatype HashedFinding = HashedFinding(key: Flag, evidenceHash: string)

  datatype Report = Report(
    findings: seq<HashedFinding>, checksExecuted: seq<Violation>, generatedAt: int, evidenceHash: string)

  /** The hash of a piece of evidence and the hash of a list of findings. */
  datatype Hashes = Hashes(evidence: Source -> string, report: seq<HashedFinding> -> string)

  /** A time with or without a zone. */
  datatype Instant = Aware(at: int) | Naive

  const CHECKS: seq<Violation> := [
    MISSING_FINANCIAL_OPERATION, DUPLICATE_FINANCIAL_EFFECT, ORPHAN_RESERVATION, RESERVATION_LEAK, SETTLEMENT_MISMATCH,
    WALLET_PROJECTION_MISMATCH, DEPOSIT_CREDIT_MISMATCH, WITHDRAWAL_STATE_MISMATCH, TRANSFER_STATE_MISMATCH, AUDIT_GAP]

  function Hashed(findings: seq<Finding>, hashes: Hashes): seq<HashedFinding> {
    seq(|findings|, i requires 0 <= i < |findings| =>
      HashedFinding(findings[i].key, hashes.evidence(findings[i].source)))
  }

  function Published(findings: seq<Finding>, m: Moment, hashes: Hashes): Report {
    Report(Hashed(findings, hashes), CHECKS, m.asOf, hashes.report(Hashed(findings, hashes)))
  }

  ghost predicate IsBoundaryReport(e: Bundle, m: Moment, hashes: Hashes, report: Report) {
    exists findings: seq<Finding> :: IsReport(e, m, findings) && report == Published(findings, m, hashes)
  }

  /** The moment of the comparison: the given time, or the clock when none is given. */
  function MomentOf(asOf: Option<Instant>, now: int, parse: string -> Option<int>): Moment {
    Moment(if asOf.Some? && asOf.value.Aware? then asOf.value.at else now, parse)
  }

  /** `reconcile_financial_boundary` with its clock, its hashes and its raises. */
  method ReconcileFinancialBoundary(
    e: Bundle, asOf: Option<Instant>, now: int, parse: string -> Option<int>, hashes: Hashes)
    returns (r: Option<Report>)
    ensures r.None? <==> asOf == Some(Naive) || Malformed(e, MomentOf(asOf, now, parse))
    ensures r.Some? ==> IsBoundaryReport(e, MomentOf(asOf, now, parse), hashes, r.value)
    ensures r.Some? ==> r.value.generatedAt == match asOf case None => now case Some(instant) => instant.at
  {
    if asOf.Some? && asOf.value.Naive? {
      return None;
    }
    var m := Moment(if asOf.None? then now else asOf.value.at, parse);
    var findings := Reconcile(e, m);
    if findings.None? {
      return None;
    }
    return Some(Published(findings.value, m, hashes));
  }

  /** Everything in a returned report: each finding hashes the evidence expected for its key, the report hashes the
      findings, the ten checks are listed in the order of their declaration, and the time is the moment's. */
  lemma ReportHolds(e: Bundle, m: Moment, hashes: Hashes, report: Report)
    requires IsBoundaryReport(e, m, hashes, report)
    ensures forall i | 0 <= i < |report.findings| ::
              var finding := report.findings[i];
              && Expected(e, m, finding.key).Some?
              && finding.evidenceHash == hashes.evidence(Expected(e, m, finding.key).value)
    ensures forall key | Expected(e, m, key).Some? ::
              exists i :: 0 <= i < |report.findings| && report.findings[i].key == key
    ensures forall i, j | 0 <= i < j < |report.findings| :: FlagLess(report.findings[i].key, report.findings[j].key)
    ensures report.evidenceHash == hashes.report(report.findings) && report.generatedAt == m.asOf
    ensures |report.checksExecuted| == 10 && forall violation :: report.checksExecuted[Turn(violation)] == violation
  {
    var findings: seq<Finding> :| IsReport(e, m, findings) && report == Published(findings, m, hashes);
    forall i | 0 <= i < |findings| ensures Expected(e, m, findings[i].key) == Some(findings[i].source) {
      assert findings[i] in findings;
    }
    forall key | Expected(e, m, key).Some?
      ensures exists i :: 0 <= i < |report.findings| && report.findings[i].key == key
    {
      var finding := Finding(key, Expected(e, m, key).value);
      assert finding in findings;
      var i :| 0 <= i < |findings| && findings[i] == finding;
      assert report.findings[i].key == key;
    }
    forall i, j | 0 <= i < j < |report.findings| ensures FlagLess(report.findings[i].key, report.findings[j].key) {
      assert Keys(findings)[i] == report.findings[i].key && Keys(findings)[j] == report.findings[j].key;
    }
  }

  predicate ActivationReady(report: Report) {
    report.findings == []
  }

  /** A report lets activation go ahead if and only if no reference is in any violation. */
  lemma ReadyIffNothingViolates(e: Bundle, m: Moment, hashes: Hashes, report: Report)
    requires IsBoundaryReport(e, m, hashes, report)
    ensures ActivationReady(report) <==> forall violation, reference :: !Violates(e, m, violation, reference)
  {
    var findings: seq<Finding> :| IsReport(e, m, findings) && report == Published(findings, m, hashes);
    forall violation, reference ensures Violates(e, m, violation, reference) ==> findings != [] {
      var key := Flag(violation, reference);
      ExpectedIffViolates(e, m, key);
      if Violates(e, m, violation, reference) {
        assert Finding(key, Expected(e, m, key).value) in findings;
      }
    }
    if findings != [] {
      assert findings[0] in findings;
      ExpectedIffViolates(e, m, findings[0].key);
    }
  }
}
