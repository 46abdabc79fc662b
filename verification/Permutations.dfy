/** The order in which evidence is supplied does not change a report (FX/financial_boundary/reconciliation.py). */
module Permutations {
  import opened Values
  import opened Ordering
  import opened Evidence
  import opened Reconciliation
  import opened Reports

  /** A report lists a reference under a violation exactly when the reference is in violation. */
  lemma ReportListsViolations(e: Bundle, m: Moment, report: seq<Finding>, key: Flag)
    requires IsReport(e, m, report)
    ensures key in Keys(report) <==> Violates(e, m, key.violation, key.reference)
  {
    ExpectedIffViolates(e, m, key);
    if key in Keys(report) {
      var i :| 0 <= i < |report| && Keys(report)[i] == key;
      assert report[i] in report;
    }
    if Expected(e, m, key).Some? {
      var finding := Finding(key, Expected(e, m, key).value);
      assert finding in report;
      var i :| 0 <= i < |report| && report[i] == finding;
      assert Keys(report)[i] == key;
    }
  }

  /** Two reports over the same keys have the same keys in the same places. */
  lemma KeysAreDetermined(report: seq<Finding>, other: seq<Finding>)
    requires Increasing(Keys(report), FlagLess) && Increasing(Keys(other), FlagLess)
    requires forall key :: key in Keys(report) <==> key in Keys(other)
    ensures Keys(report) == Keys(other)
  {
    var keys := set key | key in Keys(report);
    FlagIsTotalOn(keys);
    IncreasingIsUnique(Keys(report), Keys(other), FlagLess, keys);
  }

  /** The evidence and the moment determine the report. */
  lemma ReportIsUnique(e: Bundle, p: Bundle, m: Moment, report: seq<Finding>, other: seq<Finding>)
    requires IsReport(e, m, report) && IsReport(p, m, other)
    requires forall key :: Expected(e, m, key) == Expected(p, m, key)
    ensures report == other
  {
    forall key ensures key in Keys(report) <==> key in Keys(other) {
      ReportListsViolations(e, m, report, key);
      ReportListsViolations(p, m, other, key);
      ExpectedIffViolates(e, m, key);
      ExpectedIffViolates(p, m, key);
    }
    KeysAreDetermined(report, other);
    assert |report| == |Keys(report)| == |Keys(other)| == |other|;
    forall i | 0 <= i < |report| ensures report[i] == other[i] {
      assert Keys(report)[i] == Keys(other)[i];
      assert report[i] in report && other[i] in other;
    }
  }

  // ---------------------------------------------------------------------------------------------
  // Permuted evidence
  // ---------------------------------------------------------------------------------------------

  ghost predicate Reordered(rows: seq<Row>, permuted: seq<Row>) {
    multiset(rows) == multiset(permuted)
  }

  /** Every section of `p` is a permutation of the same section of `e`. */
  ghost predicate Permuted(e: Bundle, p: Bundle) {
    && Reordered(e.applicationOperations, p.applicationOperations)
    && Reordered(e.financialOperations, p.financialOperations)
    && Reordered(e.reservations, p.reservations)
    && Reordered(e.applicationSettlements, p.applicationSettlements)
    && Reordered(e.financialSettlements, p.financialSettlements)
    && Reordered(e.walletProjections, p.walletProjections)
    && Reordered(e.walletSnapshots, p.walletSnapshots)
    && Reordered(e.applicationDeposits, p.applicationDeposits)
    && Reordered(e.financialDeposits, p.financialDeposits)
    && Reordered(e.applicationWithdrawals, p.applicationWithdrawals)
    && Reordered(e.financialWithdrawals, p.financialWithdrawals)
    && Reordered(e.applicationTransfers, p.applicationTransfers)
    && Reordered(e.financialTransfers, p.financialTransfers)
    && Reordered(e.outbox, p.outbox)
    && Reordered(e.receivedEvents, p.receivedEvents)
    && Reordered(e.inbox, p.inbox)
    && Reordered(e.audits, p.audits)
  }

  /** No reference repeats in a section of which only the last row of a reference is read. */
  ghost predicate UniqueIndexed(e: Bundle) {
    && UniqueReferences(e.applicationOperations)
    && UniqueReferences(e.applicationSettlements) && UniqueReferences(e.financialSettlements)
    && UniqueReferences(e.walletProjections) && UniqueReferences(e.walletSnapshots)
    && UniqueReferences(e.applicationDeposits) && UniqueReferences(e.financialDeposits)
    && UniqueReferences(e.applicationWithdrawals) && UniqueReferences(e.financialWithdrawals)
    && UniqueReferences(e.applicationTransfers) && UniqueReferences(e.financialTransfers)
  }

  /** Rows that share a reference agree on the compared fields, so it does not matter which of them is read. */
  ghost predicate Interchangeable(rows: seq<Row>, fields: seq<Field>) {
    forall row, other | row in rows && other in rows && RefOf(row) == RefOf(other) :: Same(row, other, fields)
  }

  lemma UniqueIsInterchangeable(rows: seq<Row>, fields: seq<Field>)
    requires UniqueReferences(rows)
    ensures Interchangeable(rows, fields)
  {
    forall row, other | row in rows && other in rows && RefOf(row) == RefOf(other) ensures Same(row, other, fields) {
      LatestWhenUnique(rows, RefOf(row), row);
      LatestWhenUnique(rows, RefOf(row), other);
    }
  }

  predicate BothFalsy(left: Meaning, right: Meaning) {
    !Truthy(left) && !Truthy(right)
  }

  /** All that the comparison reads of an operation is the same: whether it needs a financial operation, its tenant,
      whether its state is terminal and can be looked up, its audit action and whether it needs an outbox row. */
  predicate Alike(row: Row, other: Row) {
    && (NeedsFinancialOperation(row) <==> NeedsFinancialOperation(other))
    && (Get(row, TENANT_REF) == Get(other, TENANT_REF) || BothFalsy(Get(row, TENANT_REF), Get(other, TENANT_REF)))
    && (Terminal(Get(row, STATE)) <==> Terminal(Get(other, STATE)))
    && (Hashable(Get(row, STATE)) <==> Hashable(Get(other, STATE)))
    && (Get(row, AUDIT_ACTION) == Get(other, AUDIT_ACTION) ||
        BothFalsy(Get(row, AUDIT_ACTION), Get(other, AUDIT_ACTION)))
    && (Truthy(Get(row, OUTBOX_REQUIRED)) <==> Truthy(Get(other, OUTBOX_REQUIRED)))
  }

  /** Operations that share a reference are alike, so it does not matter which of them is read. */
  ghost predicate AllAlike(operations: seq<Row>) {
    forall row, other | row in operations && other in operations && RefOf(row) == RefOf(other) :: Alike(row, other)
  }

  lemma UniqueIsAlike(operations: seq<Row>)
    requires UniqueReferences(operations)
    ensures AllAlike(operations)
  {
    forall row, other | row in operations && other in operations && RefOf(row) == RefOf(other)
      ensures Alike(row, other)
    {
      LatestWhenUnique(operations, RefOf(row), row);
      LatestWhenUnique(operations, RefOf(row), other);
    }
  }

  lemma LatestAlike(operations: seq<Row>, permuted: seq<Row>, reference: string)
    requires AllAlike(operations) && Reordered(operations, permuted)
    ensures Latest(operations, reference).Some? <==> Latest(permuted, reference).Some?
    ensures Latest(operations, reference).Some? ==>
              Alike(Latest(operations, reference).value, Latest(permuted, reference).value)
  {
    SameMembers(operations, permuted);
    LatestIsMember(operations, reference);
    LatestIsMember(permuted, reference);
  }

  /** Repeats are alike among operations and interchangeable in a compared section. */
  ghost predicate OrderIsIdle(e: Bundle) {
    && AllAlike(e.applicationOperations)
    && Interchangeable(e.applicationSettlements, FieldsFor(SETTLEMENT_MISMATCH))
    && Interchangeable(e.financialSettlements, FieldsFor(SETTLEMENT_MISMATCH))
    && Interchangeable(e.walletProjections, FieldsFor(WALLET_PROJECTION_MISMATCH))
    && Interchangeable(e.walletSnapshots, FieldsFor(WALLET_PROJECTION_MISMATCH))
    && Interchangeable(e.applicationDeposits, FieldsFor(DEPOSIT_CREDIT_MISMATCH))
    && Interchangeable(e.financialDeposits, FieldsFor(DEPOSIT_CREDIT_MISMATCH))
    && Interchangeable(e.applicationWithdrawals, FieldsFor(WITHDRAWAL_STATE_MISMATCH))
    && Interchangeable(e.financialWithdrawals, FieldsFor(WITHDRAWAL_STATE_MISMATCH))
    && Interchangeable(e.applicationTransfers, FieldsFor(TRANSFER_STATE_MISMATCH))
    && Interchangeable(e.financialTransfers, FieldsFor(TRANSFER_STATE_MISMATCH))
  }

  /** Unique references throughout are enough. */
  lemma UniqueMakesOrderIdle(e: Bundle)
    requires UniqueIndexed(e)
    ensures OrderIsIdle(e)
  {
    UniqueIsAlike(e.applicationOperations);
    UniqueIsInterchangeable(e.applicationSettlements, FieldsFor(SETTLEMENT_MISMATCH));
    UniqueIsInterchangeable(e.financialSettlements, FieldsFor(SETTLEMENT_MISMATCH));
    UniqueIsInterchangeable(e.walletProjections, FieldsFor(WALLET_PROJECTION_MISMATCH));
    UniqueIsInterchangeable(e.walletSnapshots, FieldsFor(WALLET_PROJECTION_MISMATCH));
    UniqueIsInterchangeable(e.applicationDeposits, FieldsFor(DEPOSIT_CREDIT_MISMATCH));
    UniqueIsInterchangeable(e.financialDeposits, FieldsFor(DEPOSIT_CREDIT_MISMATCH));
    UniqueIsInterchangeable(e.applicationWithdrawals, FieldsFor(WITHDRAWAL_STATE_MISMATCH));
    UniqueIsInterchangeable(e.financialWithdrawals, FieldsFor(WITHDRAWAL_STATE_MISMATCH));
    UniqueIsInterchangeable(e.applicationTransfers, FieldsFor(TRANSFER_STATE_MISMATCH));
    UniqueIsInterchangeable(e.financialTransfers, FieldsFor(TRANSFER_STATE_MISMATCH));
  }

  lemma LatestInterchanged(rows: seq<Row>, permuted: seq<Row>, fields: seq<Field>, reference: string)
    requires Interchangeable(rows, fields) && Reordered(rows, permuted)
    ensures Latest(rows, reference).Some? <==> Latest(permuted, reference).Some?
    ensures Latest(rows, reference).Some? ==>
              Same(Latest(rows, reference).value, Latest(permuted, reference).value, fields)
  {
    SameMembers(rows, permuted);
    LatestIsMember(rows, reference);
    LatestIsMember(permuted, reference);
  }

  lemma MismatchInterchanged(
    application: seq<Row>, application': seq<Row>, financial: seq<Row>, financial': seq<Row>, fields: seq<Field>,
    reference: string)
    requires Interchangeable(application, fields) && Interchangeable(financial, fields)
    requires Reordered(application, application') && Reordered(financial, financial')
    ensures Mismatched(application, financial, fields, reference) ==
            Mismatched(application', financial', fields, reference)
  {
    LatestInterchanged(application, application', fields, reference);
    LatestInterchanged(financial, financial', fields, reference);
  }

  ghost predicate OrderNeverMatters(application: seq<Row>, fields: seq<Field>) {
    forall permuted, financial, reference | Reordered(application, permuted) ::
      Mismatched(permuted, financial, fields, reference) == Mismatched(application, financial, fields, reference)
  }

  lemma AloneMatchesIffSame(application: seq<Row>, row: Row, other: Row, fields: seq<Field>)
    requires Latest(application, RefOf(row)) == Some(other)
    ensures Mismatched(application, [row], fields, RefOf(row)) <==> !Same(other, row, fields)
  {
    assert [] + [row] == [row];
  }

  lemma MovedToEnd(rows: seq<Row>, row: Row) returns (permuted: seq<Row>)
    requires row in rows
    ensures Reordered(rows, permuted) && Latest(permuted, RefOf(row)) == Some(row)
  {
    var i :| 0 <= i < |rows| && rows[i] == row;
    permuted := rows[..i] + rows[i + 1..] + [row];
    Without(rows, i);
    assert multiset(permuted) == multiset(rows[..i] + rows[i + 1..]) + multiset{row};
  }

  /** A compared section may be reordered without ever changing a mismatch, whatever it is compared with, if and only if
      its repeats are interchangeable. */
  lemma OrderNeverMattersIff(application: seq<Row>, fields: seq<Field>)
    ensures OrderNeverMatters(application, fields) <==> Interchangeable(application, fields)
  {
    if Interchangeable(application, fields) {
      forall permuted, financial, reference | Reordered(application, permuted)
        ensures Mismatched(permuted, financial, fields, reference) ==
                Mismatched(application, financial, fields, reference)
      {
        LatestInterchanged(application, permuted, fields, reference);
      }
    }
    if OrderNeverMatters(application, fields) {
      forall row, other | row in application && other in application && RefOf(row) == RefOf(other)
        ensures Same(row, other, fields)
      {
        var first := MovedToEnd(application, other);
        var second := MovedToEnd(application, row);
        AloneMatchesIffSame(first, other, other, fields);
        AloneMatchesIffSame(second, other, row, fields);
      }
    }
  }

  lemma OwnerUnderPermutation(operations: seq<Row>, permuted: seq<Row>, row: Row, m: Moment)
    requires AllAlike(operations) && Reordered(operations, permuted)
    ensures Orphaned(operations, row) == Orphaned(permuted, row)
    ensures Leaked(operations, row, m) == Leaked(permuted, row, m)
    ensures Unusable(operations, row, m) == Unusable(permuted, row, m)
  {
    LatestAlike(operations, permuted, Spelled(row, ORDER_REF, ""));
  }

  lemma OwnersUnderPermutation(operations: seq<Row>, permuted: seq<Row>, m: Moment)
    requires AllAlike(operations) && Reordered(operations, permuted)
    ensures forall row :: Orphaned(operations, row) == Orphaned(permuted, row)
    ensures forall row :: Leaked(operations, row, m) == Leaked(permuted, row, m)
    ensures forall row :: Unusable(operations, row, m) == Unusable(permuted, row, m)
  {
    forall row
      ensures Orphaned(operations, row) == Orphaned(permuted, row)
      ensures Leaked(operations, row, m) == Leaked(permuted, row, m)
      ensures Unusable(operations, row, m) == Unusable(permuted, row, m)
    {
      OwnerUnderPermutation(operations, permuted, row, m);
    }
  }

  lemma DuplicatedUnderPermutation(financial: seq<Row>, permuted: seq<Row>, reference: string)
    requires Reordered(financial, permuted)
    ensures Duplicated(financial, reference) == Duplicated(permuted, reference)
  {
    var related := (row: Row, other: Row) => Repeats(reference, row, other);
    PairsByMultiset(financial, related);
    PairsByMultiset(permuted, related);
    assert Duplicated(financial, reference) == PairAt(financial, related);
    assert Duplicated(permuted, reference) == PairAt(permuted, related);
  }

  lemma MismatchUnderPermutation(
    application: seq<Row>, application': seq<Row>, financial: seq<Row>, financial': seq<Row>, fields: seq<Field>,
    reference: string)
    requires UniqueReferences(application) && UniqueReferences(financial)
    requires Reordered(application, application') && Reordered(financial, financial')
    ensures MismatchAt(application, financial, fields, reference) ==
            MismatchAt(application', financial', fields, reference)
  {
    LatestUnderPermutation(application, application', reference);
    LatestUnderPermutation(financial, financial', reference);
  }

  lemma OperationGapUnderPermutation(e: Bundle, p: Bundle, reference: string)
    requires UniqueReferences(e.applicationOperations) && Permuted(e, p)
    ensures OperationGapAt(e.applicationOperations, e.audits, e.outbox, reference) ==
            OperationGapAt(p.applicationOperations, p.audits, p.outbox, reference)
    ensures forall event :: EventGap(event, e.inbox) == EventGap(event, p.inbox)
  {
    LatestUnderPermutation(e.applicationOperations, p.applicationOperations, reference);
    SameMembers(e.audits, p.audits);
    SameMembers(e.outbox, p.outbox);
    SameMembers(e.inbox, p.inbox);
  }

  lemma DomainsUnderPermutation(e: Bundle, p: Bundle, m: Moment, key: Flag)
    requires Permuted(e, p) && UniqueIndexed(e)
    requires 4 <= Turn(key.violation) < 9
    ensures Expected(e, m, key) == Expected(p, m, key)
  {
    var fields, reference := FieldsFor(key.violation), key.reference;
    match key.violation
    case SETTLEMENT_MISMATCH =>
      MismatchUnderPermutation(
        e.applicationSettlements, p.applicationSettlements, e.financialSettlements, p.financialSettlements, fields,
        reference);
    case WALLET_PROJECTION_MISMATCH =>
      MismatchUnderPermutation(
        e.walletProjections, p.walletProjections, e.walletSnapshots, p.walletSnapshots, fields, reference);
    case DEPOSIT_CREDIT_MISMATCH =>
      MismatchUnderPermutation(
        e.applicationDeposits, p.applicationDeposits, e.financialDeposits, p.financialDeposits, fields, reference);
    case WITHDRAWAL_STATE_MISMATCH =>
      MismatchUnderPermutation(
        e.applicationWithdrawals, p.applicationWithdrawals, e.financialWithdrawals, p.financialWithdrawals, fields,
        reference);
    case TRANSFER_STATE_MISMATCH =>
      MismatchUnderPermutation(
        e.applicationTransfers, p.applicationTransfers, e.financialTransfers, p.financialTransfers, fields, reference);
  }

  lemma DomainViolationsUnderPermutation(e: Bundle, p: Bundle, m: Moment, key: Flag)
    requires Permuted(e, p) && OrderIsIdle(e)
    requires 4 <= Turn(key.violation) < 9
    ensures Violates(e, m, key.violation, key.reference) == Violates(p, m, key.violation, key.reference)
  {
    var fields, reference := FieldsFor(key.violation), key.reference;
    match key.violation
    case SETTLEMENT_MISMATCH =>
      MismatchInterchanged(
        e.applicationSettlements, p.applicationSettlements, e.financialSettlements, p.financialSettlements, fields,
        reference);
    case WALLET_PROJECTION_MISMATCH =>
      MismatchInterchanged(
        e.walletProjections, p.walletProjections, e.walletSnapshots, p.walletSnapshots, fields, reference);
    case DEPOSIT_CREDIT_MISMATCH =>
      MismatchInterchanged(
        e.applicationDeposits, p.applicationDeposits, e.financialDeposits, p.financialDeposits, fields, reference);
    case WITHDRAWAL_STATE_MISMATCH =>
      MismatchInterchanged(
        e.applicationWithdrawals, p.applicationWithdrawals, e.financialWithdrawals, p.financialWithdrawals, fields,
        reference);
    case TRANSFER_STATE_MISMATCH =>
      MismatchInterchanged(
        e.applicationTransfers, p.applicationTransfers, e.financialTransfers, p.financialTransfers, fields, reference);
  }

  lemma MissingUnderPermutation(e: Bundle, p: Bundle, reference: string)
    requires Permuted(e, p) && UniqueReferences(e.applicationOperations)
    ensures MissingAt(e, reference) == MissingAt(p, reference)
  {
    LatestUnderPermutation(e.applicationOperations, p.applicationOperations, reference);
    SameMembers(e.financialOperations, p.financialOperations);
  }

  lemma MissingWhenAlike(e: Bundle, p: Bundle, reference: string)
    requires Permuted(e, p) && AllAlike(e.applicationOperations)
    ensures Missing(e.applicationOperations, e.financialOperations, reference) ==
            Missing(p.applicationOperations, p.financialOperations, reference)
  {
    LatestAlike(e.applicationOperations, p.applicationOperations, reference);
    SameMembers(e.financialOperations, p.financialOperations);
  }

  lemma GapWhenAlike(e: Bundle, p: Bundle, row: Row, other: Row, reference: string)
    requires Permuted(e, p) && Alike(row, other)
    ensures OperationGap(row, e.audits, e.outbox, reference) == OperationGap(other, p.audits, p.outbox, reference)
    ensures forall event :: EventGap(event, e.inbox) == EventGap(event, p.inbox)
  {
    SameMembers(e.audits, p.audits);
    SameMembers(e.outbox, p.outbox);
    SameMembers(e.inbox, p.inbox);
  }

  /** Permuting evidence changes no violation. */
  lemma ViolationsUnderPermutation(e: Bundle, p: Bundle, m: Moment, key: Flag)
    requires Permuted(e, p) && OrderIsIdle(e)
    ensures Violates(e, m, key.violation, key.reference) == Violates(p, m, key.violation, key.reference)
  {
    match key.violation
    case MISSING_FINANCIAL_OPERATION =>
      MissingWhenAlike(e, p, key.reference);
    case DUPLICATE_FINANCIAL_EFFECT =>
      DuplicatedUnderPermutation(e.financialOperations, p.financialOperations, key.reference);
    case ORPHAN_RESERVATION =>
      OwnersUnderPermutation(e.applicationOperations, p.applicationOperations, m);
      SameMembers(e.reservations, p.reservations);
    case RESERVATION_LEAK =>
      OwnersUnderPermutation(e.applicationOperations, p.applicationOperations, m);
      SameMembers(e.reservations, p.reservations);
    case AUDIT_GAP =>
      var left, right := Latest(e.applicationOperations, key.reference), Latest(p.applicationOperations, key.reference);
      LatestAlike(e.applicationOperations, p.applicationOperations, key.reference);
      GapWhenAlike(
        e, p, if left.Some? then left.value else map[], if right.Some? then right.value else map[], key.reference);
      SameMembers(e.receivedEvents, p.receivedEvents);
    case _ =>
      DomainViolationsUnderPermutation(e, p, m, key);
  }

  lemma UnreferencedUnderPermutation(rows: seq<Row>, permuted: seq<Row>)
    requires Reordered(rows, permuted)
    ensures Unreferenced(rows) == Unreferenced(permuted)
  {
    SameMembers(rows, permuted);
    if i :| 0 <= i < |rows| && RefOf(rows[i]) == "" {
      assert rows[i] in permuted;
    }
    if i :| 0 <= i < |permuted| && RefOf(permuted[i]) == "" {
      assert permuted[i] in rows;
    }
  }

  lemma DomainErrorsUnderPermutation(e: Bundle, p: Bundle)
    requires Permuted(e, p)
    ensures MalformedDomains(e) == MalformedDomains(p)
  {
    UnreferencedUnderPermutation(e.applicationSettlements, p.applicationSettlements);
    UnreferencedUnderPermutation(e.financialSettlements, p.financialSettlements);
    UnreferencedUnderPermutation(e.walletProjections, p.walletProjections);
    UnreferencedUnderPermutation(e.walletSnapshots, p.walletSnapshots);
    UnreferencedUnderPermutation(e.applicationDeposits, p.applicationDeposits);
    UnreferencedUnderPermutation(e.financialDeposits, p.financialDeposits);
    UnreferencedUnderPermutation(e.applicationWithdrawals, p.applicationWithdrawals);
    UnreferencedUnderPermutation(e.financialWithdrawals, p.financialWithdrawals);
    UnreferencedUnderPermutation(e.applicationTransfers, p.applicationTransfers);
    UnreferencedUnderPermutation(e.financialTransfers, p.financialTransfers);
  }

  /** Permuted evidence raises when the evidence does. */
  lemma ErrorsUnderPermutation(e: Bundle, p: Bundle, m: Moment)
    requires Permuted(e, p) && AllAlike(e.applicationOperations)
    ensures Malformed(e, m) == Malformed(p, m)
  {
    DomainErrorsUnderPermutation(e, p);
    UnreferencedUnderPermutation(e.applicationOperations, p.applicationOperations);
    UnreferencedUnderPermutation(e.financialOperations, p.financialOperations);
    OwnersUnderPermutation(e.applicationOperations, p.applicationOperations, m);
    SameMembers(e.reservations, p.reservations);
    SameMembers(e.audits, p.audits);
    forall reference
      ensures Latest(e.applicationOperations, reference).Some? <==> Latest(p.applicationOperations, reference).Some?
      ensures Latest(e.applicationOperations, reference).Some? ==>
                (UnusableAction(Latest(e.applicationOperations, reference).value) <==>
                 UnusableAction(Latest(p.applicationOperations, reference).value))
    {
      LatestAlike(e.applicationOperations, p.applicationOperations, reference);
    }
  }

  /** The list of violations and references is unchanged by permuting evidence whose operations repeat a reference only
      alike and whose compared sections repeat one only interchangeably. Financial operations, reservations, events,
      audits, outbox and inbox may repeat references freely. */
  lemma PermutationKeepsReport(e: Bundle, p: Bundle, m: Moment, report: seq<Finding>, other: seq<Finding>)
    requires Permuted(e, p) && OrderIsIdle(e)
    requires IsReport(e, m, report) && IsReport(p, m, other)
    ensures Keys(report) == Keys(other)
  {
    forall key ensures key in Keys(report) <==> key in Keys(other) {
      ReportListsViolations(e, m, report, key);
      ReportListsViolations(p, m, other, key);
      ViolationsUnderPermutation(e, p, m, key);
    }
    KeysAreDetermined(report, other);
  }

  // ---------------------------------------------------------------------------------------------
  // Sources
  // ---------------------------------------------------------------------------------------------

  ghost predicate UniqueEvents(events: seq<Row>) {
    !PairAt(events, (event, other) => EventReference(event) == EventReference(other))
  }

  /** No reference repeats where the first row, or the whole group, of a reference is recorded as the source. */
  ghost predicate UniqueSources(e: Bundle) {
    UniqueReferences(e.financialOperations) && UniqueReferences(e.reservations) && UniqueEvents(e.receivedEvents)
  }

  /** At most one row is hit. */
  ghost predicate AtMostOneHit(rows: seq<Row>, search: Search) {
    forall row, other | row in rows && other in rows && Hit(search, row) && Hit(search, other) :: row == other
  }

  lemma FirstUnderPermutation(rows: seq<Row>, permuted: seq<Row>, search: Search, search': Search)
    requires Reordered(rows, permuted) && AtMostOneHit(rows, search)
    requires forall row :: Hit(search, row) == Hit(search', row)
    ensures First(rows, search) == First(permuted, search')
  {
    SameMembers(rows, permuted);
    FirstIsLeast(rows, search);
    FirstIsLeast(permuted, search');
  }

  lemma RowsUnderPermutation(rows: seq<Row>, permuted: seq<Row>, reference: string)
    requires UniqueReferences(rows) && Reordered(rows, permuted)
    ensures RowsOf(rows, reference) == RowsOf(permuted, reference)
  {
    LatestUnderPermutation(rows, permuted, reference);
    AtMostOneRow(rows, reference);
    AtMostOneRow(permuted, reference);
  }

  lemma AtMostOneRow(rows: seq<Row>, reference: string)
    requires UniqueReferences(rows)
    ensures RowsOf(rows, reference) == match Latest(rows, reference) case None => [] case Some(row) => [row]
  {
    RowsCounted(rows, reference);
    var related := (row: Row, other: Row) => RefOf(row) == RefOf(other);
    assert forall i, j | 0 <= i < j < |rows| :: !related(rows[i], rows[j]);
  }

  lemma ReservationsUnderPermutation(e: Bundle, p: Bundle, m: Moment, reference: string)
    requires Permuted(e, p) && UniqueIndexed(e) && UniqueReferences(e.reservations)
    ensures First(e.reservations, Orphans(e.applicationOperations, reference)) ==
            First(p.reservations, Orphans(p.applicationOperations, reference))
    ensures First(e.reservations, Leaks(e.applicationOperations, m, reference)) ==
            First(p.reservations, Leaks(p.applicationOperations, m, reference))
  {
    UniqueIsAlike(e.applicationOperations);
    OwnersUnderPermutation(e.applicationOperations, p.applicationOperations, m);
    var orphans, leaks := Orphans(e.applicationOperations, reference), Leaks(e.applicationOperations, m, reference);
    FirstUnderPermutation(e.reservations, p.reservations, orphans, Orphans(p.applicationOperations, reference));
    FirstUnderPermutation(e.reservations, p.reservations, leaks, Leaks(p.applicationOperations, m, reference));
  }

  lemma ExpectedUnderPermutation(e: Bundle, p: Bundle, m: Moment, key: Flag)
    requires Permuted(e, p) && UniqueIndexed(e) && UniqueSources(e)
    ensures Expected(e, m, key) == Expected(p, m, key)
  {
    match key.violation
    case MISSING_FINANCIAL_OPERATION =>
      MissingUnderPermutation(e, p, key.reference);
    case DUPLICATE_FINANCIAL_EFFECT =>
      DuplicatedUnderPermutation(e.financialOperations, p.financialOperations, key.reference);
      RowsUnderPermutation(e.financialOperations, p.financialOperations, key.reference);
    case ORPHAN_RESERVATION =>
      ReservationsUnderPermutation(e, p, m, key.reference);
    case RESERVATION_LEAK =>
      ReservationsUnderPermutation(e, p, m, key.reference);
    case AUDIT_GAP =>
      OperationGapUnderPermutation(e, p, key.reference);
      FirstUnderPermutation(
        e.receivedEvents, p.receivedEvents, Gaps(e.inbox, key.reference), Gaps(p.inbox, key.reference));
    case _ =>
      DomainsUnderPermutation(e, p, m, key);
  }

  /** With unique references everywhere the whole report, with the sources that its hashes are taken from, is
      unchanged. */
  lemma PermutationKeepsSources(e: Bundle, p: Bundle, m: Moment, report: seq<Finding>, other: seq<Finding>)
    requires Permuted(e, p) && UniqueIndexed(e) && UniqueSources(e)
    requires IsReport(e, m, report) && IsReport(p, m, other)
    ensures report == other
  {
    forall key ensures Expected(e, m, key) == Expected(p, m, key) {
      ExpectedUnderPermutation(e, p, m, key);
    }
    ReportIsUnique(e, p, m, report, other);
  }

  /** Down to its hashes. */
  lemma PermutationKeepsBoundaryReport(e: Bundle, p: Bundle, m: Moment, hashes: Hashes, report: Report, other: Report)
    requires Permuted(e, p) && UniqueIndexed(e) && UniqueSources(e)
    requires IsBoundaryReport(e, m, hashes, report) && IsBoundaryReport(p, m, hashes, other)
    ensures report == other
  {
    var findings :| IsReport(e, m, findings) && report == Published(findings, m, hashes);
    var others :| IsReport(p, m, others) && other == Published(others, m, hashes);
    PermutationKeepsSources(e, p, m, findings, others);
  }

  /** With a repeated reference the order does matter: the last row wins. */
  lemma OrderMattersWithRepeats()
    returns (application: seq<Row>, permuted: seq<Row>, financial: seq<Row>, reference: string)
    ensures Reordered(application, permuted)
    ensures !Mismatched(application, financial, [STATE], reference)
    ensures Mismatched(permuted, financial, [STATE], reference)
  {
    reference := "r";
    var open: Row := map[REFERENCE := Datum(Text("r"), "r"), STATE := Datum(Number(0.0), "0")];
    var closed: Row := map[REFERENCE := Datum(Text("r"), "r"), STATE := Datum(Number(1.0), "1")];
    application, permuted, financial := [open] + [closed], [closed] + [open], [closed];
    AloneMatchesIffSame(application, closed, closed, [STATE]);
    AloneMatchesIffSame(permuted, closed, open, [STATE]);
    assert Get(open, [STATE][0]) != Get(closed, [STATE][0]);
  }
}
