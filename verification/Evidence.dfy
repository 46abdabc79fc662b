/** The evidence that FX/financial_boundary/reconciliation.py compares, and what each violation means. */
module Evidence {
  import opened Values
  import opened Ordering

  /** What a value is when Python compares it: two values are equal when their meanings are. A boolean means the
      number 0 or 1. */
  datatype Meaning =
    | Null
    | Number(value: real)
    | Text(text: string)
    | List(items: seq<Meaning>)
    | Record(fields: map<string, Meaning>)

  /** A value in an evidence row: what it means and how `str` spells it. */
  datatype Datum = Datum(meaning: Meaning, spelling: string)

  datatype Field =
    | REFERENCE | STATE | ASSET
    | REQUIRES_FINANCIAL_OPERATION | AUDIT_ACTION | OUTBOX_REQUIRED | EFFECT_ID
    | ORDER_REF | TENANT_REF | EXPIRES_AT
    | TRADE_REF | RESERVATION_REF | ASSET_LEGS | FEE_COMPONENTS
    | TOTAL | AVAILABLE | RESERVED | PENDING | VERSION
    | CREDITED_AMOUNT | ACTION | EVENT_ID
    | OTHER(name: string)

  type Row = map<Field, Datum>

  datatype Bundle = Bundle(
    applicationOperations: seq<Row>,
    financialOperations: seq<Row>,
    reservations: seq<Row>,
    applicationSettlements: seq<Row>,
    financialSettlements: seq<Row>,
    walletProjections: seq<Row>,
    walletSnapshots: seq<Row>,
    applicationDeposits: seq<Row>,
    financialDeposits: seq<Row>,
    applicationWithdrawals: seq<Row>,
    financialWithdrawals: seq<Row>,
    applicationTransfers: seq<Row>,
    financialTransfers: seq<Row>,
    outbox: seq<Row>,
    receivedEvents: seq<Row>,
    inbox: seq<Row>,
    audits: seq<Row>)

  /** The moment of the comparison. `parse` reads the spelling of a time; it gives None where the parser raises and
      where the time has no zone. */
  datatype Moment = Moment(asOf: int, parse: string -> Option<int>)

  datatype Violation =
    | MISSING_FINANCIAL_OPERATION
    | DUPLICATE_FINANCIAL_EFFECT
    | ORPHAN_RESERVATION
    | RESERVATION_LEAK
    | SETTLEMENT_MISMATCH
    | WALLET_PROJECTION_MISMATCH
    | DEPOSIT_CREDIT_MISMATCH
    | WITHDRAWAL_STATE_MISMATCH
    | TRANSFER_STATE_MISMATCH
    | AUDIT_GAP

  // ---------------------------------------------------------------------------------------------
  // Reading rows
  // ---------------------------------------------------------------------------------------------

  predicate Truthy(m: Meaning) {
    match m
    case Null => false
    case Number(value) => value != 0.0
    case Text(text) => text != []
    case List(items) => items != []
    case Record(fields) => fields != map[]
  }

  /** Lists and dictionaries cannot be put into a set or looked up in one. */
  predicate Hashable(m: Meaning) {
    !m.List? && !m.Record?
  }

  function Get(row: Row, field: Field): Meaning {
    if field in row then row[field].meaning else Null
  }

  function Spelled(row: Row, field: Field, default: string): string {
    if field in row then row[field].spelling else default
  }

  function RefOf(row: Row): string {
    Spelled(row, REFERENCE, "")
  }

  /** How `str` spells a missing value that was read without a default. */
  const NONE: string := "None"

  predicate Same(left: Row, right: Row, fields: seq<Field>) {
    forall i | 0 <= i < |fields| :: Get(left, fields[i]) == Get(right, fields[i])
  }

  /** The rows with a reference, in order. */
  function RowsOf(rows: seq<Row>, reference: string): seq<Row> {
    if rows == [] then []
    else RowsOf(rows[..|rows| - 1], reference) + if RefOf(rows[|rows| - 1]) == reference then [rows[|rows| - 1]] else []
  }

  /** The last row with a reference. */
  function Latest(rows: seq<Row>, reference: string): Option<Row> {
    var found := RowsOf(rows, reference);
    if found == [] then None else Some(found[|found| - 1])
  }

  predicate Unreferenced(rows: seq<Row>) {
    exists i :: 0 <= i < |rows| && RefOf(rows[i]) == ""
  }

  // ---------------------------------------------------------------------------------------------
  // Reservations
  // ---------------------------------------------------------------------------------------------

  predicate Active(state: Meaning) {
    state == Text("PENDING") || state == Text("ACTIVE") || state == Text("PARTIALLY_CONSUMED")
  }

  predicate Terminal(state: Meaning) {
    state == Text("FAILED") || state == Text("CANCELLED") || state == Text("REJECTED") || state == Text("COMPLETED")
  }

  function OwnerOf(operations: seq<Row>, reservation: Row): Option<Row> {
    Latest(operations, Spelled(reservation, ORDER_REF, ""))
  }

  predicate OtherTenant(owner: Row, reservation: Row) {
    Truthy(Get(reservation, TENANT_REF)) && Get(owner, TENANT_REF) != Get(reservation, TENANT_REF)
  }

  predicate Unreadable(reservation: Row, m: Moment) {
    Truthy(Get(reservation, EXPIRES_AT)) && m.parse(Spelled(reservation, EXPIRES_AT, "")).None?
  }

  predicate Expired(reservation: Row, m: Moment) {
    && Truthy(Get(reservation, EXPIRES_AT))
    && var parsed := m.parse(Spelled(reservation, EXPIRES_AT, ""));
       parsed.Some? && parsed.value <= m.asOf
  }

  predicate Orphaned(operations: seq<Row>, reservation: Row) {
    var owner := OwnerOf(operations, reservation);
    owner.None? || OtherTenant(owner.value, reservation)
  }

  predicate Leaked(operations: seq<Row>, reservation: Row, m: Moment) {
    && !Orphaned(operations, reservation)
    && Active(Get(reservation, STATE))
    && (Expired(reservation, m) || Terminal(Get(OwnerOf(operations, reservation).value, STATE)))
  }

  /** The reservation makes the comparison raise. */
  predicate Unusable(operations: seq<Row>, reservation: Row, m: Moment) {
    || REFERENCE !in reservation
    || (&& !Orphaned(operations, reservation)
        && (|| Unreadable(reservation, m)
            || !Hashable(Get(reservation, STATE))
            || (&& Active(Get(reservation, STATE)) && !Expired(reservation, m)
                && !Hashable(Get(OwnerOf(operations, reservation).value, STATE)))))
  }

  // ---------------------------------------------------------------------------------------------
  // What each violation means
  // ---------------------------------------------------------------------------------------------

  predicate NeedsFinancialOperation(operation: Row) {
    REQUIRES_FINANCIAL_OPERATION in operation ==> Truthy(Get(operation, REQUIRES_FINANCIAL_OPERATION))
  }

  predicate Missing(operations: seq<Row>, financial: seq<Row>, reference: string) {
    && Latest(operations, reference).Some?
    && NeedsFinancialOperation(Latest(operations, reference).value)
    && (forall row | row in financial :: RefOf(row) != reference)
  }

  function EffectOf(row: Row): Option<string> {
    if Truthy(Get(row, EFFECT_ID)) then Some(Spelled(row, EFFECT_ID, "")) else None
  }

  /** `row` has the reference and repeats either the reference or the effect of `other`. */
  predicate Repeats(reference: string, row: Row, other: Row) {
    && RefOf(row) == reference
    && (RefOf(other) == reference || (EffectOf(row).Some? && EffectOf(row) == EffectOf(other)))
  }

  ghost predicate Duplicated(financial: seq<Row>, reference: string) {
    PairAt(financial, (row, other) => Repeats(reference, row, other))
  }

  predicate Mismatched(application: seq<Row>, financial: seq<Row>, fields: seq<Field>, reference: string) {
    var left, right := Latest(application, reference), Latest(financial, reference);
    match (left, right)
    case (None, None) => false
    case (Some(l), Some(r)) => !Same(l, r, fields)
    case _ => true
  }

  predicate Audited(audits: seq<Row>, reference: string, action: Meaning) {
    exists row :: row in audits && Spelled(row, REFERENCE, NONE) == reference && Get(row, ACTION) == action
  }

  predicate Sent(outbox: seq<Row>, reference: string) {
    exists row :: row in outbox && Spelled(row, REFERENCE, NONE) == reference
  }

  predicate Received(inbox: seq<Row>, eventId: string) {
    exists row :: row in inbox && Spelled(row, EVENT_ID, NONE) == eventId
  }

  predicate OperationGap(operation: Row, audits: seq<Row>, outbox: seq<Row>, reference: string) {
    || (Truthy(Get(operation, AUDIT_ACTION)) && !Audited(audits, reference, Get(operation, AUDIT_ACTION)))
    || (Truthy(Get(operation, OUTBOX_REQUIRED)) && !Sent(outbox, reference))
  }

  function EventReference(event: Row): string {
    var eventId := Spelled(event, EVENT_ID, "");
    if eventId == "" then "missing-event-id" else eventId
  }

  predicate EventGap(event: Row, inbox: seq<Row>) {
    var eventId := Spelled(event, EVENT_ID, "");
    eventId == "" || !Received(inbox, eventId)
  }

  function FieldsFor(violation: Violation): seq<Field> {
    match violation
    case SETTLEMENT_MISMATCH => [TRADE_REF, RESERVATION_REF, STATE, ASSET_LEGS, FEE_COMPONENTS]
    case WALLET_PROJECTION_MISMATCH => [ASSET, TOTAL, AVAILABLE, RESERVED, PENDING, VERSION]
    case DEPOSIT_CREDIT_MISMATCH => [STATE, CREDITED_AMOUNT, ASSET]
    case _ => [STATE]
  }

  /** `reference` is in violation: no mention of indexes, of the order of the comparison, or of what it found
      before. */
  ghost predicate Violates(e: Bundle, m: Moment, violation: Violation, reference: string) {
    match violation
    case MISSING_FINANCIAL_OPERATION => Missing(e.applicationOperations, e.financialOperations, reference)
    case DUPLICATE_FINANCIAL_EFFECT => Duplicated(e.financialOperations, reference)
    case ORPHAN_RESERVATION =>
      exists row :: row in e.reservations && RefOf(row) == reference && Orphaned(e.applicationOperations, row)
    case RESERVATION_LEAK =>
      exists row :: row in e.reservations && RefOf(row) == reference && Leaked(e.applicationOperations, row, m)
    case SETTLEMENT_MISMATCH =>
      Mismatched(e.applicationSettlements, e.financialSettlements, FieldsFor(SETTLEMENT_MISMATCH), reference)
    case WALLET_PROJECTION_MISMATCH =>
      Mismatched(e.walletProjections, e.walletSnapshots, FieldsFor(WALLET_PROJECTION_MISMATCH), reference)
    case DEPOSIT_CREDIT_MISMATCH =>
      Mismatched(e.applicationDeposits, e.financialDeposits, FieldsFor(DEPOSIT_CREDIT_MISMATCH), reference)
    case WITHDRAWAL_STATE_MISMATCH =>
      Mismatched(e.applicationWithdrawals, e.financialWithdrawals, FieldsFor(WITHDRAWAL_STATE_MISMATCH), reference)
    case TRANSFER_STATE_MISMATCH =>
      Mismatched(e.applicationTransfers, e.financialTransfers, FieldsFor(TRANSFER_STATE_MISMATCH), reference)
    case AUDIT_GAP =>
      || (&& Latest(e.applicationOperations, reference).Some?
          && OperationGap(Latest(e.applicationOperations, reference).value, e.audits, e.outbox, reference))
      || (exists event :: event in e.receivedEvents && EventReference(event) == reference && EventGap(event, e.inbox))
  }

  /** An operation whose audit action cannot be looked up. */
  predicate UnusableAction(operation: Row) {
    Truthy(Get(operation, AUDIT_ACTION)) && !Hashable(Get(operation, AUDIT_ACTION))
  }

  ghost predicate MalformedOperations(e: Bundle, m: Moment) {
    || Unreferenced(e.applicationOperations) || Unreferenced(e.financialOperations)
    || (exists row :: row in e.reservations && Unusable(e.applicationOperations, row, m))
  }

  predicate MalformedDomains(e: Bundle) {
    || Unreferenced(e.applicationSettlements) || Unreferenced(e.financialSettlements)
    || Unreferenced(e.walletProjections) || Unreferenced(e.walletSnapshots)
    || Unreferenced(e.applicationDeposits) || Unreferenced(e.financialDeposits)
    || Unreferenced(e.applicationWithdrawals) || Unreferenced(e.financialWithdrawals)
    || Unreferenced(e.applicationTransfers) || Unreferenced(e.financialTransfers)
  }

  ghost predicate MalformedActions(e: Bundle) {
    || (exists row :: row in e.audits && !Hashable(Get(row, ACTION)))
    || (exists reference :: Latest(e.applicationOperations, reference).Some? &&
                            UnusableAction(Latest(e.applicationOperations, reference).value))
  }

  /** The evidence makes the comparison raise. */
  ghost predicate Malformed(e: Bundle, m: Moment) {
    MalformedOperations(e, m) || MalformedDomains(e) || MalformedActions(e)
  }

  // ---------------------------------------------------------------------------------------------
  // Facts about rows
  // ---------------------------------------------------------------------------------------------

  lemma {:induction false} RowsOfMembers(rows: seq<Row>, reference: string)
    ensures forall row :: row in RowsOf(rows, reference) <==> row in rows && RefOf(row) == reference
  {
    if rows != [] {
      RowsOfMembers(rows[..|rows| - 1], reference);
      assert rows == rows[..|rows| - 1] + [rows[|rows| - 1]];
    }
  }

  lemma LatestIsMember(rows: seq<Row>, reference: string)
    ensures Latest(rows, reference).Some? <==> exists row :: row in rows && RefOf(row) == reference
    ensures Latest(rows, reference).Some? ==>
              Latest(rows, reference).value in rows && RefOf(Latest(rows, reference).value) == reference
  {
    RowsOfMembers(rows, reference);
    var found := RowsOf(rows, reference);
    if found != [] {
      assert found[|found| - 1] in found;
    }
    if row :| row in rows && RefOf(row) == reference {
      assert row in found;
    }
  }

  /** No two rows share a reference. */
  ghost predicate UniqueReferences(rows: seq<Row>) {
    !PairAt(rows, (row, other) => RefOf(row) == RefOf(other))
  }

  lemma LatestWhenUnique(rows: seq<Row>, reference: string, row: Row)
    requires UniqueReferences(rows)
    requires row in rows && RefOf(row) == reference
    ensures Latest(rows, reference) == Some(row)
  {
    LatestIsMember(rows, reference);
    var other := Latest(rows, reference).value;
    var i :| 0 <= i < |rows| && rows[i] == row;
    var j :| 0 <= j < |rows| && rows[j] == other;
    var related := (row, other) => RefOf(row) == RefOf(other);
    assert related(rows[i], rows[j]);
  }

  lemma LatestUnderPermutation(rows: seq<Row>, permuted: seq<Row>, reference: string)
    requires UniqueReferences(rows) && multiset(rows) == multiset(permuted)
    ensures UniqueReferences(permuted)
    ensures Latest(rows, reference) == Latest(permuted, reference)
  {
    var related := (row: Row, other: Row) => RefOf(row) == RefOf(other);
    PairsByMultiset(rows, related);
    PairsByMultiset(permuted, related);
    LatestIsMember(rows, reference);
    LatestIsMember(permuted, reference);
    SameMembers(rows, permuted);
    if Latest(rows, reference).Some? {
      LatestWhenUnique(permuted, reference, Latest(rows, reference).value);
    }
  }

  lemma SameMembers(rows: seq<Row>, permuted: seq<Row>)
    requires multiset(rows) == multiset(permuted)
    ensures forall row :: row in rows <==> row in permuted
  {
    assert forall row :: row in rows <==> row in multiset(rows);
    assert forall row :: row in permuted <==> row in multiset(permuted);
  }
}
