/** What each violation of FX/financial_boundary/reconciliation.py means in terms of the fields of the rows, with every
    field, state and default written out. */
module ViolationLaws {
  import opened Values
  import opened Ordering
  import opened Evidence
  import opened Reconciliation

  /** The values that Python takes for false. */
  lemma FalsyValues(m: Meaning)
    ensures !Truthy(m) <==> m == Null || m == Number(0.0) || m == Text("") || m == List([]) || m == Record(map[])
  {
  }

  /** The row that stands for a reference is the one at its last position. */
  lemma {:induction false} LatestIsLastPosition(rows: seq<Row>, reference: string, row: Row)
    ensures Latest(rows, reference) == Some(row) <==>
            exists i :: IsLastOf(rows, reference, i) && rows[i] == row
  {
    if rows != [] {
      var n := |rows| - 1;
      LatestIsLastPosition(rows[..n], reference, row);
      if i :| IsLastOf(rows[..n], reference, i) && rows[..n][i] == row && !Named(rows[n], reference) {
        assert IsLastOf(rows, reference, i);
      }
      if i :| IsLastOf(rows, reference, i) && rows[i] == row && i < n {
        assert IsLastOf(rows[..n], reference, i) && rows[..n][i] == row;
      }
      if Named(rows[n], reference) {
        assert IsLastOf(rows, reference, n);
      }
    }
  }

  /** The row carries the reference; a row without one counts as carrying the empty reference. */
  predicate Named(row: Row, reference: string) {
    if REFERENCE in row then row[REFERENCE].spelling == reference else reference == ""
  }

  predicate IsLastOf(rows: seq<Row>, reference: string, i: int) {
    0 <= i < |rows| && Named(rows[i], reference) && forall j | i < j < |rows| :: !Named(rows[j], reference)
  }

  /** The two sides differ in one of the fields, read with None for a missing one. */
  predicate Differ(left: Row, right: Row, field: Field) {
    var l := if field in left then left[field].meaning else Null;
    var r := if field in right then right[field].meaning else Null;
    l != r
  }

  /** One side lacks the reference. */
  predicate OneSided(application: seq<Row>, financial: seq<Row>, reference: string) {
    Latest(application, reference).Some? != Latest(financial, reference).Some?
  }

  predicate TwoSided(application: seq<Row>, financial: seq<Row>, reference: string) {
    Latest(application, reference).Some? && Latest(financial, reference).Some?
  }

  lemma SettlementMismatchMeans(e: Bundle, m: Moment, reference: string)
    ensures var a, f := e.applicationSettlements, e.financialSettlements;
            Violates(e, m, SETTLEMENT_MISMATCH, reference) <==>
            || OneSided(a, f, reference)
            || (&& TwoSided(a, f, reference)
                && var l, r := Latest(a, reference).value, Latest(f, reference).value;
                   || Differ(l, r, TRADE_REF) || Differ(l, r, RESERVATION_REF) || Differ(l, r, STATE)
                   || Differ(l, r, ASSET_LEGS) || Differ(l, r, FEE_COMPONENTS))
  {
    var fields := FieldsFor(SETTLEMENT_MISMATCH);
    assert fields[0] == TRADE_REF && fields[1] == RESERVATION_REF && fields[2] == STATE && fields[3] == ASSET_LEGS &&
           fields[4] == FEE_COMPONENTS && |fields| == 5;
  }

  lemma WalletMismatchMeans(e: Bundle, m: Moment, reference: string)
    ensures var a, f := e.walletProjections, e.walletSnapshots;
            Violates(e, m, WALLET_PROJECTION_MISMATCH, reference) <==>
            || OneSided(a, f, reference)
            || (&& TwoSided(a, f, reference)
                && var l, r := Latest(a, reference).value, Latest(f, reference).value;
                   || Differ(l, r, ASSET) || Differ(l, r, TOTAL) || Differ(l, r, AVAILABLE)
                   || Differ(l, r, RESERVED) || Differ(l, r, PENDING) || Differ(l, r, VERSION))
  {
    var fields := FieldsFor(WALLET_PROJECTION_MISMATCH);
    assert fields[0] == ASSET && fields[1] == TOTAL && fields[2] == AVAILABLE && fields[3] == RESERVED &&
           fields[4] == PENDING && fields[5] == VERSION && |fields| == 6;
  }

  lemma DepositMismatchMeans(e: Bundle, m: Moment, reference: string)
    ensures var a, f := e.applicationDeposits, e.financialDeposits;
            Violates(e, m, DEPOSIT_CREDIT_MISMATCH, reference) <==>
            || OneSided(a, f, reference)
            || (&& TwoSided(a, f, reference)
                && var l, r := Latest(a, reference).value, Latest(f, reference).value;
                   Differ(l, r, STATE) || Differ(l, r, CREDITED_AMOUNT) || Differ(l, r, ASSET))
  {
    var fields := FieldsFor(DEPOSIT_CREDIT_MISMATCH);
    assert fields[0] == STATE && fields[1] == CREDITED_AMOUNT && fields[2] == ASSET && |fields| == 3;
  }

  lemma WithdrawalMismatchMeans(e: Bundle, m: Moment, reference: string)
    ensures var a, f := e.applicationWithdrawals, e.financialWithdrawals;
            Violates(e, m, WITHDRAWAL_STATE_MISMATCH, reference) <==>
            || OneSided(a, f, reference)
            || (&& TwoSided(a, f, reference)
                && Differ(Latest(a, reference).value, Latest(f, reference).value, STATE))
  {
    assert FieldsFor(WITHDRAWAL_STATE_MISMATCH)[0] == STATE && |FieldsFor(WITHDRAWAL_STATE_MISMATCH)| == 1;
  }

  lemma TransferMismatchMeans(e: Bundle, m: Moment, reference: string)
    ensures var a, f := e.applicationTransfers, e.financialTransfers;
            Violates(e, m, TRANSFER_STATE_MISMATCH, reference) <==>
            || OneSided(a, f, reference)
            || (&& TwoSided(a, f, reference)
                && Differ(Latest(a, reference).value, Latest(f, reference).value, STATE))
  {
    assert FieldsFor(TRANSFER_STATE_MISMATCH)[0] == STATE && |FieldsFor(TRANSFER_STATE_MISMATCH)| == 1;
  }

  /** An operation needs a financial operation unless it says otherwise. */
  lemma MissingMeans(e: Bundle, m: Moment, reference: string)
    ensures var operation := Latest(e.applicationOperations, reference);
            Violates(e, m, MISSING_FINANCIAL_OPERATION, reference) <==>
            && operation.Some?
            && (REQUIRES_FINANCIAL_OPERATION in operation.value ==>
                  Truthy(operation.value[REQUIRES_FINANCIAL_OPERATION].meaning))
            && (forall i | 0 <= i < |e.financialOperations| :: !Named(e.financialOperations[i], reference))
  {
    var rows := e.financialOperations;
    assert forall i | 0 <= i < |rows| :: rows[i] in rows;
    assert forall row :: Named(row, reference) <==> RefOf(row) == reference;
  }

  /** Both rows name an effect, and spell it alike. */
  predicate ShareEffect(row: Row, other: Row) {
    && EFFECT_ID in row && EFFECT_ID in other
    && Truthy(row[EFFECT_ID].meaning) && Truthy(other[EFFECT_ID].meaning)
    && row[EFFECT_ID].spelling == other[EFFECT_ID].spelling
  }

  lemma DuplicateMeans(e: Bundle, m: Moment, reference: string)
    ensures var rows := e.financialOperations;
            Violates(e, m, DUPLICATE_FINANCIAL_EFFECT, reference) <==>
            exists i, j :: 0 <= i < |rows| && 0 <= j < |rows| && i != j && Named(rows[i], reference) &&
                           (Named(rows[j], reference) || ShareEffect(rows[i], rows[j]))
  {
    var rows := e.financialOperations;
    var related := (row: Row, other: Row) => Repeats(reference, row, other);
    assert Duplicated(rows, reference) <==> PairAt(rows, related);
    forall row: Row, other: Row
      ensures Repeats(reference, row, other) <==>
              Named(row, reference) && (Named(other, reference) || ShareEffect(row, other))
    {
    }
    if PairAt(rows, related) {
      var i, j :| 0 <= i < |rows| && 0 <= j < |rows| && i != j && related(rows[i], rows[j]);
      assert Named(rows[i], reference) && (Named(rows[j], reference) || ShareEffect(rows[i], rows[j]));
    }
    if i, j :| 0 <= i < |rows| && 0 <= j < |rows| && i != j && Named(rows[i], reference) &&
               (Named(rows[j], reference) || ShareEffect(rows[i], rows[j])) {
      assert related(rows[i], rows[j]);
    }
  }

  /** The operation that a reservation belongs to. */
  function Owner(operations: seq<Row>, reservation: Row): Option<Row> {
    Latest(operations, if ORDER_REF in reservation then reservation[ORDER_REF].spelling else "")
  }

  /** The reservation names a tenant that is not its owner's. */
  predicate Foreign(owner: Row, reservation: Row) {
    && TENANT_REF in reservation && Truthy(reservation[TENANT_REF].meaning)
    && (TENANT_REF in owner ==> owner[TENANT_REF].meaning != reservation[TENANT_REF].meaning)
  }

  lemma OrphanMeans(e: Bundle, m: Moment, reference: string)
    ensures Violates(e, m, ORPHAN_RESERVATION, reference) <==>
            exists row :: row in e.reservations && Named(row, reference) &&
                          var owner := Owner(e.applicationOperations, row);
                          owner.None? || Foreign(owner.value, row)
  {
    forall row ensures Orphaned(e.applicationOperations, row) <==>
                       var owner := Owner(e.applicationOperations, row); owner.None? || Foreign(owner.value, row)
    {
    }
    assert forall row :: Named(row, reference) <==> RefOf(row) == reference;
  }

  /** The field of the row is one of these texts. */
  predicate StateIs(row: Row, texts: set<string>) {
    STATE in row && row[STATE].meaning.Text? && row[STATE].meaning.text in texts
  }

  /** The reservation has a time that can be read and is not in the future. */
  predicate HasExpired(row: Row, m: Moment) {
    && EXPIRES_AT in row && Truthy(row[EXPIRES_AT].meaning)
    && var at := m.parse(row[EXPIRES_AT].spelling);
       at.Some? && at.value <= m.asOf
  }

  lemma LeakMeans(e: Bundle, m: Moment, reference: string)
    ensures Violates(e, m, RESERVATION_LEAK, reference) <==>
            exists row :: row in e.reservations && Named(row, reference) &&
                          var owner := Owner(e.applicationOperations, row);
                          && owner.Some? && !Foreign(owner.value, row)
                          && StateIs(row, {"PENDING", "ACTIVE", "PARTIALLY_CONSUMED"})
                          && (|| HasExpired(row, m)
                              || StateIs(owner.value, {"FAILED", "CANCELLED", "REJECTED", "COMPLETED"}))
  {
    forall row ensures Leaked(e.applicationOperations, row, m) <==>
                       var owner := Owner(e.applicationOperations, row);
                       && owner.Some? && !Foreign(owner.value, row)
                       && StateIs(row, {"PENDING", "ACTIVE", "PARTIALLY_CONSUMED"})
                       && (|| HasExpired(row, m)
                           || StateIs(owner.value, {"FAILED", "CANCELLED", "REJECTED", "COMPLETED"}))
    {
    }
    assert forall row :: Named(row, reference) <==> RefOf(row) == reference;
  }

  /** The spelling of a field read without a default. */
  function SpelledOrNone(row: Row, field: Field): string {
    if field in row then row[field].spelling else "None"
  }

  /** The operation asks for an audit that is not there. */
  predicate Unaudited(operation: Row, audits: seq<Row>, reference: string) {
    && AUDIT_ACTION in operation && Truthy(operation[AUDIT_ACTION].meaning)
    && forall i | 0 <= i < |audits| && SpelledOrNone(audits[i], REFERENCE) == reference ::
         ACTION !in audits[i] || audits[i][ACTION].meaning != operation[AUDIT_ACTION].meaning
  }

  /** The operation asks for an outbox row that is not there. */
  predicate Unsent(operation: Row, outbox: seq<Row>, reference: string) {
    && OUTBOX_REQUIRED in operation && Truthy(operation[OUTBOX_REQUIRED].meaning)
    && forall i | 0 <= i < |outbox| :: SpelledOrNone(outbox[i], REFERENCE) != reference
  }

  /** The event has no id, or one that no inbox row has. */
  predicate Unreceived(event: Row, inbox: seq<Row>) {
    var id := if EVENT_ID in event then event[EVENT_ID].spelling else "";
    id == "" || forall i | 0 <= i < |inbox| :: SpelledOrNone(inbox[i], EVENT_ID) != id
  }

  /** What a missing event is listed as. */
  predicate ListedAs(event: Row, reference: string) {
    var id := if EVENT_ID in event then event[EVENT_ID].spelling else "";
    reference == if id == "" then "missing-event-id" else id
  }

  lemma AuditGapMeans(e: Bundle, m: Moment, reference: string)
    ensures var operation := Latest(e.applicationOperations, reference);
            Violates(e, m, AUDIT_GAP, reference) <==>
            || (operation.Some? && (|| Unaudited(operation.value, e.audits, reference)
                                    || Unsent(operation.value, e.outbox, reference)))
            || exists event :: event in e.receivedEvents && ListedAs(event, reference) && Unreceived(event, e.inbox)
  {
    var operation := Latest(e.applicationOperations, reference);
    if operation.Some? {
      UnauditedMeans(operation.value, e.audits, reference);
      UnsentMeans(e.outbox, reference);
    }
    forall event ensures EventGap(event, e.inbox) <==> Unreceived(event, e.inbox) {
      UnreceivedMeans(event, e.inbox);
    }
    assert forall event :: ListedAs(event, reference) <==> EventReference(event) == reference;
  }

  lemma UnauditedMeans(operation: Row, audits: seq<Row>, reference: string)
    ensures Unaudited(operation, audits, reference) <==>
            Truthy(Get(operation, AUDIT_ACTION)) && !Audited(audits, reference, Get(operation, AUDIT_ACTION))
  {
    assert forall i | 0 <= i < |audits| :: audits[i] in audits;
    if row :| row in audits && Spelled(row, REFERENCE, NONE) == reference &&
              Get(row, ACTION) == Get(operation, AUDIT_ACTION) {
      var i :| 0 <= i < |audits| && audits[i] == row;
    }
  }

  lemma UnsentMeans(outbox: seq<Row>, reference: string)
    ensures Sent(outbox, reference) <==>
            exists i :: 0 <= i < |outbox| && SpelledOrNone(outbox[i], REFERENCE) == reference
  {
    if row :| row in outbox && Spelled(row, REFERENCE, NONE) == reference {
      var i :| 0 <= i < |outbox| && outbox[i] == row;
      assert SpelledOrNone(outbox[i], REFERENCE) == reference;
    }
    if i :| 0 <= i < |outbox| && SpelledOrNone(outbox[i], REFERENCE) == reference {
      assert outbox[i] in outbox;
    }
  }

  lemma UnreceivedMeans(event: Row, inbox: seq<Row>)
    ensures EventGap(event, inbox) <==> Unreceived(event, inbox)
  {
    var id := Spelled(event, EVENT_ID, "");
    if row :| row in inbox && Spelled(row, EVENT_ID, NONE) == id {
      var i :| 0 <= i < |inbox| && inbox[i] == row;
      assert SpelledOrNone(inbox[i], EVENT_ID) == id;
    }
    assert forall i | 0 <= i < |inbox| :: inbox[i] in inbox;
  }

  /** A list or a dictionary, which Python cannot look up in a set. */
  predicate Unhashable(row: Row, field: Field) {
    field in row && (row[field].meaning.List? || row[field].meaning.Record?)
  }

  predicate Anonymous(rows: seq<Row>) {
    exists i :: 0 <= i < |rows| && Named(rows[i], "")
  }

  /** The reservation has no reference, or belongs to an owner and has a time that cannot be read, a state that cannot
      be looked up, or, being live and not expired, an owner whose state cannot be. */
  predicate Unjudgeable(operations: seq<Row>, row: Row, m: Moment) {
    || REFERENCE !in row
    || (&& Owner(operations, row).Some? && !Foreign(Owner(operations, row).value, row)
        && (|| (EXPIRES_AT in row && Truthy(row[EXPIRES_AT].meaning) && m.parse(row[EXPIRES_AT].spelling).None?)
            || Unhashable(row, STATE)
            || (&& StateIs(row, {"PENDING", "ACTIVE", "PARTIALLY_CONSUMED"}) && !HasExpired(row, m)
                && Unhashable(Owner(operations, row).value, STATE))))
  }

  lemma UnjudgeableMeans(operations: seq<Row>, row: Row, m: Moment)
    ensures Unusable(operations, row, m) <==> Unjudgeable(operations, row, m)
  {
  }

  /** Exactly when the comparison raises. */
  lemma MalformedMeans(e: Bundle, m: Moment)
    ensures Malformed(e, m) <==>
            || Anonymous(e.applicationOperations) || Anonymous(e.financialOperations)
            || Anonymous(e.applicationSettlements) || Anonymous(e.financialSettlements)
            || Anonymous(e.walletProjections) || Anonymous(e.walletSnapshots)
            || Anonymous(e.applicationDeposits) || Anonymous(e.financialDeposits)
            || Anonymous(e.applicationWithdrawals) || Anonymous(e.financialWithdrawals)
            || Anonymous(e.applicationTransfers) || Anonymous(e.financialTransfers)
            || (exists row :: row in e.reservations && Unjudgeable(e.applicationOperations, row, m))
            || (exists row :: row in e.audits && Unhashable(row, ACTION))
            || (exists reference :: var operation := Latest(e.applicationOperations, reference);
                                    operation.Some? && Unhashable(operation.value, AUDIT_ACTION) &&
                                    Truthy(operation.value[AUDIT_ACTION].meaning))
  {
    forall rows ensures Anonymous(rows) <==> Unreferenced(rows) {
    }
    forall row ensures Unusable(e.applicationOperations, row, m) <==> Unjudgeable(e.applicationOperations, row, m) {
      UnjudgeableMeans(e.applicationOperations, row, m);
    }
    assert MalformedActions(e) <==>
        || (exists row :: row in e.audits && Unhashable(row, ACTION))
        || (exists reference :: var operation := Latest(e.applicationOperations, reference);
                                operation.Some? && Unhashable(operation.value, AUDIT_ACTION) &&
                                Truthy(operation.value[AUDIT_ACTION].meaning));
  }

  // ---------------------------------------------------------------------------------------------
  // What a finding is hashed from
  // ---------------------------------------------------------------------------------------------

  /** The first row in order that satisfies what `search` looks for is the source. */
  ghost predicate FromFirst(rows: seq<Row>, search: Search, source: Option<Source>) {
    exists i :: LeastHit(rows, search, i) && source == Some(FromRow(rows[i]))
  }

  /** The two last rows of a reference, application side first. */
  ghost predicate FromLast(application: seq<Row>, financial: seq<Row>, reference: string, source: Option<Source>) {
    source == Some(FromPair(Latest(application, reference), Latest(financial, reference)))
  }

  /** A finding is hashed from the last operation of its reference, all financial rows of it in order, its first
      offending reservation or event, or the pair of its last rows on the two sides; an operation's gap comes before an
      event's. */
  lemma SourcesMean(e: Bundle, m: Moment, reference: string, violation: Violation)
    requires Violates(e, m, violation, reference)
    ensures var source, operations := Expected(e, m, Flag(violation, reference)), e.applicationOperations;
            match violation
            case MISSING_FINANCIAL_OPERATION => source == Some(FromRow(Latest(operations, reference).value))
            case DUPLICATE_FINANCIAL_EFFECT => source == Some(FromRows(RowsOf(e.financialOperations, reference)))
            case ORPHAN_RESERVATION => FromFirst(e.reservations, Orphans(operations, reference), source)
            case RESERVATION_LEAK => FromFirst(e.reservations, Leaks(operations, m, reference), source)
            case SETTLEMENT_MISMATCH => FromLast(e.applicationSettlements, e.financialSettlements, reference, source)
            case WALLET_PROJECTION_MISMATCH => FromLast(e.walletProjections, e.walletSnapshots, reference, source)
            case DEPOSIT_CREDIT_MISMATCH => FromLast(e.applicationDeposits, e.financialDeposits, reference, source)
            case WITHDRAWAL_STATE_MISMATCH =>
              FromLast(e.applicationWithdrawals, e.financialWithdrawals, reference, source)
            case TRANSFER_STATE_MISMATCH => FromLast(e.applicationTransfers, e.financialTransfers, reference, source)
            case AUDIT_GAP =>
              var operation := Latest(operations, reference);
              if operation.Some? && (|| Unaudited(operation.value, e.audits, reference)
                                     || Unsent(operation.value, e.outbox, reference))
              then source == Some(FromRow(operation.value))
              else FromFirst(e.receivedEvents, Gaps(e.inbox, reference), source)
  {
    ExpectedIffViolates(e, m, Flag(violation, reference));
    FirstIsLeast(e.reservations, Orphans(e.applicationOperations, reference));
    FirstIsLeast(e.reservations, Leaks(e.applicationOperations, m, reference));
    FirstIsLeast(e.receivedEvents, Gaps(e.inbox, reference));
    var operation := Latest(e.applicationOperations, reference);
    if operation.Some? {
      UnauditedMeans(operation.value, e.audits, reference);
      UnsentMeans(e.outbox, reference);
    }
  }
}
