/** Exactly when the order of application operations can matter to reconcile_financial_boundary
    (FX/financial_boundary/reconciliation.py). */
module OperationOrder {
  import opened Values
  import opened Ordering
  import opened Evidence
  import opened Permutations

  /** Both raise, or neither does and they have the same violations. */
  ghost predicate SameFindings(e: Bundle, p: Bundle, m: Moment) {
    && (Malformed(e, m) <==> Malformed(p, m))
    && (!Malformed(e, m) ==>
          forall violation, reference :: Violates(e, m, violation, reference) <==> Violates(p, m, violation, reference))
  }

  /** Whatever else the evidence holds, reordering the operations changes nothing. */
  ghost predicate OrderNeverTells(operations: seq<Row>) {
    forall permuted, e: Bundle, m | Reordered(operations, permuted) ::
      SameFindings(e.(applicationOperations := operations), e.(applicationOperations := permuted), m)
  }

  /** No order of the operations can be compared: a row has no reference, or all rows of a reference have an audit
      action that cannot be looked up. */
  ghost predicate AlwaysRaises(operations: seq<Row>) {
    || Unreferenced(operations)
    || exists row :: row in operations && NoneUsable(operations, RefOf(row))
  }

  predicate NoneUsable(operations: seq<Row>, reference: string) {
    forall row | row in operations && RefOf(row) == reference :: UnusableAction(row)
  }

  // ---------------------------------------------------------------------------------------------
  // Enough
  // ---------------------------------------------------------------------------------------------

  lemma AlwaysRaisesInAnyOrder(operations: seq<Row>, permuted: seq<Row>, e: Bundle, m: Moment)
    requires AlwaysRaises(operations) && Reordered(operations, permuted)
    ensures Malformed(e.(applicationOperations := permuted), m)
  {
    if Unreferenced(operations) {
      UnreferencedUnderPermutation(operations, permuted);
    } else {
      var row :| row in operations && NoneUsable(operations, RefOf(row));
      SameMembers(operations, permuted);
      LatestIsMember(permuted, RefOf(row));
    }
  }

  lemma AlikeNeverTells(operations: seq<Row>, permuted: seq<Row>, e: Bundle, m: Moment)
    requires AllAlike(operations) && Reordered(operations, permuted)
    ensures SameFindings(e.(applicationOperations := operations), e.(applicationOperations := permuted), m)
  {
    var left, right := e.(applicationOperations := operations), e.(applicationOperations := permuted);
    ErrorsUnderPermutation(left, right, m);
    forall violation, reference
      ensures Violates(left, m, violation, reference) <==> Violates(right, m, violation, reference)
    {
      OperationViolations(left, right, m, violation, reference);
    }
  }

  /** Only the operations differ, so the compared sections need no condition. */
  lemma OperationViolations(e: Bundle, p: Bundle, m: Moment, violation: Violation, reference: string)
    requires AllAlike(e.applicationOperations) && Reordered(e.applicationOperations, p.applicationOperations)
    requires p == e.(applicationOperations := p.applicationOperations)
    ensures Violates(e, m, violation, reference) <==> Violates(p, m, violation, reference)
  {
    match violation
    case MISSING_FINANCIAL_OPERATION =>
      MissingWhenAlike(e, p, reference);
    case ORPHAN_RESERVATION =>
      OwnersUnderPermutation(e.applicationOperations, p.applicationOperations, m);
    case RESERVATION_LEAK =>
      OwnersUnderPermutation(e.applicationOperations, p.applicationOperations, m);
    case AUDIT_GAP =>
      LatestAlike(e.applicationOperations, p.applicationOperations, reference);
      var left, right := Latest(e.applicationOperations, reference), Latest(p.applicationOperations, reference);
      if left.Some? {
        GapWhenAlike(e, p, left.value, right.value, reference);
      }
    case _ =>
  }

  // ---------------------------------------------------------------------------------------------
  // Arranging operations
  // ---------------------------------------------------------------------------------------------

  lemma {:induction false} RowsOfConcat(left: seq<Row>, right: seq<Row>, reference: string)
    ensures RowsOf(left + right, reference) == RowsOf(left, reference) + RowsOf(right, reference)
  {
    if right == [] {
      assert left + right == left;
    } else {
      var n := |right| - 1;
      RowsOfConcat(left, right[..n], reference);
      assert (left + right)[..|left| + n] == left + right[..n];
    }
  }

  lemma LatestConcat(left: seq<Row>, right: seq<Row>, reference: string)
    ensures Latest(left + right, reference) ==
            if Latest(right, reference).Some? then Latest(right, reference) else Latest(left, reference)
  {
    RowsOfConcat(left, right, reference);
  }

  /** The operations whose audit action can, or cannot, be looked up. */
  function Part(operations: seq<Row>, usable: bool): seq<Row> {
    if operations == [] then []
    else
      var last := operations[|operations| - 1];
      Part(operations[..|operations| - 1], usable) + if UnusableAction(last) != usable then [last] else []
  }

  lemma {:induction false} PartsMakeAll(operations: seq<Row>)
    ensures multiset(Part(operations, false) + Part(operations, true)) == multiset(operations)
    ensures forall row :: row in Part(operations, true) <==> row in operations && !UnusableAction(row)
  {
    if operations != [] {
      var n := |operations| - 1;
      PartsMakeAll(operations[..n]);
      assert operations == operations[..n] + [operations[n]];
    }
  }

  /** The row is the last of its reference, and no other reference ends in an unusable row. */
  ghost predicate Arranged(operations: seq<Row>, row: Row) {
    && !Unreferenced(operations)
    && Latest(operations, RefOf(row)) == Some(row)
    && (forall reference | reference != RefOf(row) && Latest(operations, reference).Some? ::
          !UnusableAction(Latest(operations, reference).value))
  }

  lemma Arrange(operations: seq<Row>, row: Row) returns (arranged: seq<Row>)
    requires !AlwaysRaises(operations) && row in operations
    ensures Reordered(operations, arranged) && Arranged(arranged, row)
  {
    var left, right := Part(operations, false), Part(operations, true);
    var usableLast := left + right;
    PartsMakeAll(operations);
    SameMembers(operations, usableLast);
    arranged := MoveLast(usableLast, row);
    UnreferencedUnderPermutation(operations, arranged);
    forall reference | reference != RefOf(row) && Latest(arranged, reference).Some?
      ensures !UnusableAction(Latest(arranged, reference).value)
    {
      UsableIsLast(operations, reference);
    }
  }

  lemma MoveLast(rows: seq<Row>, row: Row) returns (moved: seq<Row>)
    requires row in rows
    ensures Reordered(rows, moved) && Latest(moved, RefOf(row)) == Some(row)
    ensures forall reference | reference != RefOf(row) :: Latest(moved, reference) == Latest(rows, reference)
  {
    var i :| 0 <= i < |rows| && rows[i] == row;
    var rest := rows[..i] + rows[i + 1..];
    moved := rest + [row];
    Without(rows, i);
    assert multiset(moved) == multiset(rest) + multiset{row};
    forall reference | reference != RefOf(row) ensures Latest(moved, reference) == Latest(rows, reference) {
      LatestOfOthers(rows, i, reference);
    }
  }

  lemma LatestOfOthers(rows: seq<Row>, i: nat, reference: string)
    requires i < |rows| && RefOf(rows[i]) != reference
    ensures Latest(rows[..i] + rows[i + 1..] + [rows[i]], reference) == Latest(rows, reference)
  {
    var row := rows[i];
    assert rows == rows[..i] + ([row] + rows[i + 1..]);
    assert [row][..0] == [];
    assert RowsOf([row], reference) == [];
    RowsOfConcat(rows[..i], [row] + rows[i + 1..], reference);
    RowsOfConcat([row], rows[i + 1..], reference);
    RowsOfConcat(rows[..i], rows[i + 1..], reference);
    RowsOfConcat(rows[..i] + rows[i + 1..], [row], reference);
  }

  lemma UsableIsLast(operations: seq<Row>, reference: string)
    requires !AlwaysRaises(operations)
    requires Latest(Part(operations, false) + Part(operations, true), reference).Some?
    ensures !UnusableAction(Latest(Part(operations, false) + Part(operations, true), reference).value)
  {
    var left, right := Part(operations, false), Part(operations, true);
    PartsMakeAll(operations);
    SameMembers(operations, left + right);
    LatestIsMember(left + right, reference);
    var some := Latest(left + right, reference).value;
    assert !NoneUsable(operations, RefOf(some));
    var row :| row in operations && RefOf(row) == reference && !UnusableAction(row);
    LatestIsMember(right, reference);
    LatestConcat(left, right, reference);
  }

  // ---------------------------------------------------------------------------------------------
  // Evidence that tells two operations apart
  // ---------------------------------------------------------------------------------------------

  /** Nothing but operations and what is used to tell them apart. */
  function Probe(operations: seq<Row>, reservations: seq<Row>, outbox: seq<Row>, audits: seq<Row>): Bundle {
    Bundle(operations, [], reservations, [], [], [], [], [], [], [], [], [], [], outbox, [], [], audits)
  }

  const NOW := Moment(0, (text: string) => None)

  lemma ProbeRaises(operations: seq<Row>, row: Row, reservations: seq<Row>, outbox: seq<Row>, audits: seq<Row>)
    requires Arranged(operations, row) && (forall audit | audit in audits :: Hashable(Get(audit, ACTION)))
    ensures Malformed(Probe(operations, reservations, outbox, audits), NOW) <==>
            UnusableAction(row) || exists r :: r in reservations && Unusable(operations, r, NOW)
  {
    var e := Probe(operations, reservations, outbox, audits);
    assert !MalformedDomains(e);
    assert MalformedActions(e) <==> UnusableAction(row) by {
      assert UnusableAction(row) ==> Latest(e.applicationOperations, RefOf(row)).Some?;
    }
  }

  /** Some evidence tells the two arrangements apart. */
  ghost predicate Told(left: seq<Row>, right: seq<Row>) {
    exists e: Bundle, m ::
      !SameFindings(e.(applicationOperations := left), e.(applicationOperations := right), m)
  }

  lemma ToldBy(left: seq<Row>, right: seq<Row>, reservations: seq<Row>, outbox: seq<Row>, audits: seq<Row>)
    requires !SameFindings(Probe(left, reservations, outbox, audits), Probe(right, reservations, outbox, audits), NOW)
    ensures Told(left, right)
  {
    var e := Probe(left, reservations, outbox, audits);
    assert e.(applicationOperations := left) == e;
    assert e.(applicationOperations := right) == Probe(right, reservations, outbox, audits);
  }

  /** Arrangements that end a reference in one row and in the other. */
  ghost predicate Ends(left: seq<Row>, right: seq<Row>, row: Row, other: Row) {
    Arranged(left, row) && Arranged(right, other) && RefOf(row) == RefOf(other)
  }

  lemma ActionUseTells(left: seq<Row>, right: seq<Row>, row: Row, other: Row)
    requires Ends(left, right, row, other) && UnusableAction(row) != UnusableAction(other)
    ensures Told(left, right)
  {
    ProbeRaises(left, row, [], [], []);
    ProbeRaises(right, other, [], [], []);
    ToldBy(left, right, [], [], []);
  }

  lemma NeedTells(left: seq<Row>, right: seq<Row>, row: Row, other: Row)
    requires Ends(left, right, row, other) && !UnusableAction(row) && !UnusableAction(other)
    requires NeedsFinancialOperation(row) != NeedsFinancialOperation(other)
    ensures Told(left, right)
  {
    ProbeRaises(left, row, [], [], []);
    ProbeRaises(right, other, [], [], []);
    var e, p := Probe(left, [], [], []), Probe(right, [], [], []);
    assert Violates(e, NOW, MISSING_FINANCIAL_OPERATION, RefOf(row)) !=
           Violates(p, NOW, MISSING_FINANCIAL_OPERATION, RefOf(row));
    ToldBy(left, right, [], [], []);
  }

  /** A reservation for an operation. */
  function Reservation(reference: string, tenant: Meaning, state: Meaning): Row {
    map[REFERENCE := Datum(Text(reference), reference), ORDER_REF := Datum(Text(reference), reference),
        TENANT_REF := Datum(tenant, []), STATE := Datum(state, [])]
  }

  lemma OwnerOfReservation(operations: seq<Row>, row: Row, tenant: Meaning, state: Meaning)
    requires Arranged(operations, row)
    ensures OwnerOf(operations, Reservation(RefOf(row), tenant, state)) == Some(row)
    ensures RefOf(Reservation(RefOf(row), tenant, state)) == RefOf(row)
  {
  }

  lemma TenantTells(left: seq<Row>, right: seq<Row>, row: Row, other: Row)
    requires Ends(left, right, row, other) && !UnusableAction(row) && !UnusableAction(other)
    requires Get(row, TENANT_REF) != Get(other, TENANT_REF) && Truthy(Get(row, TENANT_REF))
    ensures Told(left, right)
  {
    var reservation := Reservation(RefOf(row), Get(row, TENANT_REF), Null);
    OwnerOfReservation(left, row, Get(row, TENANT_REF), Null);
    OwnerOfReservation(right, other, Get(row, TENANT_REF), Null);
    assert !Unusable(left, reservation, NOW) && !Unusable(right, reservation, NOW);
    ProbeRaises(left, row, [reservation], [], []);
    ProbeRaises(right, other, [reservation], [], []);
    assert !Orphaned(left, reservation) && Orphaned(right, reservation);
    var e, p := Probe(left, [reservation], [], []), Probe(right, [reservation], [], []);
    assert reservation in p.reservations;
    assert !Violates(e, NOW, ORPHAN_RESERVATION, RefOf(row)) && Violates(p, NOW, ORPHAN_RESERVATION, RefOf(row));
    ToldBy(left, right, [reservation], [], []);
  }

  const HELD := Text("ACTIVE")

  lemma StateTells(left: seq<Row>, right: seq<Row>, row: Row, other: Row)
    requires Ends(left, right, row, other) && !UnusableAction(row) && !UnusableAction(other)
    requires Hashable(Get(row, STATE)) != Hashable(Get(other, STATE)) ||
             Terminal(Get(row, STATE)) != Terminal(Get(other, STATE))
    ensures Told(left, right)
  {
    var reservation := Reservation(RefOf(row), Null, HELD);
    OwnerOfReservation(left, row, Null, HELD);
    OwnerOfReservation(right, other, Null, HELD);
    HeldReservation(left, row);
    HeldReservation(right, other);
    ProbeRaises(left, row, [reservation], [], []);
    ProbeRaises(right, other, [reservation], [], []);
    var e, p := Probe(left, [reservation], [], []), Probe(right, [reservation], [], []);
    assert reservation in [reservation];
    if Hashable(Get(row, STATE)) && Hashable(Get(other, STATE)) {
      assert Violates(e, NOW, RESERVATION_LEAK, RefOf(row)) <==> Leaked(left, reservation, NOW);
      assert Violates(p, NOW, RESERVATION_LEAK, RefOf(row)) <==> Leaked(right, reservation, NOW);
    }
    ToldBy(left, right, [reservation], [], []);
  }

  lemma HeldReservation(operations: seq<Row>, row: Row)
    requires Arranged(operations, row)
    ensures var reservation := Reservation(RefOf(row), Null, HELD);
            && (Unusable(operations, reservation, NOW) <==> !Hashable(Get(row, STATE)))
            && (Leaked(operations, reservation, NOW) <==> Terminal(Get(row, STATE)))
  {
    OwnerOfReservation(operations, row, Null, HELD);
    assert Active(HELD);
  }

  /** An outbox row, or an audit of an action, for a reference. */
  function SentRow(reference: string): Row {
    map[REFERENCE := Datum(Text(reference), reference)]
  }

  function AuditRow(reference: string, action: Meaning): Row {
    map[REFERENCE := Datum(Text(reference), reference), ACTION := Datum(action, [])]
  }

  lemma Recorded(reference: string, action: Meaning, asked: Meaning)
    ensures Sent([SentRow(reference)], reference) && !Sent([], reference)
    ensures Audited([AuditRow(reference, action)], reference, asked) <==> action == asked
    ensures !Audited([], reference, asked)
  {
    assert SentRow(reference) in [SentRow(reference)];
    assert AuditRow(reference, action) in [AuditRow(reference, action)];
  }

  lemma GapIsOperationGap(operations: seq<Row>, row: Row, outbox: seq<Row>, audits: seq<Row>)
    requires Arranged(operations, row)
    ensures Violates(Probe(operations, [], outbox, audits), NOW, AUDIT_GAP, RefOf(row)) <==>
            OperationGap(row, audits, outbox, RefOf(row))
  {
  }

  lemma ActionTells(left: seq<Row>, right: seq<Row>, row: Row, other: Row)
    requires Ends(left, right, row, other) && !UnusableAction(row) && !UnusableAction(other)
    requires Get(row, AUDIT_ACTION) != Get(other, AUDIT_ACTION) && Truthy(Get(row, AUDIT_ACTION))
    ensures Told(left, right)
  {
    var reference, action := RefOf(row), Get(row, AUDIT_ACTION);
    var outbox := [SentRow(reference)];
    var audits := if Truthy(Get(other, AUDIT_ACTION)) then [AuditRow(reference, action)] else [];
    Recorded(reference, action, action);
    Recorded(reference, action, Get(other, AUDIT_ACTION));
    ProbeRaises(left, row, [], outbox, audits);
    ProbeRaises(right, other, [], outbox, audits);
    GapIsOperationGap(left, row, outbox, audits);
    GapIsOperationGap(right, other, outbox, audits);
    ToldBy(left, right, [], outbox, audits);
  }

  lemma OutboxTells(left: seq<Row>, right: seq<Row>, row: Row, other: Row)
    requires Ends(left, right, row, other) && !UnusableAction(row) && !UnusableAction(other)
    requires Truthy(Get(row, OUTBOX_REQUIRED)) != Truthy(Get(other, OUTBOX_REQUIRED))
    requires Get(row, AUDIT_ACTION) == Get(other, AUDIT_ACTION) ||
             BothFalsy(Get(row, AUDIT_ACTION), Get(other, AUDIT_ACTION))
    ensures Told(left, right)
  {
    var reference, action := RefOf(row), Get(row, AUDIT_ACTION);
    var audits := if Truthy(action) then [AuditRow(reference, action)] else [];
    Recorded(reference, action, action);
    ProbeRaises(left, row, [], [], audits);
    ProbeRaises(right, other, [], [], audits);
    GapIsOperationGap(left, row, [], audits);
    GapIsOperationGap(right, other, [], audits);
    ToldBy(left, right, [], [], audits);
  }

  lemma ToldIsSymmetric(left: seq<Row>, right: seq<Row>)
    requires Told(left, right)
    ensures Told(right, left)
  {
    var e: Bundle, m :| !SameFindings(e.(applicationOperations := left), e.(applicationOperations := right), m);
    assert !SameFindings(e.(applicationOperations := right), e.(applicationOperations := left), m);
  }

  /** Any difference between two operations of one reference can be told. */
  lemma DifferenceTells(left: seq<Row>, right: seq<Row>, row: Row, other: Row)
    requires Ends(left, right, row, other) && !(UnusableAction(row) && UnusableAction(other)) && !Alike(row, other)
    ensures Told(left, right)
  {
    if UnusableAction(row) != UnusableAction(other) {
      ActionUseTells(left, right, row, other);
    } else if NeedsFinancialOperation(row) != NeedsFinancialOperation(other) {
      NeedTells(left, right, row, other);
    } else if Hashable(Get(row, STATE)) != Hashable(Get(other, STATE)) ||
              Terminal(Get(row, STATE)) != Terminal(Get(other, STATE)) {
      StateTells(left, right, row, other);
    } else if Get(row, TENANT_REF) != Get(other, TENANT_REF) && Truthy(Get(row, TENANT_REF)) {
      TenantTells(left, right, row, other);
    } else if Get(row, TENANT_REF) != Get(other, TENANT_REF) && Truthy(Get(other, TENANT_REF)) {
      TenantTells(right, left, other, row);
      ToldIsSymmetric(right, left);
    } else if Get(row, AUDIT_ACTION) != Get(other, AUDIT_ACTION) && Truthy(Get(row, AUDIT_ACTION)) {
      ActionTells(left, right, row, other);
    } else if Get(row, AUDIT_ACTION) != Get(other, AUDIT_ACTION) && Truthy(Get(other, AUDIT_ACTION)) {
      ActionTells(right, left, other, row);
      ToldIsSymmetric(right, left);
    } else {
      OutboxTells(left, right, row, other);
    }
  }

  lemma ToldOrdersDiffer(operations: seq<Row>, left: seq<Row>, right: seq<Row>)
    requires Reordered(operations, left) && Reordered(operations, right) && Told(left, right)
    ensures !OrderNeverTells(operations)
  {
    var e: Bundle, m :| !SameFindings(e.(applicationOperations := left), e.(applicationOperations := right), m);
    var o := e.(applicationOperations := operations);
    var l, r := e.(applicationOperations := left), e.(applicationOperations := right);
    assert !(SameFindings(o, l, m) && SameFindings(o, r, m));
  }

  /** Reordering the operations changes nothing, whatever else the evidence holds, if and only if operations that share
      a reference are alike, or no order of them can be compared at all. */
  lemma OrderNeverTellsIff(operations: seq<Row>)
    ensures OrderNeverTells(operations) <==> AlwaysRaises(operations) || AllAlike(operations)
  {
    if AlwaysRaises(operations) {
      forall permuted, e: Bundle, m | Reordered(operations, permuted)
        ensures SameFindings(e.(applicationOperations := operations), e.(applicationOperations := permuted), m)
      {
        AlwaysRaisesInAnyOrder(operations, operations, e, m);
        AlwaysRaisesInAnyOrder(operations, permuted, e, m);
      }
    } else if AllAlike(operations) {
      forall permuted, e: Bundle, m | Reordered(operations, permuted)
        ensures SameFindings(e.(applicationOperations := operations), e.(applicationOperations := permuted), m)
      {
        AlikeNeverTells(operations, permuted, e, m);
      }
    } else {
      var row, other := TellingPair(operations);
      var left := Arrange(operations, row);
      var right := Arrange(operations, other);
      DifferenceTells(left, right, row, other);
      ToldOrdersDiffer(operations, left, right);
    }
  }

  /** Two operations of one reference that differ, not both unusable. */
  lemma TellingPair(operations: seq<Row>) returns (row: Row, other: Row)
    requires !AlwaysRaises(operations) && !AllAlike(operations)
    ensures row in operations && other in operations && RefOf(row) == RefOf(other)
    ensures !Alike(row, other) && !(UnusableAction(row) && UnusableAction(other))
  {
    row, other :| row in operations && other in operations && RefOf(row) == RefOf(other) && !Alike(row, other);
    if UnusableAction(row) && UnusableAction(other) {
      assert !NoneUsable(operations, RefOf(row));
      other :| other in operations && RefOf(other) == RefOf(row) && !UnusableAction(other);
    }
  }
}
