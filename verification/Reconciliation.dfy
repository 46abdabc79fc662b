/** The comparison itself, FX/financial_boundary/reconciliation.py: loops over dictionaries that fill `findings`,
    proved to report exactly the violations that module Evidence defines. */
module Reconciliation {
  import opened Values
  import opened Ordering
  import opened Evidence

  /** What a finding is hashed from. */
  datatype Source =
    | FromRow(row: Row)
    | FromRows(rows: seq<Row>)
    | FromPair(application: Option<Row>, financial: Option<Row>)

  datatype Flag = Flag(violation: Violation, reference: string)

  datatype Finding = Finding(key: Flag, source: Source)

  type Found = map<Flag, Source>

  function Look(found: Found, key: Flag): Option<Source> {
    if key in found then Some(found[key]) else None
  }

  /** The closure `add`: the first source of a key stays. */
  function Added(found: Found, key: Flag, source: Source): Found {
    if key in found then found else found[key := source]
  }

  // ---------------------------------------------------------------------------------------------
  // What is found for every key
  // ---------------------------------------------------------------------------------------------

  /** What the loops over reservations and over received events look for. */
  datatype Search =
    | Orphans(operations: seq<Row>, reference: string)
    | Leaks(operations: seq<Row>, m: Moment, reference: string)
    | Gaps(inbox: seq<Row>, reference: string)

  ghost predicate Hit(search: Search, row: Row) {
    match search
    case Orphans(operations, reference) => RefOf(row) == reference && Orphaned(operations, row)
    case Leaks(operations, m, reference) => RefOf(row) == reference && Leaked(operations, row, m)
    case Gaps(inbox, reference) => EventReference(row) == reference && EventGap(row, inbox)
  }

  ghost function First(rows: seq<Row>, search: Search): Option<Source> {
    if rows == [] then None
    else
      var found := First(rows[..|rows| - 1], search);
      if found.Some? then found
      else if Hit(search, rows[|rows| - 1]) then Some(FromRow(rows[|rows| - 1]))
      else None
  }

  ghost function MissingAt(e: Bundle, reference: string): Option<Source> {
    if Missing(e.applicationOperations, e.financialOperations, reference)
    then Some(FromRow(Latest(e.applicationOperations, reference).value)) else None
  }

  ghost function DuplicateAt(financial: seq<Row>, reference: string): Option<Source> {
    if Duplicated(financial, reference) then Some(FromRows(RowsOf(financial, reference))) else None
  }

  function MismatchAt(application: seq<Row>, financial: seq<Row>, fields: seq<Field>, reference: string)
    : Option<Source>
  {
    if Mismatched(application, financial, fields, reference)
    then Some(FromPair(Latest(application, reference), Latest(financial, reference))) else None
  }

  function OperationGapAt(operations: seq<Row>, audits: seq<Row>, outbox: seq<Row>, reference: string): Option<Source>
  {
    match Latest(operations, reference)
    case None => None
    case Some(operation) =>
      if OperationGap(operation, audits, outbox, reference) then Some(FromRow(operation)) else None
  }

  ghost function GapAt(e: Bundle, reference: string): Option<Source> {
    var gap := OperationGapAt(e.applicationOperations, e.audits, e.outbox, reference);
    if gap.Some? then gap else First(e.receivedEvents, Gaps(e.inbox, reference))
  }

  /** The source that the comparison records for a key, if it records one. */
  ghost function Expected(e: Bundle, m: Moment, key: Flag): Option<Source> {
    match key.violation
    case MISSING_FINANCIAL_OPERATION => MissingAt(e, key.reference)
    case DUPLICATE_FINANCIAL_EFFECT => DuplicateAt(e.financialOperations, key.reference)
    case ORPHAN_RESERVATION => First(e.reservations, Orphans(e.applicationOperations, key.reference))
    case RESERVATION_LEAK => First(e.reservations, Leaks(e.applicationOperations, m, key.reference))
    case SETTLEMENT_MISMATCH =>
      MismatchAt(e.applicationSettlements, e.financialSettlements, FieldsFor(key.violation), key.reference)
    case WALLET_PROJECTION_MISMATCH =>
      MismatchAt(e.walletProjections, e.walletSnapshots, FieldsFor(key.violation), key.reference)
    case DEPOSIT_CREDIT_MISMATCH =>
      MismatchAt(e.applicationDeposits, e.financialDeposits, FieldsFor(key.violation), key.reference)
    case WITHDRAWAL_STATE_MISMATCH =>
      MismatchAt(e.applicationWithdrawals, e.financialWithdrawals, FieldsFor(key.violation), key.reference)
    case TRANSFER_STATE_MISMATCH =>
      MismatchAt(e.applicationTransfers, e.financialTransfers, FieldsFor(key.violation), key.reference)
    case AUDIT_GAP => GapAt(e, key.reference)
  }

  /** `i` is the first position that is hit. */
  ghost predicate LeastHit(rows: seq<Row>, search: Search, i: int) {
    0 <= i < |rows| && Hit(search, rows[i]) && forall j | 0 <= j < i :: !Hit(search, rows[j])
  }

  lemma {:induction false} FirstPosition(rows: seq<Row>, search: Search) returns (i: int)
    ensures First(rows, search).Some? ==> LeastHit(rows, search, i) && First(rows, search) == Some(FromRow(rows[i]))
    ensures First(rows, search).None? ==> forall j | 0 <= j < |rows| :: !Hit(search, rows[j])
  {
    i := 0;
    if rows != [] {
      var front := rows[..|rows| - 1];
      i := FirstPosition(front, search);
      assert forall j | 0 <= j < |front| :: front[j] == rows[j];
      if First(front, search).None? {
        i := |front|;
      }
    }
  }

  /** First finds a row exactly when there is one, and it is the one at the least position. */
  lemma FirstIsLeast(rows: seq<Row>, search: Search)
    ensures First(rows, search).Some? <==> exists row :: row in rows && Hit(search, row)
    ensures First(rows, search).Some? ==>
              exists i :: LeastHit(rows, search, i) && First(rows, search) == Some(FromRow(rows[i]))
  {
    var i := FirstPosition(rows, search);
    if First(rows, search).Some? {
      assert rows[i] in rows;
    }
  }

  /** Something is recorded for a key exactly when the reference is in violation. */
  lemma ExpectedIffViolates(e: Bundle, m: Moment, key: Flag)
    ensures Expected(e, m, key).Some? <==> Violates(e, m, key.violation, key.reference)
  {
    match key.violation
    case ORPHAN_RESERVATION =>
      var search := Orphans(e.applicationOperations, key.reference);
      FirstIsLeast(e.reservations, search);
      assert forall row :: Hit(search, row) <==> RefOf(row) == key.reference && Orphaned(e.applicationOperations, row);
    case RESERVATION_LEAK =>
      var search := Leaks(e.applicationOperations, m, key.reference);
      FirstIsLeast(e.reservations, search);
      assert forall row :: Hit(search, row) <==> RefOf(row) == key.reference && Leaked(e.applicationOperations, row, m);
    case AUDIT_GAP =>
      var search := Gaps(e.inbox, key.reference);
      FirstIsLeast(e.receivedEvents, search);
      assert forall row :: Hit(search, row) <==> EventReference(row) == key.reference && EventGap(row, e.inbox);
    case _ =>
  }

  // ---------------------------------------------------------------------------------------------
  // Indexes
  // ---------------------------------------------------------------------------------------------

  ghost predicate Grouped(groups: map<string, seq<Row>>, rows: seq<Row>) {
    && (forall reference :: reference in groups <==> RowsOf(rows, reference) != [])
    && (forall reference | reference in groups :: groups[reference] == RowsOf(rows, reference))
  }

  ghost predicate Indexes(index: map<string, Row>, rows: seq<Row>) {
    && (forall reference :: reference in index <==> Latest(rows, reference).Some?)
    && (forall reference | reference in index :: index[reference] == Latest(rows, reference).value)
  }

  /** `setdefault(reference, []).append(row)`. */
  function WithRow(groups: map<string, seq<Row>>, row: Row): map<string, seq<Row>> {
    groups[RefOf(row) := (if RefOf(row) in groups then groups[RefOf(row)] else []) + [row]]
  }

  ghost function GroupsOf(rows: seq<Row>): map<string, seq<Row>> {
    if rows == [] then map[] else WithRow(GroupsOf(rows[..|rows| - 1]), rows[|rows| - 1])
  }

  lemma {:induction false} GroupsOfIsGrouped(rows: seq<Row>)
    ensures Grouped(GroupsOf(rows), rows)
  {
    if rows != [] {
      var front, last := rows[..|rows| - 1], rows[|rows| - 1];
      GroupsOfIsGrouped(front);
      assert rows == front + [last];
    }
  }

  /** `_groups`. */
  method Groups(rows: seq<Row>) returns (r: Option<map<string, seq<Row>>>)
    ensures r.None? <==> Unreferenced(rows)
    ensures r.Some? ==> Grouped(r.value, rows)
  {
    var groups := map[];
    ghost var seen: seq<Row> := [];
    for i := 0 to |rows|
      invariant seen == rows[..i]
      invariant forall j | 0 <= j < i :: RefOf(rows[j]) != ""
      invariant groups == GroupsOf(seen)
    {
      if RefOf(rows[i]) == "" {
        return None;
      }
      groups := WithRow(groups, rows[i]);
      seen := seen + [rows[i]];
      assert seen[..i] == rows[..i];
    }
    assert seen == rows;
    GroupsOfIsGrouped(rows);
    return Some(groups);
  }

  /** `_single_index`. */
  method SingleIndex(rows: seq<Row>) returns (r: Option<map<string, Row>>)
    ensures r.None? <==> Unreferenced(rows)
    ensures r.Some? ==> Indexes(r.value, rows)
  {
    var groups := Groups(rows);
    if groups.None? {
      return None;
    }
    return Some(LastRows(groups.value));
  }

  function LastRows(groups: map<string, seq<Row>>): map<string, Row>
    requires forall reference | reference in groups :: groups[reference] != []
  {
    map reference | reference in groups :: groups[reference][|groups[reference]| - 1]
  }

  // ---------------------------------------------------------------------------------------------
  // Operations
  // ---------------------------------------------------------------------------------------------

  ghost predicate Fresh(found: Found, violation: Violation) {
    forall key | key in found :: key.violation != violation
  }

  method FlagMissing(before: Found, operations: map<string, Row>, financial: map<string, seq<Row>>, ghost e: Bundle)
    returns (found: Found)
    requires Indexes(operations, e.applicationOperations) && Grouped(financial, e.financialOperations)
    requires Fresh(before, MISSING_FINANCIAL_OPERATION)
    ensures forall key :: Look(found, key) ==
              if key.violation == MISSING_FINANCIAL_OPERATION then MissingAt(e, key.reference) else Look(before, key)
  {
    found := before;
    var rest := operations.Keys;
    while rest != {}
      invariant rest <= operations.Keys
      invariant forall key :: Look(found, key) ==
                  if key.violation == MISSING_FINANCIAL_OPERATION
                  then (if key.reference in operations && key.reference !in rest then MissingAt(e, key.reference)
                        else None)
                  else Look(before, key)
    {
      var reference :| reference in rest;
      LatestIsMember(e.financialOperations, reference);
      if NeedsFinancialOperation(operations[reference]) && reference !in financial {
        found := Added(found, Flag(MISSING_FINANCIAL_OPERATION, reference), FromRow(operations[reference]));
      }
      rest := rest - {reference};
    }
  }

  /** Counter over the truthy effect ids. */
  ghost function Effects(rows: seq<Row>): multiset<string> {
    if rows == [] then multiset{}
    else
      var effect := EffectOf(rows[|rows| - 1]);
      Effects(rows[..|rows| - 1]) + if effect.Some? then multiset{effect.value} else multiset{}
  }

  method CountEffects(rows: seq<Row>) returns (counts: multiset<string>)
    ensures counts == Effects(rows)
  {
    counts := multiset{};
    for i := 0 to |rows|
      invariant counts == Effects(rows[..i])
    {
      assert rows[..i + 1][..i] == rows[..i];
      var effect := EffectOf(rows[i]);
      if effect.Some? {
        counts := counts + multiset{effect.value};
      }
    }
    assert rows[..|rows|] == rows;
  }

  ghost function EffectColumn(rows: seq<Row>): seq<Option<string>> {
    seq(|rows|, i requires 0 <= i < |rows| => EffectOf(rows[i]))
  }

  ghost function ReferenceColumn(rows: seq<Row>): seq<string> {
    seq(|rows|, i requires 0 <= i < |rows| => RefOf(rows[i]))
  }

  lemma {:induction false} EffectsCountColumn(rows: seq<Row>, effect: string)
    ensures Effects(rows)[effect] == multiset(EffectColumn(rows))[Some(effect)]
  {
    if rows != [] {
      var n := |rows| - 1;
      EffectsCountColumn(rows[..n], effect);
      assert EffectColumn(rows) == EffectColumn(rows[..n]) + [EffectOf(rows[n])];
    }
  }

  lemma {:induction false} RowsCountColumn(rows: seq<Row>, reference: string)
    ensures |RowsOf(rows, reference)| == multiset(ReferenceColumn(rows))[reference]
  {
    if rows != [] {
      var n := |rows| - 1;
      RowsCountColumn(rows[..n], reference);
      assert ReferenceColumn(rows) == ReferenceColumn(rows[..n]) + [RefOf(rows[n])];
    }
  }

  lemma EffectCounted(rows: seq<Row>, effect: string)
    ensures Effects(rows)[effect] >= 2 <==>
            exists i, j :: 0 <= i < j < |rows| && EffectOf(rows[i]) == Some(effect) && EffectOf(rows[j]) == Some(effect)
  {
    EffectsCountColumn(rows, effect);
    var column := EffectColumn(rows);
    TwiceByCount(column, Some(effect));
    if i, j :| 0 <= i < j < |rows| && EffectOf(rows[i]) == Some(effect) && EffectOf(rows[j]) == Some(effect) {
      assert column[i] == Some(effect) && column[j] == Some(effect);
    }
    if i, j :| 0 <= i < j < |column| && column[i] == Some(effect) && column[j] == Some(effect) {
      assert EffectOf(rows[i]) == Some(effect) && EffectOf(rows[j]) == Some(effect);
    }
  }

  lemma RowsCounted(rows: seq<Row>, reference: string)
    ensures |RowsOf(rows, reference)| >= 2 <==>
            exists i, j :: 0 <= i < j < |rows| && RefOf(rows[i]) == reference && RefOf(rows[j]) == reference
  {
    RowsCountColumn(rows, reference);
    var column := ReferenceColumn(rows);
    TwiceByCount(column, reference);
    if i, j :| 0 <= i < j < |rows| && RefOf(rows[i]) == reference && RefOf(rows[j]) == reference {
      assert column[i] == reference && column[j] == reference;
    }
    if i, j :| 0 <= i < j < |column| && column[i] == reference && column[j] == reference {
      assert RefOf(rows[i]) == reference && RefOf(rows[j]) == reference;
    }
  }

  /** A row of the group whose effect id is counted twice. */
  ghost predicate CountedTwice(group: seq<Row>, counts: multiset<string>) {
    exists row :: row in group && EffectOf(row).Some? && counts[EffectOf(row).value] > 1
  }

  /** Counting finds exactly the references that two positions repeat. */
  lemma DuplicatedByCounts(rows: seq<Row>, reference: string)
    ensures Duplicated(rows, reference) <==>
            |RowsOf(rows, reference)| > 1 || CountedTwice(RowsOf(rows, reference), Effects(rows))
  {
    if i, j :| 0 <= i < |rows| && 0 <= j < |rows| && i != j && Repeats(reference, rows[i], rows[j]) {
      DuplicateIsCounted(rows, reference, i, j);
    }
    if |RowsOf(rows, reference)| > 1 {
      RowsCounted(rows, reference);
      var i, j :| 0 <= i < j < |rows| && RefOf(rows[i]) == reference && RefOf(rows[j]) == reference;
      assert Repeats(reference, rows[i], rows[j]);
    }
    if row :| row in RowsOf(rows, reference) && EffectOf(row).Some? && Effects(rows)[EffectOf(row).value] > 1 {
      var i, j := CountedIsDuplicate(rows, reference, row);
    }
  }

  lemma CountedIsDuplicate(rows: seq<Row>, reference: string, row: Row) returns (k: nat, other: nat)
    requires row in RowsOf(rows, reference) && EffectOf(row).Some? && Effects(rows)[EffectOf(row).value] > 1
    ensures k < |rows| && other < |rows| && k != other && Repeats(reference, rows[k], rows[other])
  {
    RowsOfMembers(rows, reference);
    k :| k < |rows| && rows[k] == row;
    EffectCounted(rows, EffectOf(row).value);
    var i, j :| 0 <= i < j < |rows| && EffectOf(rows[i]) == EffectOf(row) && EffectOf(rows[j]) == EffectOf(row);
    other := if i == k then j else i;
  }

  lemma DuplicateIsCounted(rows: seq<Row>, reference: string, i: nat, j: nat)
    requires i < |rows| && j < |rows| && i != j && Repeats(reference, rows[i], rows[j])
    ensures |RowsOf(rows, reference)| > 1 || CountedTwice(RowsOf(rows, reference), Effects(rows))
  {
    var low, high := if i < j then i else j, if i < j then j else i;
    if RefOf(rows[j]) == reference {
      RowsCounted(rows, reference);
      assert RefOf(rows[low]) == reference && RefOf(rows[high]) == reference;
    } else {
      var effect := EffectOf(rows[i]).value;
      EffectCounted(rows, effect);
      assert EffectOf(rows[low]) == Some(effect) && EffectOf(rows[high]) == Some(effect);
      RowsOfMembers(rows, reference);
      assert rows[i] in RowsOf(rows, reference);
    }
  }

  method AnyCountedTwice(group: seq<Row>, counts: multiset<string>) returns (any: bool)
    ensures any <==> CountedTwice(group, counts)
  {
    for i := 0 to |group|
      invariant forall j | 0 <= j < i :: !(EffectOf(group[j]).Some? && counts[EffectOf(group[j]).value] > 1)
    {
      var effect := EffectOf(group[i]);
      if effect.Some? && counts[effect.value] > 1 {
        assert group[i] in group;
        return true;
      }
    }
    return false;
  }

  method FlagDuplicates(before: Found, groups: map<string, seq<Row>>, financial: seq<Row>) returns (found: Found)
    requires Grouped(groups, financial)
    requires Fresh(before, DUPLICATE_FINANCIAL_EFFECT)
    ensures forall key :: Look(found, key) ==
              if key.violation == DUPLICATE_FINANCIAL_EFFECT then DuplicateAt(financial, key.reference)
              else Look(before, key)
  {
    found := before;
    var counts := CountEffects(financial);
    var rest := groups.Keys;
    while rest != {}
      invariant rest <= groups.Keys
      invariant forall key :: Look(found, key) ==
                  if key.violation == DUPLICATE_FINANCIAL_EFFECT
                  then (if key.reference in groups && key.reference !in rest then DuplicateAt(financial, key.reference)
                        else None)
                  else Look(before, key)
    {
      var reference :| reference in rest;
      DuplicatedByCounts(financial, reference);
      var twice := AnyCountedTwice(groups[reference], counts);
      if |groups[reference]| > 1 || twice {
        found := Added(found, Flag(DUPLICATE_FINANCIAL_EFFECT, reference), FromRows(groups[reference]));
      }
      rest := rest - {reference};
    }
    forall reference | reference !in groups ensures !Duplicated(financial, reference) {
      DuplicatedByCounts(financial, reference);
    }
  }

  // ---------------------------------------------------------------------------------------------
  // Reservations
  // ---------------------------------------------------------------------------------------------

  ghost function ReservationsAt(before: Found, operations: seq<Row>, rows: seq<Row>, m: Moment, key: Flag)
    : Option<Source>
  {
    if key.violation == ORPHAN_RESERVATION then First(rows, Orphans(operations, key.reference))
    else if key.violation == RESERVATION_LEAK then First(rows, Leaks(operations, m, key.reference))
    else Look(before, key)
  }

  function WithReservation(before: Found, operations: seq<Row>, row: Row, m: Moment): Found {
    if Orphaned(operations, row) then Added(before, Flag(ORPHAN_RESERVATION, RefOf(row)), FromRow(row))
    else if Leaked(operations, row, m) then Added(before, Flag(RESERVATION_LEAK, RefOf(row)), FromRow(row))
    else before
  }

  /** One reservation of the loop; None where the source raises. */
  method FlagReservation(before: Found, index: map<string, Row>, row: Row, m: Moment, ghost operations: seq<Row>)
    returns (r: Option<Found>)
    requires Indexes(index, operations)
    ensures r.None? <==> Unusable(operations, row, m)
    ensures r.Some? ==> r.value == WithReservation(before, operations, row, m)
  {
    if REFERENCE !in row {
      return None;
    }
    var orderRef := Spelled(row, ORDER_REF, "");
    if orderRef !in index || OtherTenant(index[orderRef], row) {
      return Some(Added(before, Flag(ORPHAN_RESERVATION, RefOf(row)), FromRow(row)));
    }
    var owner := index[orderRef];
    var expired := false;
    if Truthy(Get(row, EXPIRES_AT)) {
      var parsed := m.parse(Spelled(row, EXPIRES_AT, ""));
      if parsed.None? {
        return None;
      }
      expired := parsed.value <= m.asOf;
    }
    if !Hashable(Get(row, STATE)) {
      return None;
    }
    if Active(Get(row, STATE)) {
      if !expired && !Hashable(Get(owner, STATE)) {
        return None;
      }
      if expired || Terminal(Get(owner, STATE)) {
        return Some(Added(before, Flag(RESERVATION_LEAK, RefOf(row)), FromRow(row)));
      }
    }
    return Some(before);
  }

  method FlagReservations(before: Found, index: map<string, Row>, rows: seq<Row>, m: Moment, ghost operations: seq<Row>)
    returns (r: Option<Found>)
    requires Indexes(index, operations)
    requires Fresh(before, ORPHAN_RESERVATION) && Fresh(before, RESERVATION_LEAK)
    ensures r.None? <==> exists row :: row in rows && Unusable(operations, row, m)
    ensures r.Some? ==> forall key :: Look(r.value, key) == ReservationsAt(before, operations, rows, m, key)
  {
    var found := before;
    for i := 0 to |rows|
      invariant forall j | 0 <= j < i :: !Unusable(operations, rows[j], m)
      invariant forall key :: Look(found, key) == ReservationsAt(before, operations, rows[..i], m, key)
    {
      var next := FlagReservation(found, index, rows[i], m, operations);
      if next.None? {
        return None;
      }
      forall key ensures Look(next.value, key) == ReservationsAt(before, operations, rows[..i + 1], m, key) {
        ReservationStep(found, before, operations, rows[..i], rows[i], m, key);
        assert rows[..i + 1] == rows[..i] + [rows[i]];
      }
      found := next.value;
    }
    assert rows[..|rows|] == rows;
    return Some(found);
  }

  lemma ReservationStep(
    found: Found, before: Found, operations: seq<Row>, rows: seq<Row>, row: Row, m: Moment, key: Flag)
    requires Look(found, key) == ReservationsAt(before, operations, rows, m, key)
    ensures Look(WithReservation(found, operations, row, m), key) ==
            ReservationsAt(before, operations, rows + [row], m, key)
  {
  }

  // ---------------------------------------------------------------------------------------------
  // Domains compared field by field
  // ---------------------------------------------------------------------------------------------

  ghost function DomainAt(
    before: Found, application: seq<Row>, financial: seq<Row>, violation: Violation, fields: seq<Field>, key: Flag)
    : Option<Source>
  {
    if key.violation == violation then MismatchAt(application, financial, fields, key.reference) else Look(before, key)
  }

  /** `compare_domain`, and the same loops over settlements and over wallets. */
  method CompareDomain(
    before: Found, application: seq<Row>, financial: seq<Row>, violation: Violation, fields: seq<Field>)
    returns (r: Option<Found>)
    requires Fresh(before, violation)
    ensures r.None? <==> Unreferenced(application) || Unreferenced(financial)
    ensures r.Some? ==>
              forall key :: Look(r.value, key) == DomainAt(before, application, financial, violation, fields, key)
  {
    var left := SingleIndex(application);
    var right := SingleIndex(financial);
    if left.None? || right.None? {
      return None;
    }
    LexIsTotalOn(left.value.Keys + right.value.Keys);
    var references := SortKeys(left.value.Keys + right.value.Keys, LexLess);
    var found := CompareReferences(
      before, left.value, right.value, references, violation, fields, application, financial);
    return Some(found);
  }

  method CompareReferences(
    before: Found, left: map<string, Row>, right: map<string, Row>, references: seq<string>, violation: Violation,
    fields: seq<Field>, ghost application: seq<Row>, ghost financial: seq<Row>)
    returns (found: Found)
    requires Indexes(left, application) && Indexes(right, financial)
    requires forall reference :: reference in references <==> reference in left || reference in right
    requires Fresh(before, violation)
    ensures forall key :: Look(found, key) == DomainAt(before, application, financial, violation, fields, key)
  {
    found := before;
    ghost var done: set<string> := {};
    for i := 0 to |references|
      invariant forall j | 0 <= j < i :: references[j] in done
      invariant forall key ::
                  Look(found, key) == DomainSoFar(before, application, financial, violation, fields, done, key)
    {
      ghost var was := found;
      found := CompareReference(found, left, right, references[i], violation, fields, application, financial);
      forall key
        ensures Look(found, key) ==
                DomainSoFar(before, application, financial, violation, fields, done + {references[i]}, key)
      {
        DomainStep(was, before, application, financial, violation, fields, done, references[i], key);
      }
      done := done + {references[i]};
    }
    forall reference | reference !in done ensures MismatchAt(application, financial, fields, reference) == None {
      assert reference !in references;
    }
  }

  lemma DomainStep(
    found: Found, before: Found, application: seq<Row>, financial: seq<Row>, violation: Violation, fields: seq<Field>,
    done: set<string>, reference: string, key: Flag)
    requires Look(found, key) == DomainSoFar(before, application, financial, violation, fields, done, key)
    ensures Look(WithMismatch(found, application, financial, violation, fields, reference), key) ==
            DomainSoFar(before, application, financial, violation, fields, done + {reference}, key)
  {
  }

  function WithMismatch(
    before: Found, application: seq<Row>, financial: seq<Row>, violation: Violation, fields: seq<Field>,
    reference: string)
    : Found
  {
    match MismatchAt(application, financial, fields, reference)
    case None => before
    case Some(pair) => Added(before, Flag(violation, reference), pair)
  }

  ghost function DomainSoFar(
    before: Found, application: seq<Row>, financial: seq<Row>, violation: Violation, fields: seq<Field>,
    done: set<string>, key: Flag)
    : Option<Source>
  {
    if key.violation == violation && key.reference !in done then None
    else DomainAt(before, application, financial, violation, fields, key)
  }

  method CompareReference(
    before: Found, left: map<string, Row>, right: map<string, Row>, reference: string, violation: Violation,
    fields: seq<Field>, ghost application: seq<Row>, ghost financial: seq<Row>)
    returns (found: Found)
    requires Indexes(left, application) && Indexes(right, financial)
    requires reference in left || reference in right
    ensures found == WithMismatch(before, application, financial, violation, fields, reference)
  {
    found := before;
    var l := if reference in left then Some(left[reference]) else None;
    var r := if reference in right then Some(right[reference]) else None;
    assert l == Latest(application, reference) && r == Latest(financial, reference);
    if l.None? || r.None? || !Same(l.value, r.value, fields) {
      found := Added(found, Flag(violation, reference), FromPair(l, r));
    }
  }

  // ---------------------------------------------------------------------------------------------
  // Audit, outbox and inbox
  // ---------------------------------------------------------------------------------------------

  method AuditPairs(audits: seq<Row>) returns (r: Option<set<(string, Meaning)>>)
    ensures r.None? <==> exists row :: row in audits && !Hashable(Get(row, ACTION))
    ensures r.Some? ==>
              forall reference, action :: (reference, action) in r.value <==> Audited(audits, reference, action)
  {
    var pairs := {};
    for i := 0 to |audits|
      invariant forall j | 0 <= j < i :: Hashable(Get(audits[j], ACTION))
      invariant forall reference, action :: (reference, action) in pairs <==> Audited(audits[..i], reference, action)
    {
      if !Hashable(Get(audits[i], ACTION)) {
        return None;
      }
      assert audits[..i + 1] == audits[..i] + [audits[i]];
      pairs := pairs + {(Spelled(audits[i], REFERENCE, NONE), Get(audits[i], ACTION))};
    }
    assert audits[..|audits|] == audits;
    return Some(pairs);
  }

  ghost function OperationGapsAt(before: Found, e: Bundle, key: Flag): Option<Source> {
    if key.violation == AUDIT_GAP then OperationGapAt(e.applicationOperations, e.audits, e.outbox, key.reference)
    else Look(before, key)
  }

  method FlagOperationGaps(before: Found, index: map<string, Row>, e: Bundle) returns (r: Option<Found>)
    requires Indexes(index, e.applicationOperations)
    requires Fresh(before, AUDIT_GAP)
    ensures r.None? <==> MalformedActions(e)
    ensures r.Some? ==> forall key :: Look(r.value, key) == OperationGapsAt(before, e, key)
  {
    var pairs := AuditPairs(e.audits);
    if pairs.None? {
      return None;
    }
    var outboxRefs := set row | row in e.outbox :: Spelled(row, REFERENCE, NONE);
    var found := before;
    var rest := index.Keys;
    while rest != {}
      invariant rest <= index.Keys
      invariant forall reference | reference in index && reference !in rest :: !UnusableAction(index[reference])
      invariant forall key ::
                  Look(found, key) ==
                  if key.violation == AUDIT_GAP && (key.reference !in index || key.reference in rest) then None
                  else OperationGapsAt(before, e, key)
    {
      var reference :| reference in rest;
      var next := FlagOperationGap(found, reference, index[reference], pairs.value, outboxRefs, e);
      if next.None? {
        return None;
      }
      assert Latest(e.applicationOperations, reference) == Some(index[reference]);
      found := next.value;
      rest := rest - {reference};
    }
    return Some(found);
  }

  /** One operation of the loop; None where the source raises. */
  method FlagOperationGap(
    before: Found, reference: string, operation: Row, pairs: set<(string, Meaning)>, outboxRefs: set<string>,
    ghost e: Bundle)
    returns (r: Option<Found>)
    requires forall reference, action :: (reference, action) in pairs <==> Audited(e.audits, reference, action)
    requires forall reference :: reference in outboxRefs <==> Sent(e.outbox, reference)
    ensures r.None? <==> UnusableAction(operation)
    ensures r.Some? ==>
              r.value == if OperationGap(operation, e.audits, e.outbox, reference)
                         then Added(before, Flag(AUDIT_GAP, reference), FromRow(operation)) else before
  {
    var found := before;
    var action := Get(operation, AUDIT_ACTION);
    if Truthy(action) {
      if !Hashable(action) {
        return None;
      }
      if (reference, action) !in pairs {
        found := Added(found, Flag(AUDIT_GAP, reference), FromRow(operation));
      }
    }
    if Truthy(Get(operation, OUTBOX_REQUIRED)) && reference !in outboxRefs {
      found := Added(found, Flag(AUDIT_GAP, reference), FromRow(operation));
    }
    return Some(found);
  }

  /** An operation's gap comes before an event's. */
  ghost function GapsAt(before: Found, inbox: seq<Row>, events: seq<Row>, key: Flag): Option<Source> {
    if key.violation == AUDIT_GAP && key !in before then First(events, Gaps(inbox, key.reference))
    else Look(before, key)
  }

  method FlagEventGaps(before: Found, events: seq<Row>, inbox: seq<Row>) returns (found: Found)
    ensures forall key :: Look(found, key) == GapsAt(before, inbox, events, key)
  {
    var inboxIds := set row | row in inbox :: Spelled(row, EVENT_ID, NONE);
    found := before;
    for i := 0 to |events|
      invariant forall key :: Look(found, key) == GapsAt(before, inbox, events[..i], key)
    {
      var eventId := Spelled(events[i], EVENT_ID, "");
      ghost var was := found;
      if eventId == "" || eventId !in inboxIds {
        found := Added(found, Flag(AUDIT_GAP, EventReference(events[i])), FromRow(events[i]));
      }
      forall key ensures Look(found, key) == GapsAt(before, inbox, events[..i + 1], key) {
        assert events[..i + 1] == events[..i] + [events[i]];
        assert Look(was, key) == GapsAt(before, inbox, events[..i], key);
      }
    }
    assert events[..|events|] == events;
  }
}
