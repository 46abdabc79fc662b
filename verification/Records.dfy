/** The quick comparison of two lists of records, `compare_records` of FX/financial_boundary/reconciliation.py, and
    how it relates to the comparison of a domain. */
module Records {
  import opened Values
  import opened Ordering
  import opened Evidence
  import opened Reconciliation
  import opened Permutations

  function KeyOf(row: Row): Meaning {
    Get(row, REFERENCE)
  }

  /** The reference is missing, or cannot be a dictionary key. */
  predicate Keyless(row: Row) {
    REFERENCE !in row || !Hashable(KeyOf(row))
  }

  predicate SomeKeyless(rows: seq<Row>) {
    exists i :: 0 <= i < |rows| && Keyless(rows[i])
  }

  /** How many rows have a key. */
  function CountOf(rows: seq<Row>, key: Meaning): nat {
    if rows == [] then 0
    else CountOf(rows[..|rows| - 1], key) + if KeyOf(rows[|rows| - 1]) == key then 1 else 0
  }

  /** The last row with a key. */
  function LastWith(rows: seq<Row>, key: Meaning): Option<Row> {
    if rows == [] then None
    else if KeyOf(rows[|rows| - 1]) == key then Some(rows[|rows| - 1])
    else LastWith(rows[..|rows| - 1], key)
  }

  function Classify(application: seq<Row>, authoritative: seq<Row>, key: Meaning): Option<Violation> {
    var left, right := LastWith(application, key), LastWith(authoritative, key);
    if CountOf(authoritative, key) > 1 then Some(DUPLICATE_FINANCIAL_EFFECT)
    else if CountOf(application, key) > 1 then Some(AUDIT_GAP)
    else if left.None? && right.None? then None
    else if left.None? || right.None? then Some(MISSING_FINANCIAL_OPERATION)
    else if Get(left.value, STATE) != Get(right.value, STATE) then Some(WITHDRAWAL_STATE_MISMATCH)
    else None
  }

  // ---------------------------------------------------------------------------------------------
  // Sorting keys
  // ---------------------------------------------------------------------------------------------

  predicate KeyLess(a: Meaning, b: Meaning) {
    match (a, b)
    case (Number(x), Number(y)) => x < y
    case (Text(x), Text(y)) => LexLess(x, y)
    case _ => false
  }

  /** Python orders numbers among themselves and texts among themselves, and raises on anything mixed. */
  predicate Sortable(keys: set<Meaning>) {
    || |keys| <= 1
    || (forall key | key in keys :: key.Number?)
    || (forall key | key in keys :: key.Text?)
  }

  lemma SortableIsTotalOn(keys: set<Meaning>)
    requires Sortable(keys)
    ensures TotalOn(keys, KeyLess)
  {
    forall a, b | a in keys && b in keys ensures a == b || KeyLess(a, b) || KeyLess(b, a) {
      if a != b {
        assert {a, b} <= keys;
        TwoElements(keys, a, b);
        if a.Text? {
          LexTotal(a.text, b.text);
        }
      }
    }
    forall a | a in keys ensures !KeyLess(a, a) {
      if a.Text? {
        LexTotal(a.text, a.text);
      }
    }
    forall a, b, c | a in keys && b in keys && c in keys && KeyLess(a, b) && KeyLess(b, c) ensures KeyLess(a, c) {
      if a.Text? {
        LexTransitive(a.text, b.text, c.text);
      }
    }
  }

  lemma TwoElements<T>(keys: set<T>, a: T, b: T)
    requires a in keys && b in keys && a != b
    ensures |keys| >= 2
  {
    assert |keys| == |keys - {a}| + 1;
    assert b in keys - {a};
  }

  // ---------------------------------------------------------------------------------------------
  // The comparison
  // ---------------------------------------------------------------------------------------------

  /** Counter over the references. */
  method CountKeys(rows: seq<Row>) returns (r: Option<multiset<Meaning>>)
    ensures r.None? <==> SomeKeyless(rows)
    ensures r.Some? ==> forall key :: r.value[key] == CountOf(rows, key)
  {
    var counts: multiset<Meaning> := multiset{};
    for i := 0 to |rows|
      invariant forall j | 0 <= j < i :: !Keyless(rows[j])
      invariant forall key :: counts[key] == CountOf(rows[..i], key)
    {
      if Keyless(rows[i]) {
        return None;
      }
      assert rows[..i + 1][..i] == rows[..i];
      counts := counts + multiset{KeyOf(rows[i])};
    }
    assert rows[..|rows|] == rows;
    return Some(counts);
  }

  ghost predicate IndexedBy(index: map<Meaning, Row>, rows: seq<Row>) {
    && (forall key :: key in index <==> LastWith(rows, key).Some?)
    && (forall key | key in index :: LastWith(rows, key) == Some(index[key]))
  }

  method IndexKeys(rows: seq<Row>) returns (index: map<Meaning, Row>)
    ensures IndexedBy(index, rows)
  {
    index := map[];
    for i := 0 to |rows|
      invariant IndexedBy(index, rows[..i])
    {
      assert rows[..i + 1][..i] == rows[..i];
      index := index[KeyOf(rows[i]) := rows[i]];
    }
    assert rows[..|rows|] == rows;
  }

  ghost predicate KeysCannotBeSorted(application: seq<Row>, authoritative: seq<Row>) {
    !Sortable(set row | row in application + authoritative :: KeyOf(row))
  }

  function References(findings: seq<(Meaning, Violation)>): seq<Meaning> {
    seq(|findings|, i requires 0 <= i < |findings| => findings[i].0)
  }

  /** Sorted by reference, one finding each, and exactly what is classified. */
  ghost predicate IsComparison(application: seq<Row>, authoritative: seq<Row>, findings: seq<(Meaning, Violation)>) {
    && Increasing(References(findings), KeyLess)
    && (forall key, violation ::
          (key, violation) in findings <==> Classify(application, authoritative, key) == Some(violation))
  }

  lemma {:induction false} LastWithMember(rows: seq<Row>, key: Meaning)
    ensures LastWith(rows, key).Some? <==> exists row :: row in rows && KeyOf(row) == key
    ensures LastWith(rows, key).None? <==> CountOf(rows, key) == 0
  {
    if rows != [] {
      LastWithMember(rows[..|rows| - 1], key);
      assert rows == rows[..|rows| - 1] + [rows[|rows| - 1]];
    }
  }

  /** `compare_records`; None where it raises. */
  method CompareRecords(application: seq<Row>, authoritative: seq<Row>) returns (r: Option<seq<(Meaning, Violation)>>)
    ensures r.None? <==>
            SomeKeyless(application) || SomeKeyless(authoritative) || KeysCannotBeSorted(application, authoritative)
    ensures r.Some? ==> IsComparison(application, authoritative, r.value)
  {
    var appCounts := CountKeys(application);
    var fsCounts := CountKeys(authoritative);
    if appCounts.None? || fsCounts.None? {
      return None;
    }
    var appByKey := IndexKeys(application);
    var fsByKey := IndexKeys(authoritative);
    var keys := appByKey.Keys + fsByKey.Keys;
    AllKeys(application, authoritative, appByKey, fsByKey);
    if !Sortable(keys) {
      return None;
    }
    SortableIsTotalOn(keys);
    var sorted := SortKeys(keys, KeyLess);
    var findings := ClassifyAll(sorted, appByKey, fsByKey, appCounts.value, fsCounts.value, application, authoritative);
    return Some(findings);
  }

  lemma AllKeys(
    application: seq<Row>, authoritative: seq<Row>, appByKey: map<Meaning, Row>, fsByKey: map<Meaning, Row>)
    requires IndexedBy(appByKey, application) && IndexedBy(fsByKey, authoritative)
    ensures appByKey.Keys + fsByKey.Keys == set row | row in application + authoritative :: KeyOf(row)
  {
    var all := set row | row in application + authoritative :: KeyOf(row);
    forall key ensures key in appByKey.Keys + fsByKey.Keys <==> key in all {
      LastWithMember(application, key);
      LastWithMember(authoritative, key);
    }
  }

  method ClassifyAll(
    sorted: seq<Meaning>, appByKey: map<Meaning, Row>, fsByKey: map<Meaning, Row>, appCounts: multiset<Meaning>,
    fsCounts: multiset<Meaning>, ghost application: seq<Row>, ghost authoritative: seq<Row>)
    returns (findings: seq<(Meaning, Violation)>)
    requires IndexedBy(appByKey, application) && IndexedBy(fsByKey, authoritative)
    requires forall key :: appCounts[key] == CountOf(application, key)
    requires forall key :: fsCounts[key] == CountOf(authoritative, key)
    requires forall key :: key in sorted <==> key in appByKey || key in fsByKey
    requires Increasing(sorted, KeyLess)
    ensures IsComparison(application, authoritative, findings)
  {
    findings := [];
    ghost var done: set<Meaning> := {};
    for i := 0 to |sorted|
      invariant forall j | 0 <= j < i :: sorted[j] in done
      invariant forall key | key in done :: exists j :: 0 <= j < i && sorted[j] == key
      invariant Increasing(References(findings), KeyLess)
      invariant forall key, violation ::
                  (key, violation) in findings <==>
                  key in done && Classify(application, authoritative, key) == Some(violation)
    {
      var key := sorted[i];
      var verdict := ClassifyOne(key, appByKey, fsByKey, appCounts, fsCounts, application, authoritative);
      if verdict.Some? {
        forall k | 0 <= k < |findings| ensures KeyLess(findings[k].0, key) {
          assert (findings[k].0, findings[k].1) in findings;
        }
        AppendIncreases(findings, key, verdict.value);
        findings := findings + [(key, verdict.value)];
      }
      done := done + {key};
    }
    forall key | key !in done ensures Classify(application, authoritative, key) == None {
      assert key !in sorted;
      LastWithMember(application, key);
      LastWithMember(authoritative, key);
    }
  }

  lemma AppendIncreases(findings: seq<(Meaning, Violation)>, key: Meaning, violation: Violation)
    requires Increasing(References(findings), KeyLess)
    requires forall k | 0 <= k < |findings| :: KeyLess(findings[k].0, key)
    ensures Increasing(References(findings + [(key, violation)]), KeyLess)
  {
    assert References(findings + [(key, violation)]) == References(findings) + [key];
  }

  method ClassifyOne(
    key: Meaning, appByKey: map<Meaning, Row>, fsByKey: map<Meaning, Row>, appCounts: multiset<Meaning>,
    fsCounts: multiset<Meaning>, ghost application: seq<Row>, ghost authoritative: seq<Row>)
    returns (r: Option<Violation>)
    requires IndexedBy(appByKey, application) && IndexedBy(fsByKey, authoritative)
    requires appCounts[key] == CountOf(application, key) && fsCounts[key] == CountOf(authoritative, key)
    requires key in appByKey || key in fsByKey
    ensures r == Classify(application, authoritative, key)
  {
    if fsCounts[key] > 1 {
      return Some(DUPLICATE_FINANCIAL_EFFECT);
    } else if appCounts[key] > 1 {
      return Some(AUDIT_GAP);
    } else if key !in appByKey || key !in fsByKey {
      return Some(MISSING_FINANCIAL_OPERATION);
    } else if Get(appByKey[key], STATE) != Get(fsByKey[key], STATE) {
      return Some(WITHDRAWAL_STATE_MISMATCH);
    }
    return None;
  }

  /** Two different positions hold rows with the key. */
  predicate Twice(rows: seq<Row>, key: Meaning) {
    exists i, j :: 0 <= i < j < |rows| && KeyOf(rows[i]) == key && KeyOf(rows[j]) == key
  }

  ghost function KeyColumn(rows: seq<Row>): seq<Meaning> {
    seq(|rows|, i requires 0 <= i < |rows| => KeyOf(rows[i]))
  }

  lemma {:induction false} CountIsColumn(rows: seq<Row>, key: Meaning)
    ensures CountOf(rows, key) == multiset(KeyColumn(rows))[key]
  {
    if rows != [] {
      var n := |rows| - 1;
      CountIsColumn(rows[..n], key);
      assert KeyColumn(rows) == KeyColumn(rows[..n]) + [KeyOf(rows[n])];
    }
  }

  lemma TwiceIsCounted(rows: seq<Row>, key: Meaning)
    ensures Twice(rows, key) <==> CountOf(rows, key) > 1
  {
    var column := KeyColumn(rows);
    CountIsColumn(rows, key);
    TwiceByCount(column, key);
    if i, j :| 0 <= i < j < |rows| && KeyOf(rows[i]) == key && KeyOf(rows[j]) == key {
      assert column[i] == key && column[j] == key;
    }
    if i, j :| 0 <= i < j < |column| && column[i] == key && column[j] == key {
      assert KeyOf(rows[i]) == key && KeyOf(rows[j]) == key;
    }
  }

  /** What each classification means: an authoritative repeat first, then an application repeat, then a row that the
      other side lacks, then two rows in different states. */
  lemma ClassifiedIff(application: seq<Row>, authoritative: seq<Row>, key: Meaning)
    ensures var verdict := Classify(application, authoritative, key);
            var left := exists row :: row in application && KeyOf(row) == key;
            var right := exists row :: row in authoritative && KeyOf(row) == key;
            var once := !Twice(application, key) && !Twice(authoritative, key);
            && (verdict == Some(DUPLICATE_FINANCIAL_EFFECT) <==> Twice(authoritative, key))
            && (verdict == Some(AUDIT_GAP) <==> !Twice(authoritative, key) && Twice(application, key))
            && (verdict == Some(MISSING_FINANCIAL_OPERATION) <==> once && left != right)
            && (verdict == Some(WITHDRAWAL_STATE_MISMATCH) <==>
                once && exists row, other :: && row in application && other in authoritative
                                             && KeyOf(row) == key && KeyOf(other) == key
                                             && Get(row, STATE) != Get(other, STATE))
  {
    TwiceIsCounted(application, key);
    TwiceIsCounted(authoritative, key);
    LastWithMember(application, key);
    LastWithMember(authoritative, key);
    LastWithIsMember(application, key);
    LastWithIsMember(authoritative, key);
    if !Twice(application, key) && !Twice(authoritative, key) {
      forall row | row in application && KeyOf(row) == key ensures LastWith(application, key) == Some(row) {
        OnlyRowWithKey(application, key, row);
      }
      forall row | row in authoritative && KeyOf(row) == key ensures LastWith(authoritative, key) == Some(row) {
        OnlyRowWithKey(authoritative, key, row);
      }
    }
  }

  /** Keys are sorted as Python sorts numbers and texts. */
  lemma KeysInOrder(x: real, y: real, s: string, t: string)
    ensures KeyLess(Number(x), Number(y)) <==> x < y
    ensures KeyLess(Text(s), Text(t)) <==> LexLess(s, t)
    ensures LexLess("", s) <==> s != ""
  {
  }

  // ---------------------------------------------------------------------------------------------
  // Against the comparison of a domain
  // ---------------------------------------------------------------------------------------------

  /** Over both inputs, references are equal values exactly when they are spelled alike. */
  predicate KeysMatch(application: seq<Row>, authoritative: seq<Row>) {
    forall row, other | row in application + authoritative && other in application + authoritative ::
      KeyOf(row) == KeyOf(other) <==> RefOf(row) == RefOf(other)
  }

  predicate Repeated(rows: seq<Row>, reference: string) {
    exists i, j :: 0 <= i < j < |rows| && RefOf(rows[i]) == reference && RefOf(rows[j]) == reference
  }

  /** Where values and spellings match, counting and indexing by either gives the same. */
  lemma SameByKeyOrSpelling(rows: seq<Row>, row: Row)
    requires forall other | other in rows :: KeyOf(row) == KeyOf(other) <==> RefOf(row) == RefOf(other)
    ensures CountOf(rows, KeyOf(row)) == |RowsOf(rows, RefOf(row))|
    ensures LastWith(rows, KeyOf(row)) == Latest(rows, RefOf(row))
  {
    SameCount(rows, KeyOf(row), RefOf(row));
    SameLast(rows, KeyOf(row), RefOf(row));
  }

  lemma {:induction false} SameCount(rows: seq<Row>, key: Meaning, reference: string)
    requires forall other | other in rows :: KeyOf(other) == key <==> RefOf(other) == reference
    ensures CountOf(rows, key) == |RowsOf(rows, reference)|
  {
    if rows != [] {
      var n := |rows| - 1;
      assert rows[n] in rows;
      SameCount(rows[..n], key, reference);
    }
  }

  lemma {:induction false} SameLast(rows: seq<Row>, key: Meaning, reference: string)
    requires forall other | other in rows :: KeyOf(other) == key <==> RefOf(other) == reference
    ensures LastWith(rows, key) == Latest(rows, reference)
  {
    if rows != [] {
      var n := |rows| - 1;
      assert rows[n] in rows;
      SameLast(rows[..n], key, reference);
    }
  }

  lemma SameStateField(left: Row, right: Row)
    ensures Same(left, right, [STATE]) <==> Get(left, STATE) == Get(right, STATE)
  {
    assert [STATE][0] == STATE;
  }

  /** The quick comparison flags what the comparison of the domain by state flags, and also every repeated
      reference. */
  lemma FlagsMismatchesAndRepeats(application: seq<Row>, authoritative: seq<Row>, row: Row)
    requires KeysMatch(application, authoritative) && row in application + authoritative
    ensures Classify(application, authoritative, KeyOf(row)).Some? <==>
            || Mismatched(application, authoritative, [STATE], RefOf(row))
            || Repeated(application, RefOf(row)) || Repeated(authoritative, RefOf(row))
  {
    SameByKeyOrSpelling(application, row);
    SameByKeyOrSpelling(authoritative, row);
    RowsCounted(application, RefOf(row));
    RowsCounted(authoritative, RefOf(row));
    var left, right := Latest(application, RefOf(row)), Latest(authoritative, RefOf(row));
    if left.Some? && right.Some? {
      SameStateField(left.value, right.value);
    }
  }

  /** The two comparisons say the same of a row: its value is flagged by one when its spelling is by the other. */
  ghost predicate AgreeOn(application: seq<Row>, authoritative: seq<Row>, row: Row) {
    Classify(application, authoritative, KeyOf(row)).Some? <==>
    Mismatched(application, authoritative, [STATE], RefOf(row))
  }

  ghost predicate Agree(application: seq<Row>, authoritative: seq<Row>) {
    forall row | row in application + authoritative :: AgreeOn(application, authoritative, row)
  }

  /** On duplicate-free inputs whose values and spellings match, the two comparisons flag the same references, and the
      quick one calls each either missing or in another state. */
  lemma AgreesWithDomain(application: seq<Row>, authoritative: seq<Row>, findings: seq<(Meaning, Violation)>)
    requires KeysMatch(application, authoritative)
    requires UniqueReferences(application) && UniqueReferences(authoritative)
    requires IsComparison(application, authoritative, findings)
    ensures Agree(application, authoritative)
    ensures forall finding | finding in findings ::
              finding.1 == MISSING_FINANCIAL_OPERATION || finding.1 == WITHDRAWAL_STATE_MISMATCH
  {
    UniqueAgrees(application, authoritative);
    forall finding | finding in findings
      ensures finding.1 == MISSING_FINANCIAL_OPERATION || finding.1 == WITHDRAWAL_STATE_MISMATCH
    {
      assert (finding.0, finding.1) in findings;
      CountedOnce(application, authoritative, finding.0);
    }
  }

  lemma CountedOnce(application: seq<Row>, authoritative: seq<Row>, key: Meaning)
    requires KeysMatch(application, authoritative)
    requires UniqueReferences(application) && UniqueReferences(authoritative)
    ensures CountOf(application, key) <= 1 && CountOf(authoritative, key) <= 1
  {
    LastWithMember(application, key);
    LastWithMember(authoritative, key);
    if row :| row in application + authoritative && KeyOf(row) == key {
      SameByKeyOrSpelling(application, row);
      SameByKeyOrSpelling(authoritative, row);
      AtMostOneRow(application, RefOf(row));
      AtMostOneRow(authoritative, RefOf(row));
    }
  }

  /** References that are texts, which `str` spells as they are, always match. */
  lemma TextsMatch(application: seq<Row>, authoritative: seq<Row>)
    requires forall row: Row | row in application + authoritative ::
               REFERENCE in row && row[REFERENCE].meaning == Text(row[REFERENCE].spelling)
    ensures KeysMatch(application, authoritative)
  {
  }

  /** So on duplicate-free inputs whose references are texts the two comparisons flag the same rows. */
  lemma AgreesOnTexts(application: seq<Row>, authoritative: seq<Row>)
    requires forall row: Row | row in application + authoritative ::
               REFERENCE in row && row[REFERENCE].meaning == Text(row[REFERENCE].spelling)
    requires UniqueReferences(application) && UniqueReferences(authoritative)
    ensures Agree(application, authoritative)
  {
    TextsMatch(application, authoritative);
    UniqueAgrees(application, authoritative);
  }

  lemma UniqueAgrees(application: seq<Row>, authoritative: seq<Row>)
    requires KeysMatch(application, authoritative)
    requires UniqueReferences(application) && UniqueReferences(authoritative)
    ensures Agree(application, authoritative)
  {
    forall row | row in application + authoritative ensures AgreeOn(application, authoritative, row) {
      FlagsMismatchesAndRepeats(application, authoritative, row);
    }
  }

  /** With repeats the two agree exactly when no repeated reference ends in rows of the same state. */
  lemma AgreesIffRepeatsDiffer(application: seq<Row>, authoritative: seq<Row>)
    requires KeysMatch(application, authoritative)
    ensures Agree(application, authoritative) <==>
            forall row | row in application + authoritative &&
                         (Repeated(application, RefOf(row)) || Repeated(authoritative, RefOf(row))) ::
              Mismatched(application, authoritative, [STATE], RefOf(row))
  {
    forall row | row in application + authoritative
      ensures Classify(application, authoritative, KeyOf(row)).Some? <==>
              || Mismatched(application, authoritative, [STATE], RefOf(row))
              || Repeated(application, RefOf(row)) || Repeated(authoritative, RefOf(row))
    {
      FlagsMismatchesAndRepeats(application, authoritative, row);
    }
  }

  lemma SingleRow(row: Row, key: Meaning, reference: string)
    ensures LastWith([row], key) == if KeyOf(row) == key then Some(row) else None
    ensures CountOf([row], key) == if KeyOf(row) == key then 1 else 0
    ensures Latest([row], reference) == if RefOf(row) == reference then Some(row) else None
  {
    OneRowIndexed(row, key);
    OneRowGrouped(row, reference);
  }

  lemma OneRowIndexed(row: Row, key: Meaning)
    ensures LastWith([row], key) == if KeyOf(row) == key then Some(row) else None
    ensures CountOf([row], key) == if KeyOf(row) == key then 1 else 0
  {
    var rows := [row];
    assert rows[..|rows| - 1] == [];
  }

  lemma OneRowGrouped(row: Row, reference: string)
    ensures RowsOf([row], reference) == if RefOf(row) == reference then [row] else []
  {
    var rows := [row];
    assert rows[..|rows| - 1] == [];
  }

  /** Duplicate-free is not enough. For any one value spelled in two ways, such as 1 and 1.0, and the same state on
      both sides: nothing raises, the quick comparison flags nothing, and the comparison of the domain flags both. */
  lemma EqualValuesSpelledApart(row: Row, other: Row)
    requires !Keyless(row) && !Keyless(other) && KeyOf(row) == KeyOf(other) && Get(row, STATE) == Get(other, STATE)
    requires RefOf(row) != RefOf(other) && RefOf(row) != "" && RefOf(other) != ""
    ensures UniqueReferences([row]) && UniqueReferences([other])
    ensures !RecordsRaise([row], [other]) && !DomainRaises([row], [other])
    ensures Classify([row], [other], KeyOf(row)) == None
    ensures Mismatched([row], [other], [STATE], RefOf(row)) && Mismatched([row], [other], [STATE], RefOf(other))
  {
    SingleRow(row, KeyOf(row), RefOf(row));
    SingleRow(row, KeyOf(row), RefOf(other));
    SingleRow(other, KeyOf(row), RefOf(row));
    SingleRow(other, KeyOf(row), RefOf(other));
    var keys := set r | r in [row] + [other] :: KeyOf(r);
    assert keys == {KeyOf(row)};
  }

  /** 1 and 1.0 are such a pair. */
  lemma OneAndOnePointZero()
    ensures var row: Row := map[REFERENCE := Datum(Number(1.0), "1")];
            var other: Row := map[REFERENCE := Datum(Number(1.0), "1.0")];
            Classify([row], [other], Number(1.0)) == None && Mismatched([row], [other], [STATE], "1")
  {
    var row: Row := map[REFERENCE := Datum(Number(1.0), "1")];
    var other: Row := map[REFERENCE := Datum(Number(1.0), "1.0")];
    assert |RefOf(row)| == 1 && |RefOf(other)| == 3;
    EqualValuesSpelledApart(row, other);
  }

  /** An empty reference is a key like any other to the quick comparison, and makes the other one raise. */
  lemma EmptyReferenceRaisesInDomain() returns (application: seq<Row>)
    ensures !RecordsRaise(application, []) && DomainRaises(application, [])
  {
    application := [map[REFERENCE := Datum(Text(""), "")]];
    assert RefOf(application[0]) == "";
    assert forall row | row in application + [] :: KeyOf(row) == Text("");
  }

  // ---------------------------------------------------------------------------------------------
  // Exactly when the two comparisons agree
  // ---------------------------------------------------------------------------------------------

  ghost predicate RecordsRaise(application: seq<Row>, authoritative: seq<Row>) {
    SomeKeyless(application) || SomeKeyless(authoritative) || KeysCannotBeSorted(application, authoritative)
  }

  predicate DomainRaises(application: seq<Row>, authoritative: seq<Row>) {
    Unreferenced(application) || Unreferenced(authoritative)
  }

  /** The row has no reference, or one that is a list or a dictionary. */
  predicate Unkeyed(row: Row) {
    REFERENCE in row ==> row[REFERENCE].meaning.List? || row[REFERENCE].meaning.Record?
  }

  /** The two references cannot be compared by `<`. */
  predicate Incomparable(row: Row, other: Row) {
    && KeyOf(row) != KeyOf(other)
    && !(KeyOf(row).Number? && KeyOf(other).Number?) && !(KeyOf(row).Text? && KeyOf(other).Text?)
  }

  /** The quick comparison raises if and only if a row has no reference, or one that is a list or a dictionary, or two
      rows have different references that are neither both numbers nor both texts. */
  lemma RecordsRaiseIff(application: seq<Row>, authoritative: seq<Row>)
    ensures var rows := application + authoritative;
            RecordsRaise(application, authoritative) <==>
            || (exists row: Row :: row in rows && Unkeyed(row))
            || (exists row, other :: row in rows && other in rows && Incomparable(row, other))
  {
    KeylessIff(application);
    KeylessIff(authoritative);
    SortableIff(application + authoritative);
  }

  lemma KeylessIff(rows: seq<Row>)
    ensures SomeKeyless(rows) <==>
            exists row: Row :: row in rows && Unkeyed(row)
  {
    assert forall i | 0 <= i < |rows| :: rows[i] in rows;
    assert forall row: Row :: Keyless(row) <==> Unkeyed(row);
    if row :| row in rows && Keyless(row) {
      var i :| 0 <= i < |rows| && rows[i] == row;
    }
  }

  lemma SortableIff(rows: seq<Row>)
    ensures !Sortable(set row | row in rows :: KeyOf(row)) <==>
            exists row, other :: row in rows && other in rows && Incomparable(row, other)
  {
    var keys := set row | row in rows :: KeyOf(row);
    if row, other :| row in rows && other in rows && Incomparable(row, other) {
      TwoElements(keys, KeyOf(row), KeyOf(other));
      assert KeyOf(row) in keys && KeyOf(other) in keys;
    }
    if !Sortable(keys) {
      var row, other := IncomparablePair(rows, keys);
    }
  }

  lemma IncomparablePair(rows: seq<Row>, keys: set<Meaning>) returns (row: Row, other: Row)
    requires keys == (set row | row in rows :: KeyOf(row)) && !Sortable(keys)
    ensures row in rows && other in rows && Incomparable(row, other)
  {
    var a :| a in keys && !a.Number?;
    var b :| b in keys && !b.Text?;
    assert !(forall k | k in keys :: k == a) by {
      if forall k | k in keys :: k == a {
        OneElement(keys, a);
      }
    }
    var c :| c in keys && c != a;
    row :| row in rows && KeyOf(row) == a;
    if a.Text? {
      other :| other in rows && KeyOf(other) == b;
    } else {
      other :| other in rows && KeyOf(other) == c;
    }
  }

  lemma OneElement<T>(keys: set<T>, a: T)
    requires forall k | k in keys :: k == a
    ensures |keys| <= 1
  {
    assert keys <= {a};
    assert keys == {} || keys == {a};
  }

  /** The key occurs once on each side. */
  predicate OnceEach(application: seq<Row>, authoritative: seq<Row>, key: Meaning) {
    CountOf(application, key) == 1 && CountOf(authoritative, key) == 1
  }

  predicate OnBothSides(application: seq<Row>, authoritative: seq<Row>, reference: string) {
    Latest(application, reference).Some? && Latest(authoritative, reference).Some?
  }

  /** What the references alone must satisfy at a row: its spelling is on both sides exactly when its value is once on
      each side, and then value and spelling name the same two rows. */
  predicate Coherent(application: seq<Row>, authoritative: seq<Row>, row: Row) {
    var key, reference := KeyOf(row), RefOf(row);
    && (OnBothSides(application, authoritative, reference) <==> OnceEach(application, authoritative, key))
    && (OnBothSides(application, authoritative, reference) ==>
          && KeyOf(Latest(application, reference).value) == key
          && KeyOf(Latest(authoritative, reference).value) == key)
  }

  ghost predicate AllCoherent(application: seq<Row>, authoritative: seq<Row>) {
    forall row | row in application + authoritative :: Coherent(application, authoritative, row)
  }

  /** The rows with other states. */
  function Restated(rows: seq<Row>, states: seq<Datum>): seq<Row>
    requires |states| == |rows|
  {
    seq(|rows|, i requires 0 <= i < |rows| => rows[i][STATE := states[i]])
  }

  /** The comparisons agree, or raise together, whatever the states are. */
  ghost predicate AgreeInEveryState(application: seq<Row>, authoritative: seq<Row>) {
    forall left: seq<Datum>, right: seq<Datum> | |left| == |application| && |right| == |authoritative| ::
      SameOutcome(Restated(application, left), Restated(authoritative, right))
  }

  ghost predicate SameOutcome(application: seq<Row>, authoritative: seq<Row>) {
    && (RecordsRaise(application, authoritative) <==> DomainRaises(application, authoritative))
    && (!RecordsRaise(application, authoritative) ==> Agree(application, authoritative))
  }

  lemma {:induction false} OnlyRowWithKey(rows: seq<Row>, key: Meaning, row: Row)
    requires CountOf(rows, key) <= 1 && row in rows && KeyOf(row) == key
    ensures LastWith(rows, key) == Some(row)
  {
    var front, last := rows[..|rows| - 1], rows[|rows| - 1];
    assert rows == front + [last];
    LastWithMember(front, key);
    if KeyOf(last) != key {
      OnlyRowWithKey(front, key, row);
    }
  }

  /** A key that occurs, but not once on each side, is flagged. */
  lemma UnevenKeyIsFlagged(application: seq<Row>, authoritative: seq<Row>, key: Meaning)
    requires CountOf(application, key) >= 1 || CountOf(authoritative, key) >= 1
    requires !OnceEach(application, authoritative, key)
    ensures Classify(application, authoritative, key).Some?
  {
    LastWithMember(application, key);
    LastWithMember(authoritative, key);
  }

  lemma RowIsCounted(application: seq<Row>, authoritative: seq<Row>, row: Row)
    requires row in application + authoritative
    ensures CountOf(application, KeyOf(row)) >= 1 || CountOf(authoritative, KeyOf(row)) >= 1
    ensures Latest(application, RefOf(row)).Some? || Latest(authoritative, RefOf(row)).Some?
  {
    LastWithMember(application, KeyOf(row));
    LastWithMember(authoritative, KeyOf(row));
    LatestIsMember(application, RefOf(row));
    LatestIsMember(authoritative, RefOf(row));
  }

  lemma CoherentAgrees(application: seq<Row>, authoritative: seq<Row>, row: Row)
    requires row in application + authoritative && Coherent(application, authoritative, row)
    ensures AgreeOn(application, authoritative, row)
  {
    var key, reference := KeyOf(row), RefOf(row);
    RowIsCounted(application, authoritative, row);
    if OnBothSides(application, authoritative, reference) {
      LatestIsMember(application, reference);
      LatestIsMember(authoritative, reference);
      var left, right := Latest(application, reference).value, Latest(authoritative, reference).value;
      OnlyRowWithKey(application, key, left);
      OnlyRowWithKey(authoritative, key, right);
      SameStateField(left, right);
    } else {
      UnevenKeyIsFlagged(application, authoritative, key);
    }
  }

  // What other states leave alone.

  lemma RestatedFront(rows: seq<Row>, states: seq<Datum>)
    requires |states| == |rows| && rows != []
    ensures var n := |rows| - 1;
            && Restated(rows, states)[..n] == Restated(rows[..n], states[..n])
            && Restated(rows, states)[n] == rows[n][STATE := states[n]]
  {
  }

  lemma {:induction false} RestatedCount(rows: seq<Row>, states: seq<Datum>, key: Meaning)
    requires |states| == |rows|
    ensures CountOf(Restated(rows, states), key) == CountOf(rows, key)
  {
    if rows != [] {
      var n := |rows| - 1;
      RestatedFront(rows, states);
      RestatedCount(rows[..n], states[..n], key);
    }
  }

  lemma {:induction false} RestatedRows(rows: seq<Row>, states: seq<Datum>, reference: string)
    requires |states| == |rows|
    ensures var found, after := RowsOf(rows, reference), RowsOf(Restated(rows, states), reference);
            |found| == |after| && forall i | 0 <= i < |found| :: KeyOf(after[i]) == KeyOf(found[i])
  {
    if rows != [] {
      var n := |rows| - 1;
      RestatedFront(rows, states);
      RestatedRows(rows[..n], states[..n], reference);
      var after := rows[n][STATE := states[n]];
      assert RefOf(after) == RefOf(rows[n]) && KeyOf(after) == KeyOf(rows[n]);
    }
  }

  lemma RestatedKeeps(rows: seq<Row>, states: seq<Datum>, key: Meaning, reference: string)
    requires |states| == |rows|
    ensures CountOf(Restated(rows, states), key) == CountOf(rows, key)
    ensures Latest(rows, reference).Some? <==> Latest(Restated(rows, states), reference).Some?
    ensures Latest(rows, reference).Some? ==>
              KeyOf(Latest(Restated(rows, states), reference).value) == KeyOf(Latest(rows, reference).value)
  {
    RestatedCount(rows, states, key);
    RestatedRows(rows, states, reference);
  }

  lemma RestatedKeepsColumns(rows: seq<Row>, states: seq<Datum>)
    requires |states| == |rows|
    ensures forall i | 0 <= i < |rows| ::
              KeyOf(Restated(rows, states)[i]) == KeyOf(rows[i]) && RefOf(Restated(rows, states)[i]) == RefOf(rows[i])
    ensures SomeKeyless(Restated(rows, states)) <==> SomeKeyless(rows)
    ensures Unreferenced(Restated(rows, states)) <==> Unreferenced(rows)
  {
    var after := Restated(rows, states);
    assert forall i | 0 <= i < |rows| :: Keyless(after[i]) == Keyless(rows[i]) && RefOf(after[i]) == RefOf(rows[i]);
  }

  lemma SameKeySet(rows: seq<Row>, after: seq<Row>)
    requires |after| == |rows| && forall i | 0 <= i < |rows| :: KeyOf(after[i]) == KeyOf(rows[i])
    ensures (set row | row in rows :: KeyOf(row)) == (set row | row in after :: KeyOf(row))
  {
    var keys, others := set row | row in rows :: KeyOf(row), set row | row in after :: KeyOf(row);
    forall key ensures key in keys <==> key in others {
      if key in keys {
        var i :| 0 <= i < |rows| && KeyOf(rows[i]) == key;
        assert after[i] in after;
      }
      if key in others {
        var i :| 0 <= i < |after| && KeyOf(after[i]) == key;
        assert rows[i] in rows;
      }
    }
  }

  lemma RestatedRaises(application: seq<Row>, authoritative: seq<Row>, left: seq<Datum>, right: seq<Datum>)
    requires |left| == |application| && |right| == |authoritative|
    ensures RecordsRaise(Restated(application, left), Restated(authoritative, right)) <==>
            RecordsRaise(application, authoritative)
    ensures DomainRaises(Restated(application, left), Restated(authoritative, right)) <==>
            DomainRaises(application, authoritative)
  {
    RestatedKeepsColumns(application, left);
    RestatedKeepsColumns(authoritative, right);
    SameKeySet(application + authoritative, Restated(application, left) + Restated(authoritative, right));
  }

  lemma RestatedCoherent(
    application: seq<Row>, authoritative: seq<Row>, left: seq<Datum>, right: seq<Datum>, row: Row, after: Row)
    requires |left| == |application| && |right| == |authoritative|
    requires KeyOf(after) == KeyOf(row) && RefOf(after) == RefOf(row)
    ensures Coherent(Restated(application, left), Restated(authoritative, right), after) <==>
            Coherent(application, authoritative, row)
  {
    RestatedKeeps(application, left, KeyOf(row), RefOf(row));
    RestatedKeeps(authoritative, right, KeyOf(row), RefOf(row));
  }

  /** The row that a restated row comes from. */
  lemma Origin(application: seq<Row>, authoritative: seq<Row>, left: seq<Datum>, right: seq<Datum>, after: Row)
    returns (row: Row)
    requires |left| == |application| && |right| == |authoritative|
    requires after in Restated(application, left) + Restated(authoritative, right)
    ensures row in application + authoritative && KeyOf(after) == KeyOf(row) && RefOf(after) == RefOf(row)
  {
    RestatedKeepsColumns(application, left);
    RestatedKeepsColumns(authoritative, right);
    if after in Restated(application, left) {
      var i :| 0 <= i < |application| && Restated(application, left)[i] == after;
      row := application[i];
    } else {
      var i :| 0 <= i < |authoritative| && Restated(authoritative, right)[i] == after;
      row := authoritative[i];
    }
  }

  // States that tell an incoherent row.

  const PLAIN := Datum(Null, "None")
  const MARKED := Datum(Number(0.0), "0")

  /** The rows with one value marked, the others plain. */
  function Marks(rows: seq<Row>, marked: Option<Meaning>): seq<Datum> {
    seq(|rows|, i requires 0 <= i < |rows| => if marked == Some(KeyOf(rows[i])) then MARKED else PLAIN)
  }

  function Marked(rows: seq<Row>, marked: Option<Meaning>): seq<Row> {
    Restated(rows, Marks(rows, marked))
  }

  lemma {:induction false} LastWithIsMember(rows: seq<Row>, key: Meaning)
    ensures LastWith(rows, key).Some? ==> LastWith(rows, key).value in rows && KeyOf(LastWith(rows, key).value) == key
  {
    if rows != [] {
      LastWithIsMember(rows[..|rows| - 1], key);
    }
  }

  /** What the comparisons read of marked rows. */
  lemma MarkedReadings(rows: seq<Row>, marked: Option<Meaning>, key: Meaning, reference: string)
    ensures LastWith(Marked(rows, marked), key).Some? ==>
              Get(LastWith(Marked(rows, marked), key).value, STATE) ==
              (if marked == Some(key) then MARKED else PLAIN).meaning
    ensures Latest(rows, reference).Some? ==>
              && Latest(Marked(rows, marked), reference).Some?
              && Get(Latest(Marked(rows, marked), reference).value, STATE) ==
                 (if marked == Some(KeyOf(Latest(rows, reference).value)) then MARKED else PLAIN).meaning
  {
    var after := Marked(rows, marked);
    LastWithIsMember(after, key);
    LatestIsMember(after, reference);
    RestatedKeeps(rows, Marks(rows, marked), key, reference);
  }

  lemma MarkedKeepsCounts(rows: seq<Row>, marked: Option<Meaning>, key: Meaning, reference: string)
    ensures CountOf(Marked(rows, marked), key) == CountOf(rows, key)
    ensures Latest(rows, reference).Some? <==> Latest(Marked(rows, marked), reference).Some?
  {
    RestatedKeeps(rows, Marks(rows, marked), key, reference);
  }

  /** At an incoherent row some marking of the two inputs makes the comparisons disagree. */
  lemma IncoherentDisagrees(application: seq<Row>, authoritative: seq<Row>, row: Row)
    returns (left: Option<Meaning>, right: Option<Meaning>)
    requires row in application + authoritative && !Coherent(application, authoritative, row)
    ensures Classify(Marked(application, left), Marked(authoritative, right), KeyOf(row)).Some? !=
            Mismatched(Marked(application, left), Marked(authoritative, right), [STATE], RefOf(row))
  {
    var key, reference := KeyOf(row), RefOf(row);
    left, right := None, None;
    if OnBothSides(application, authoritative, reference) && OnceEach(application, authoritative, key) {
      var one, other := KeyOf(Latest(application, reference).value), KeyOf(Latest(authoritative, reference).value);
      if one != key {
        left := Some(one);
      } else {
        right := Some(other);
      }
    }
    RowIsCounted(application, authoritative, row);
    MarkedKeepsCounts(application, left, key, reference);
    MarkedKeepsCounts(authoritative, right, key, reference);
    MarkedReadings(application, left, key, reference);
    MarkedReadings(authoritative, right, key, reference);
    LastWithMember(Marked(application, left), key);
    LastWithMember(Marked(authoritative, right), key);
    var l, r := Latest(Marked(application, left), reference), Latest(Marked(authoritative, right), reference);
    if l.Some? && r.Some? {
      SameStateField(l.value, r.value);
    }
  }

  lemma DisagreementShows(application: seq<Row>, authoritative: seq<Row>, row: Row)
    requires row in application + authoritative && !Coherent(application, authoritative, row)
    requires !RecordsRaise(application, authoritative)
    ensures !AgreeInEveryState(application, authoritative)
  {
    var left, right := IncoherentDisagrees(application, authoritative, row);
    var l, r := Marks(application, left), Marks(authoritative, right);
    RestatedRaises(application, authoritative, l, r);
    RestatedKeepsColumns(application, l);
    RestatedKeepsColumns(authoritative, r);
    var after := Restation(application, authoritative, l, r, row);
    assert !AgreeOn(Restated(application, l), Restated(authoritative, r), after);
    assert !SameOutcome(Restated(application, l), Restated(authoritative, r));
  }

  /** A restated row that comes from a row. */
  lemma Restation(application: seq<Row>, authoritative: seq<Row>, left: seq<Datum>, right: seq<Datum>, row: Row)
    returns (after: Row)
    requires |left| == |application| && |right| == |authoritative| && row in application + authoritative
    ensures after in Restated(application, left) + Restated(authoritative, right)
    ensures KeyOf(after) == KeyOf(row) && RefOf(after) == RefOf(row)
  {
    RestatedKeepsColumns(application, left);
    RestatedKeepsColumns(authoritative, right);
    if row in application {
      var i :| 0 <= i < |application| && application[i] == row;
      after := Restated(application, left)[i];
    } else {
      var i :| 0 <= i < |authoritative| && authoritative[i] == row;
      after := Restated(authoritative, right)[i];
    }
  }

  /** For all inputs: the two comparisons raise together and flag the same rows in every state if and only if the
      references, read as values and as spellings, raise together and are coherent. */
  lemma AgreeIffCoherent(application: seq<Row>, authoritative: seq<Row>)
    ensures AgreeInEveryState(application, authoritative) <==>
            && (RecordsRaise(application, authoritative) <==> DomainRaises(application, authoritative))
            && (!RecordsRaise(application, authoritative) ==> AllCoherent(application, authoritative))
  {
    if (RecordsRaise(application, authoritative) <==> DomainRaises(application, authoritative)) &&
       (!RecordsRaise(application, authoritative) ==> AllCoherent(application, authoritative)) {
      forall left: seq<Datum>, right: seq<Datum> | |left| == |application| && |right| == |authoritative|
        ensures SameOutcome(Restated(application, left), Restated(authoritative, right))
      {
        CoherentInEveryState(application, authoritative, left, right);
      }
    } else if RecordsRaise(application, authoritative) <==> DomainRaises(application, authoritative) {
      var row :| row in application + authoritative && !Coherent(application, authoritative, row);
      DisagreementShows(application, authoritative, row);
    } else {
      var l, r := Marks(application, None), Marks(authoritative, None);
      RestatedRaises(application, authoritative, l, r);
      assert !SameOutcome(Restated(application, l), Restated(authoritative, r));
    }
  }

  lemma CoherentInEveryState(application: seq<Row>, authoritative: seq<Row>, left: seq<Datum>, right: seq<Datum>)
    requires |left| == |application| && |right| == |authoritative|
    requires RecordsRaise(application, authoritative) <==> DomainRaises(application, authoritative)
    requires !RecordsRaise(application, authoritative) ==> AllCoherent(application, authoritative)
    ensures SameOutcome(Restated(application, left), Restated(authoritative, right))
  {
    RestatedRaises(application, authoritative, left, right);
    if !RecordsRaise(application, authoritative) {
      var a, b := Restated(application, left), Restated(authoritative, right);
      forall after | after in a + b ensures AgreeOn(a, b, after) {
        var row := Origin(application, authoritative, left, right, after);
        RestatedCoherent(application, authoritative, left, right, row, after);
        CoherentAgrees(a, b, after);
      }
    }
  }

  /** No two rows share a value. */
  ghost predicate UniqueKeys(rows: seq<Row>) {
    forall key :: CountOf(rows, key) <= 1
  }

  /** On duplicate-free inputs coherence is just this: a value on one side equals a value on the other exactly when
      they are spelled alike. */
  lemma CoherentIffKeysMatchAcross(application: seq<Row>, authoritative: seq<Row>)
    requires UniqueKeys(application) && UniqueKeys(authoritative)
    requires UniqueReferences(application) && UniqueReferences(authoritative)
    ensures AllCoherent(application, authoritative) <==>
            forall row, other | row in application && other in authoritative ::
              KeyOf(row) == KeyOf(other) <==> RefOf(row) == RefOf(other)
  {
    if AllCoherent(application, authoritative) {
      forall row, other | row in application && other in authoritative
        ensures KeyOf(row) == KeyOf(other) <==> RefOf(row) == RefOf(other)
      {
        CoherentMatches(application, authoritative, row, other);
      }
    }
    if forall row, other | row in application && other in authoritative ::
         KeyOf(row) == KeyOf(other) <==> RefOf(row) == RefOf(other) {
      forall row | row in application + authoritative ensures Coherent(application, authoritative, row) {
        MatchesCoherent(application, authoritative, row);
      }
    }
  }

  lemma CoherentMatches(application: seq<Row>, authoritative: seq<Row>, row: Row, other: Row)
    requires UniqueKeys(application) && UniqueKeys(authoritative)
    requires UniqueReferences(application) && UniqueReferences(authoritative)
    requires row in application && other in authoritative && Coherent(application, authoritative, row)
    ensures KeyOf(row) == KeyOf(other) <==> RefOf(row) == RefOf(other)
  {
    LatestWhenUnique(application, RefOf(row), row);
    LatestIsMember(authoritative, RefOf(row));
    LastWithMember(application, KeyOf(row));
    LastWithMember(authoritative, KeyOf(row));
    if RefOf(row) == RefOf(other) {
      LatestWhenUnique(authoritative, RefOf(row), other);
    } else if KeyOf(row) == KeyOf(other) {
      OnlyRowWithKey(authoritative, KeyOf(row), other);
      OnlyRowWithKey(authoritative, KeyOf(row), Latest(authoritative, RefOf(row)).value);
    }
  }

  lemma MatchesCoherent(application: seq<Row>, authoritative: seq<Row>, row: Row)
    requires UniqueKeys(application) && UniqueKeys(authoritative)
    requires UniqueReferences(application) && UniqueReferences(authoritative)
    requires forall row, other | row in application && other in authoritative ::
               KeyOf(row) == KeyOf(other) <==> RefOf(row) == RefOf(other)
    requires row in application + authoritative
    ensures Coherent(application, authoritative, row)
  {
    var key, reference := KeyOf(row), RefOf(row);
    LatestIsMember(application, reference);
    LatestIsMember(authoritative, reference);
    LastWithMember(application, key);
    LastWithMember(authoritative, key);
    if row in application {
      LatestWhenUnique(application, reference, row);
    } else {
      LatestWhenUnique(authoritative, reference, row);
    }
  }
}
