/** What a subject's stored grants come to, on the rows themselves: which fields they grant,
    in which mode, and on whose reference. */
module ConsentRows {
  import opened Wrappers
  import opened StableSort
  import opened ConsentComposition

  // ---- Which row comes first ----------------------------------------------------------------

  /** A row for this purpose outranks one for any; then a row for this requester outranks one
      for anybody. */
  predicate Outranks(a: GrantRow, b: GrantRow) {
    || (a.purpose != "*" && b.purpose == "*")
    || ((a.purpose == "*") == (b.purpose == "*") && a.grantedTo != "*" && b.grantedTo == "*")
  }

  predicate ComesFirst(rows: seq<GrantRow>, k: nat, j: nat)
    requires k < |rows| && j < |rows|
  {
    Outranks(rows[k], rows[j]) || (!Outranks(rows[j], rows[k]) && k <= j)
  }

  /** Of the rows with this property, row `k`: none outranks it, and those it does not outrank
      come later. */
  ghost predicate IsFirst(rows: seq<GrantRow>, has: GrantRow -> bool, k: nat) {
    && k < |rows| && has(rows[k])
    && forall j :: 0 <= j < |rows| && has(rows[j]) ==> ComesFirst(rows, k, j)
  }

  ghost predicate SomeRow(rows: seq<GrantRow>, has: GrantRow -> bool) {
    exists k :: 0 <= k < |rows| && has(rows[k])
  }

  lemma {:induction false} SpecificityRanks(a: GrantRow, b: GrantRow)
    ensures Outranks(a, b) <==> !AtLeastAsSpecific(b, a)
  {
  }

  /** The first row with the property, in this order. */
  function FirstIn(rows: seq<GrantRow>, has: GrantRow -> bool): Option<GrantRow> {
    if rows == [] then None else if has(rows[0]) then Some(rows[0]) else FirstIn(rows[1..], has)
  }

  lemma {:induction false} FirstInIsAt(rows: seq<GrantRow>, has: GrantRow -> bool)
    ensures FirstIn(rows, has).None? <==> !SomeRow(rows, has)
    ensures FirstIn(rows, has).Some? ==>
              exists i :: 0 <= i < |rows| && rows[i] == FirstIn(rows, has).value && has(rows[i])
                          && forall k :: 0 <= k < i ==> !has(rows[k])
  {
    if rows != [] && !has(rows[0]) {
      var rest := rows[1..];
      FirstInIsAt(rest, has);
      assert forall k :: 1 <= k < |rows| ==> rows[k] == rest[k - 1];
      if FirstIn(rest, has).Some? {
        var i :| 0 <= i < |rest| && rest[i] == FirstIn(rest, has).value && has(rest[i])
                 && forall k :: 0 <= k < i ==> !has(rest[k]);
        assert rows[i + 1] == rest[i];
      }
    }
  }

  /** Putting a row into an ordered list changes who is first only if it has the property and
      is at least as specific as the first so far. */
  lemma {:induction false} FirstAfterInsert(row: GrantRow, sorted: seq<GrantRow>, has: GrantRow -> bool)
    requires Sorted(AtLeastAsSpecific, sorted)
    ensures FirstIn(Insert(AtLeastAsSpecific, row, sorted), has)
         == var first := FirstIn(sorted, has);
            if has(row) && (first.None? || AtLeastAsSpecific(row, first.value)) then Some(row) else first
  {
    if sorted == [] {
      assert [row][1..] == [];
    } else if AtLeastAsSpecific(row, sorted[0]) {
      assert ([row] + sorted)[1..] == sorted;
      FirstInIsAt(sorted, has);
    } else {
      FirstAfterInsert(row, sorted[1..], has);
      assert ([sorted[0]] + Insert(AtLeastAsSpecific, row, sorted[1..]))[1..]
          == Insert(AtLeastAsSpecific, row, sorted[1..]);
    }
  }

  lemma {:induction false} FirstOfOrdered(rows: seq<GrantRow>, has: GrantRow -> bool) returns (k: nat)
    requires SomeRow(rows, has)
    ensures IsFirst(rows, has, k) && FirstIn(OrderedRows(rows), has) == Some(rows[k])
  {
    var row, rest := rows[0], rows[1..];
    SortIsSorted(AtLeastAsSpecific, rest);
    FirstAfterInsert(row, OrderedRows(rest), has);
    assert forall j :: 1 <= j < |rows| ==> rows[j] == rest[j - 1];
    if SomeRow(rest, has) {
      var n := FirstOfOrdered(rest, has);
      k := if has(row) && AtLeastAsSpecific(row, rest[n]) then 0 else n + 1;
      FirstOfOneMore(rows, has, n, k);
    } else {
      k := 0;
      NoneInOrder(rest, has);
      SpecificityRanks(row, row);
    }
  }

  lemma {:induction false} FirstOfOneMore(rows: seq<GrantRow>, has: GrantRow -> bool, n: nat, k: nat)
    requires rows != [] && IsFirst(rows[1..], has, n)
    requires k == if has(rows[0]) && AtLeastAsSpecific(rows[0], rows[n + 1]) then 0 else n + 1
    ensures IsFirst(rows, has, k)
  {
    var rest := rows[1..];
    forall j | 0 <= j < |rows| && has(rows[j])
      ensures Outranks(rows[k], rows[j]) || (!Outranks(rows[j], rows[k]) && k <= j)
    {
      if j > 0 { assert has(rest[j - 1]) && rest[j - 1] == rows[j]; }
      SpecificityRanks(rows[k], rows[j]);
      SpecificityRanks(rows[j], rows[k]);
      SpecificityRanks(rows[n + 1], rows[j]);
      SpecificityRanks(rows[j], rows[n + 1]);
    }
  }

  lemma {:induction false} NoneInOrder(rows: seq<GrantRow>, has: GrantRow -> bool)
    requires !SomeRow(rows, has)
    ensures FirstIn(OrderedRows(rows), has) == None
  {
    SortKeepsMembers(AtLeastAsSpecific, rows);
    FirstInIsAt(OrderedRows(rows), has);
    forall i | 0 <= i < |OrderedRows(rows)| ensures !has(OrderedRows(rows)[i]) {
      assert OrderedRows(rows)[i] in rows;
    }
  }

  // ---- What the rows grant ------------------------------------------------------------------

  predicate IsRaw(row: GrantRow) {
    row.mode == "raw"
  }

  predicate ListsField(row: GrantRow, field: string) {
    field in row.allowedFields
  }

  /** A row that lists the field, in the given mode. */
  function ListsIn(field: string, raw: bool): GrantRow -> bool {
    (row: GrantRow) => ListsField(row, field) && IsRaw(row) == raw
  }

  const HAS_REFERENCE: GrantRow -> bool := (row: GrantRow) => row.consentRef != ""

  predicate SomeRowLists(rows: seq<GrantRow>, field: string) {
    exists k :: 0 <= k < |rows| && ListsField(rows[k], field)
  }

  predicate AllListingAreRaw(rows: seq<GrantRow>, field: string) {
    forall k :: 0 <= k < |rows| && ListsField(rows[k], field) ==> IsRaw(rows[k])
  }

  /** The composition of the rows, as the broker uses it. */
  function GrantsOf(rows: seq<GrantRow>): map<string, FieldGrant> {
    GrantMap(EntriesOf(OrderedRows(rows)))
  }

  lemma {:induction false} SomeGrantOfEntries(rows: seq<GrantRow>, field: string)
    ensures SomeGrant(EntriesOf(rows), field) <==> SomeRowLists(rows, field)
    ensures AllRaw(EntriesOf(rows), field) <==> AllListingAreRaw(rows, field)
  {
    var entries := EntriesOf(rows);
    forall k | 0 <= k < |rows|
      ensures (Grants(entries[k], field) <==> ListsField(rows[k], field))
              && (entries[k].mode == Raw <==> IsRaw(rows[k]))
    {
    }
  }

  lemma {:induction false} OrderKeepsRows(rows: seq<GrantRow>, field: string)
    ensures SomeRowLists(OrderedRows(rows), field) <==> SomeRowLists(rows, field)
    ensures AllListingAreRaw(OrderedRows(rows), field) <==> AllListingAreRaw(rows, field)
  {
    var sorted := OrderedRows(rows);
    SortKeepsMembers(AtLeastAsSpecific, rows);
    forall k | 0 <= k < |rows| ensures exists i :: 0 <= i < |sorted| && sorted[i] == rows[k] {
      assert rows[k] in sorted;
    }
    forall i | 0 <= i < |sorted| ensures exists k :: 0 <= k < |rows| && rows[k] == sorted[i] {
      assert sorted[i] in rows;
    }
  }

  lemma {:induction false} FirstRefOfRows(rows: seq<GrantRow>, field: string, raw: bool)
    requires FirstIn(rows, ListsIn(field, raw)).Some?
    ensures FirstRef(EntriesOf(rows), field, if raw then Raw else Attestation)
         == FirstIn(rows, ListsIn(field, raw)).value.consentRef
  {
    assert EntriesOf(rows)[1..] == EntriesOf(rows[1..]);
    if !ListsIn(field, raw)(rows[0]) { FirstRefOfRows(rows[1..], field, raw); }
  }

  lemma {:induction false} PrimaryRefOfRows(rows: seq<GrantRow>)
    ensures PrimaryRef(EntriesOf(rows))
         == if FirstIn(rows, HAS_REFERENCE).Some? then FirstIn(rows, HAS_REFERENCE).value.consentRef else ""
  {
    if rows != [] {
      assert EntriesOf(rows)[1..] == EntriesOf(rows[1..]);
      PrimaryRefOfRows(rows[1..]);
    }
  }

  /** On the stored rows: a field is granted exactly when some row lists it; its mode is raw
      exactly when every row listing it is; and its reference is that of the first row, in
      order of specificity and then as stored, that lists it in that mode. */
  lemma {:induction false} RowsGrantIff(rows: seq<GrantRow>, field: string)
    ensures field in GrantsOf(rows) <==> SomeRowLists(rows, field)
    ensures field in GrantsOf(rows) ==>
              var grant := GrantsOf(rows)[field];
              && grant.field == field && (grant.mode == Raw <==> AllListingAreRaw(rows, field))
              && exists k: nat :: IsFirst(rows, ListsIn(field, grant.mode == Raw), k)
                             && grant.consentReference == rows[k].consentRef
  {
    var sorted := OrderedRows(rows);
    var entries := EntriesOf(sorted);
    GrantedAndRawIff(entries, field);
    SomeGrantOfEntries(sorted, field);
    OrderKeepsRows(rows, field);
    if SomeRowLists(rows, field) {
      var raw := AllListingAreRaw(rows, field);
      var k :| 0 <= k < |rows| && ListsField(rows[k], field) && IsRaw(rows[k]) == raw;
      assert ListsIn(field, raw)(rows[k]);
      var first := FirstOfOrdered(rows, ListsIn(field, raw));
      FirstRefOfRows(sorted, field, raw);
    }
  }

  /** The reference named for the whole is that of the first row that carries one, in that
      order; and none exactly when no row does. */
  lemma {:induction false} RowsPrimaryIs(rows: seq<GrantRow>)
    ensures var primary := PrimaryRef(EntriesOf(OrderedRows(rows)));
            && (primary == "" <==> !SomeRow(rows, HAS_REFERENCE))
            && (primary != "" ==> exists k: nat :: IsFirst(rows, HAS_REFERENCE, k) && primary == rows[k].consentRef)
  {
    PrimaryRefOfRows(OrderedRows(rows));
    if SomeRow(rows, HAS_REFERENCE) {
      var k := FirstOfOrdered(rows, HAS_REFERENCE);
    } else {
      NoneInOrder(rows, HAS_REFERENCE);
    }
  }
}
