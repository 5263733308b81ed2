/**
 * The spreadsheet loader of scripts/readExcel.js after the workbook has been
 * read: header keys are cleaned, rows without a test-case id are dropped, and
 * each remaining row is projected into a test-case record.
 */
module ReadExcel {
  import opened JsString
  import opened Wrappers
  import opened Seqs

  /** `String(v || "")` for a cell that may be absent. */
  function StringOr(v: Option<string>): (s: string)
    ensures v.Some? ==> s == v.value
    ensures v.None? ==> s == ""
  {
    match v
    case Some(t) => t
    case None => ""
  }

  /** `cleanKey`: trimmed, with every internal white-space run collapsed to one space. */
  function CleanKey(k: Option<string>): (r: string)
    ensures k == None || k == Some("") ==> r == ""
  {
    CollapseWhiteSpace(Trim(StringOr(k)))
  }

  /** A cleaned key has no white space at either end, and inside it white
      space occurs only as single plain spaces. */
  lemma CleanKeyForm(k: Option<string>)
    ensures NoEdgeWhiteSpace(CleanKey(k))
    ensures SingleSpaced(CleanKey(k))
    ensures |CleanKey(k)| <= |StringOr(k)|
  {
    CollapseIsSingleSpaced(Trim(StringOr(k)));
  }

  /** Cleaning keeps every visible character of the key, in order. */
  lemma CleanKeyKeepsVisible(k: Option<string>)
    ensures Visible(CleanKey(k)) == Visible(StringOr(k))
  {
    TrimKeepsVisible(StringOr(k));
    CollapseKeepsVisible(Trim(StringOr(k)));
  }

  /** Cleaning a cleaned key changes nothing. */
  lemma CleanKeyIdempotent(k: Option<string>)
    ensures CleanKey(Some(CleanKey(k))) == CleanKey(k)
  {
    var r := CleanKey(k);
    CleanKeyForm(k);
    assert Trim(r) == r;
    CollapseFixesSingleSpaced(r);
  }

  /** One row as the spreadsheet library returns it: each header's text with
      its cell text, in the order `Object.keys` enumerates them. */
  type RawRow = seq<(string, string)>

  /** A row re-keyed under cleaned column names. */
  type Record = map<string, string>

  /** A header with its cell, the header cleaned. */
  function CleanEntry(e: (string, string)): (string, string) {
    (CleanKey(Some(e.0)), e.1)
  }

  /** The re-keyed row: each entry stored under its cleaned header, in
      enumeration order, so later entries overwrite earlier ones. */
  function Rekey(row: RawRow): Record {
    Assoc(Map(row, CleanEntry))
  }

  /** The keys of the re-keyed row are exactly the cleaned headers: nothing
      else is introduced. */
  lemma RekeyKeys(row: RawRow)
    ensures Rekey(row).Keys == set i | 0 <= i < |row| :: CleanKey(Some(row[i].0))
  {
    var entries := Map(row, CleanEntry);
    AssocKeys(entries);
    assert (set i | 0 <= i < |entries| :: entries[i].0) == set i | 0 <= i < |row| :: CleanKey(Some(row[i].0));
  }

  /** No later entry of `row` cleans to the same key as entry `i`. */
  ghost predicate LastWithCleanKey(row: RawRow, i: int)
    requires 0 <= i < |row|
  {
    forall j | i < j < |row| :: CleanKey(Some(row[j].0)) != CleanKey(Some(row[i].0))
  }

  /** When two headers clean to the same key, the value of the later one is kept. */
  lemma RekeyLastWins(row: RawRow, i: int)
    requires 0 <= i < |row| && LastWithCleanKey(row, i)
    ensures CleanKey(Some(row[i].0)) in Rekey(row)
    ensures Rekey(row)[CleanKey(Some(row[i].0))] == row[i].1
  {
    var entries := Map(row, CleanEntry);
    assert forall j | i < j < |entries| :: entries[j].0 != entries[i].0;
    AssocLastWins(entries, i);
  }

  /** The loop at the heart of the `rows.map` callback: fill a fresh
      dictionary, one header at a time. */
  method NormalizeRow(row: RawRow) returns (normalized: Record)
    ensures normalized == Rekey(row)
  {
    normalized := map[];
    for i := 0 to |row|
      invariant normalized == Rekey(row[..i])
    {
      var (key, value) := row[i];
      normalized := normalized[CleanKey(Some(key)) := value];
      assert Map(row[..i + 1], CleanEntry) == Map(row[..i], CleanEntry) + [CleanEntry(row[i])];
      AssocSnoc(Map(row[..i], CleanEntry), CleanEntry(row[i]));
    }
    assert row[..|row|] == row;
  }

  /** `rows = rows.map(...)`: every row re-keyed, in order. */
  method NormalizeRows(rows: seq<RawRow>) returns (normalized: seq<Record>)
    ensures normalized == Map(rows, Rekey)
  {
    normalized := [];
    for i := 0 to |rows|
      invariant normalized == Map(rows[..i], Rekey)
    {
      var r := NormalizeRow(rows[i]);
      normalized := normalized + [r];
    }
    assert rows[..|rows|] == rows;
  }

  /** A test case as the loader emits it. The field `type` of the source
      is `lengthType` here. */
  datatype TestCase = TestCase(
    tcId: string,
    name: string,
    lengthType: string,
    input: string,
    expected: string,
    status: string)

  /** `r[key]`, absent when the row has no such column. */
  function Get(r: Record, key: string): (v: Option<string>)
    ensures v.Some? <==> key in r
    ensures v.Some? ==> v.value == r[key]
  {
    if key in r then Some(r[key]) else None
  }

  /** The filter of the loader: the cleaned "TC ID" is not blank. */
  predicate HasTcId(r: Record) {
    CleanKey(Get(r, "TC ID")) != ""
  }

  /** The projection of the loader. */
  function ToTestCase(r: Record): TestCase {
    TestCase(
      CleanKey(Get(r, "TC ID")),
      CleanKey(Get(r, "Test case name")),
      CleanKey(Get(r, "Input length type")),
      Trim(StringOr(Get(r, "Input"))),
      Trim(StringOr(Get(r, "Expected output"))),
      Trim(StringOr(Get(r, "Status"))))
  }

  /** The identifier, name and type fields of a record are cleaned keys:
      no white space at the ends, and single plain spaces inside. */
  lemma CleanedFields(r: Record)
    ensures var c := ToTestCase(r);
      && NoEdgeWhiteSpace(c.tcId) && SingleSpaced(c.tcId)
      && NoEdgeWhiteSpace(c.name) && SingleSpaced(c.name)
      && NoEdgeWhiteSpace(c.lengthType) && SingleSpaced(c.lengthType)
  {
    CleanKeyForm(Get(r, "TC ID"));
    CleanKeyForm(Get(r, "Test case name"));
    CleanKeyForm(Get(r, "Input length type"));
  }

  /** The input, expected and status fields are their cells with the white
      space at both ends removed and everything between kept as it is; a
      missing column gives "". */
  lemma TrimmedFields(r: Record)
    ensures var c := ToTestCase(r);
      && IsTrimOf(c.input, StringOr(Get(r, "Input")))
      && IsTrimOf(c.expected, StringOr(Get(r, "Expected output")))
      && IsTrimOf(c.status, StringOr(Get(r, "Status")))
      && ("Input" !in r ==> c.input == "")
      && ("Expected output" !in r ==> c.expected == "")
      && ("Status" !in r ==> c.status == "")
  {
    TrimIsTrimOf(StringOr(Get(r, "Input")));
    TrimIsTrimOf(StringOr(Get(r, "Expected output")));
    TrimIsTrimOf(StringOr(Get(r, "Status")));
  }

  /** Lines 40-49: keep the rows with a test-case id and project each one. */
  function SelectCases(rows: seq<Record>): (cases: seq<TestCase>)
    ensures |cases| <= |rows|
    ensures forall i | 0 <= i < |cases| :: cases[i].tcId != ""
  {
    Map(Filter(rows, HasTcId), ToTestCase)
  }

  /** Every selected record is the projection of a row with a non-blank id. */
  lemma SelectCasesSound(rows: seq<Record>, i: int)
    requires 0 <= i < |SelectCases(rows)|
    ensures exists r | r in rows :: HasTcId(r) && SelectCases(rows)[i] == ToTestCase(r)
  {
    var kept := Filter(rows, HasTcId);
    assert kept[i] in rows && HasTcId(kept[i]);
  }

  /** Every row with a non-blank id yields a selected record. */
  lemma SelectCasesComplete(rows: seq<Record>, j: int)
    requires 0 <= j < |rows| && HasTcId(rows[j])
    ensures ToTestCase(rows[j]) in SelectCases(rows)
  {
    var kept := Filter(rows, HasTcId);
    var k :| 0 <= k < |kept| && kept[k] == rows[j];
    assert SelectCases(rows)[k] == ToTestCase(rows[j]);
  }

  /** A single row yields its record when its id is not blank, and nothing otherwise. */
  lemma SelectCasesOne(r: Record)
    ensures SelectCases([r]) == if HasTcId(r) then [ToTestCase(r)] else []
  {
    assert [r][1..] == [];
  }

  /** Selection distributes over concatenation: surviving rows keep their relative order. */
  lemma SelectCasesAppend(a: seq<Record>, b: seq<Record>)
    ensures SelectCases(a + b) == SelectCases(a) + SelectCases(b)
  {
    FilterAppend(a, b, HasTcId);
    MapAppend(Filter(a, HasTcId), Filter(b, HasTcId), ToTestCase);
  }

  /** The sheet the loader reads; the leading space is part of its name. */
  const SheetName: string := " Test cases"

  /** `loadTestCases`, from the point where the workbook's sheets have been
      turned into rows: a missing sheet is an error, otherwise the sheet's rows
      are re-keyed, filtered and projected. */
  method LoadTestCases(workbook: map<string, seq<RawRow>>) returns (res: Result<seq<TestCase>, string>)
    ensures SheetName !in workbook <==> res.Failure?
    ensures res.Failure? ==> res.error == "Sheet not found: \"" + SheetName + "\""
    ensures res.Success? ==> res.value == SelectCases(Map(workbook[SheetName], Rekey))
  {
    if SheetName !in workbook {
      return Failure("Sheet not found: \"" + SheetName + "\"");
    }
    var rows := NormalizeRows(workbook[SheetName]);
    return Success(SelectCases(rows));
  }
}
