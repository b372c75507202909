/** `readTestCases` of tests/excel-functional.spec.js: every row of sheet
    IT23763180 whose identifier is a non-empty string is cleaned column by
    column and routed, on its CLEANED identifier, into the positive,
    negative or ui list. Also the page-text check the scenarios assert:
    some character lies in the Sinhala block.
 */
module FunctionalSpec {
  import opened Text
  import opened Sheet

  /** The bullet `U+2022` as it reads after UTF-8 bytes were decoded as
      Windows-1252: U+00E2 U+20AC U+00A2. This cleaner strips only this form. */
  const MojibakeBullet: string := ['\U{E2}', '\U{20AC}', '\U{A2}']

  /** A test case of this call site: every field is the cleaned cell, and the
      category stays one (possibly multi-line) string. */
  datatype TestCase = TestCase(
    id: string,
    name: Cell,
    lengthType: Cell,
    input: Cell,
    expectedOutput: Cell,
    category: Cell)

  datatype Tests = Tests(positive: seq<TestCase>, negative: seq<TestCase>, ui: seq<TestCase>)

  function NotFoundMessage(sheetName: string): string {
    "Sheet '" + sheetName + "' not found in Excel file"
  }

  /** The inner `clean`: a value that is not a string comes back unchanged;
      a string loses a leading mojibake bullet with the whitespace after it
      and is trimmed. */
  function Clean(c: Cell): (r: Cell)
    ensures !c.Str? ==> r == c
    ensures c.Str? ==> r.Str? && Trimmed(r.s) && |r.s| <= |c.s|
    ensures c.Str? && StartsWith(c.s, MojibakeBullet) ==> |r.s| <= |c.s| - |MojibakeBullet|
  {
    match c
    case Str(s) => Str(StripAndTrim(s, MojibakeBullet))
    case Empty => Empty
  }

  /** Where `readTestCases` sends a row: rows whose column 0 is not a
      non-empty string are skipped; the others go by their cleaned id. */
  function RowRoute(row: Row): Bucket {
    var id := CellAt(row, 0);
    if Truthy(id) then Route(Clean(id).s) else Dropped
  }

  /** The record `readTestCases` builds from a row (only used for the rows
      `RowRoute` does not drop, whose column 0 is a string). */
  function RowRecord(row: Row): TestCase {
    var id := Clean(CellAt(row, 0));
    TestCase(
      if id.Str? then id.s else "",
      Clean(CellAt(row, 1)),
      Clean(CellAt(row, 2)),
      Clean(CellAt(row, 3)),
      Clean(CellAt(row, 4)),
      Clean(CellAt(row, 8)))
  }

  /** What one row adds: its record, at the end of the list it is routed to. */
  function Push(t: Tests, row: Row): Tests {
    var b := RowRoute(row);
    Tests(
      if b == Positive then t.positive + [RowRecord(row)] else t.positive,
      if b == Negative then t.negative + [RowRecord(row)] else t.negative,
      if b == Ui then t.ui + [RowRecord(row)] else t.ui)
  }

  /** The three lists the loop over the sheet's rows leaves behind. */
  function Normalize(rows: seq<Row>): Tests
    decreases |rows|
  {
    if rows == [] then Tests([], [], [])
    else Push(Normalize(rows[..|rows| - 1]), rows[|rows| - 1])
  }

  /** Each list holds, in order, the records of the rows routed to it. */
  lemma {:induction false} NormalizeSelects(rows: seq<Row>)
    ensures Normalize(rows).positive == Select(rows, RowRoute, RowRecord, Positive)
    ensures Normalize(rows).negative == Select(rows, RowRoute, RowRecord, Negative)
    ensures Normalize(rows).ui == Select(rows, RowRoute, RowRecord, Ui)
    decreases |rows|
  {
    if rows != [] {
      NormalizeSelects(rows[..|rows| - 1]);
    }
  }

  /** `readTestCases` on an already-read workbook: an error when the sheet is
      missing, otherwise the loop over every row (the header row included). */
  method ReadTestCases(workbook: Workbook) returns (r: Result<Tests, string>)
    ensures SheetName !in workbook.sheets ==> r == Failure(NotFoundMessage(SheetName))
    ensures SheetName in workbook.sheets ==> r == Success(Normalize(workbook.sheets[SheetName]))
  {
    if SheetName !in workbook.sheets {
      return Failure(NotFoundMessage(SheetName));
    }
    var rawData := workbook.sheets[SheetName];
    var tests := Tests([], [], []);
    var i := 0;
    while i < |rawData|
      invariant 0 <= i <= |rawData|
      invariant tests == Normalize(rawData[..i])
    {
      var row := rawData[i];
      assert rawData[..i + 1][..i] == rawData[..i];
      tests := ReadRow(tests, row);
      i := i + 1;
    }
    assert rawData[..i] == rawData;
    return Success(tests);
  }

  /** One pass of the loop body: a row whose id is not a non-empty string is
      skipped (`continue`); otherwise its cleaned record is pushed onto the
      list its cleaned id selects, or onto none. */
  method ReadRow(tests: Tests, row: Row) returns (r: Tests)
    ensures r == Push(tests, row)
  {
    r := tests;
    var id := CellAt(row, 0);
    if !Truthy(id) {
      return;
    }
    var testCase := TestCase(
      Clean(id).s,
      Clean(CellAt(row, 1)),
      Clean(CellAt(row, 2)),
      Clean(CellAt(row, 3)),
      Clean(CellAt(row, 4)),
      Clean(CellAt(row, 8)));
    if StartsWith(testCase.id, PosFun) {
      r := r.(positive := r.positive + [testCase]);
    } else if StartsWith(testCase.id, NegFun) {
      r := r.(negative := r.negative + [testCase]);
    } else if StartsWith(testCase.id, PosUi) || StartsWith(testCase.id, NegUi) {
      r := r.(ui := r.ui + [testCase]);
    }
  }

  // ---------------------------------------------------------------------
  // properties of the normalisation

  /** A row is in list `b` exactly when its column 0 is a non-empty string
      whose cleaned form carries the prefix of `b`: a row without such an id,
      or with an id of no known prefix, is in no list. */
  lemma RowLandsIn(rows: seq<Row>, i: nat, b: Bucket)
    requires i < |rows| && b != Dropped
    ensures i in Indices(rows, RowRoute, b)
        <==> Truthy(CellAt(rows[i], 0)) && Route(Clean(CellAt(rows[i], 0)).s) == b
  {
    IndicesExactly(rows, RowRoute, b, i);
  }

  /** The k-th record of a list is built from the row at the k-th routed
      position: a row with a string id, every field the cleaned cell of
      columns 0, 1, 2, 3, 4 and 8, and the cleaned id carrying the list's
      prefix. */
  lemma RecordsAreCleanedRows(rows: seq<Row>, b: Bucket, k: nat)
    requires b != Dropped && k < |Select(rows, RowRoute, RowRecord, b)|
    ensures k < |Indices(rows, RowRoute, b)|
    ensures var i := Indices(rows, RowRoute, b)[k];
            var tc := Select(rows, RowRoute, RowRecord, b)[k];
            && i < |rows| && Truthy(CellAt(rows[i], 0))
            && Str(tc.id) == Clean(CellAt(rows[i], 0))
            && tc.name == Clean(CellAt(rows[i], 1))
            && tc.lengthType == Clean(CellAt(rows[i], 2))
            && tc.input == Clean(CellAt(rows[i], 3))
            && tc.expectedOutput == Clean(CellAt(rows[i], 4))
            && tc.category == Clean(CellAt(rows[i], 8))
            && Route(tc.id) == b
  {
    SelectAtIndices(rows, RowRoute, RowRecord, b);
  }

  /** The three lists together hold no more records than the sheet has rows. */
  lemma NormalizeSizes(rows: seq<Row>)
    ensures var t := Normalize(rows);
            |t.positive| + |t.negative| + |t.ui| <= |rows|
  {
    NormalizeSelects(rows);
    BucketSizes(rows, RowRoute, RowRecord);
  }

  /** A string that is the mojibake bullet, some whitespace, a trimmed body
      and some whitespace cleans to exactly that body. */
  lemma CleanMarked(w1: string, t: string, w2: string)
    requires AllWs(w1) && AllWs(w2) && Trimmed(t)
    ensures Clean(Str(MojibakeBullet + w1 + t + w2)) == Str(t)
  {
    StripAndTrimMarked(MojibakeBullet, w1, t, w2);
  }

  /** Without the marker at the very start, `clean` is plain `trim`. */
  lemma CleanUnmarked(s: string)
    requires !StartsWith(s, MojibakeBullet)
    ensures Clean(Str(s)) == Str(Trim(s))
  {
  }

  // ---------------------------------------------------------------------
  // the page-text check of the scenarios

  /** A character of the Sinhala block, U+0D80 to U+0DFF. */
  predicate IsSinhala(c: char) {
    '\U{D80}' <= c <= '\U{DFF}'
  }

  /** The regular-expression test for the class U+0D80 to U+0DFF on the page text. */
  function ContainsSinhala(text: string): (r: bool)
    ensures r <==> exists k :: 0 <= k < |text| && IsSinhala(text[k])
    decreases |text|
  {
    if text == [] then false
    else if IsSinhala(text[0]) then true
    else
      var rest := ContainsSinhala(text[1..]);
      assert forall k :: 0 < k < |text| ==> text[k] == text[1..][k - 1];
      rest
  }
}
