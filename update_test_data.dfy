/** The body of scripts/update_test_data.js: every row of sheet IT23763180
    after the header row whose identifier is truthy becomes a test case.
    Only the category cell is cleaned, line by line, and split into three
    fields; the row is routed on its RAW identifier, and negative and ui
    rows gain one extra field each.
 */
module UpdateTestData {
  import opened Text
  import opened Sheet

  /** The bullet U+2022. This cleaner strips only this form. */
  const Bullet: string := ['\U{2022}']

  datatype Category = Category(inputType: string, sentenceFocus: string, qualityFocus: string)

  /** A test case of this call site. The cell fields are the raw cells;
      `expectedIssue` is only set on negative rows and `description` only on
      ui rows (a missing property is `None`). */
  datatype TestCase = TestCase(
    id: string,
    name: Cell,
    lengthType: Cell,
    input: Cell,
    expectedOutput: Cell,
    category: Category,
    expectedIssue: Option<Cell>,
    description: Option<Cell>)

  datatype TestCases = TestCases(positiveTests: seq<TestCase>, negativeTests: seq<TestCase>, uiTests: seq<TestCase>)

  function NotFoundMessage(sheetName: string, sheetNames: seq<string>): string {
    "Sheet " + sheetName + " not found! Available sheets: " + Join(sheetNames, ", ")
  }

  /** `cleanText`: a falsy value gives the empty string; otherwise a leading
      bullet and the whitespace after it go, and the rest is trimmed. */
  function CleanText(c: Cell): (r: string)
    ensures !Truthy(c) ==> r == ""
    ensures Trimmed(r)
    ensures c.Str? ==> |r| <= |c.s|
    ensures c.Str? && StartsWith(c.s, Bullet) ==> |r| <= |c.s| - |Bullet|
  {
    if !Truthy(c) then "" else StripAndTrim(c.s, Bullet)
  }

  // ---------------------------------------------------------------------
  // the category cell

  /** `.map(l => cleanText(l))` over the pieces of the split cell. */
  function CleanEach(pieces: seq<string>): (r: seq<string>)
    ensures |r| == |pieces|
    decreases |pieces|
  {
    if pieces == [] then [] else [CleanText(Str(pieces[0]))] + CleanEach(pieces[1..])
  }

  /** Line k of the mapped list is piece k, cleaned. */
  lemma {:induction false} CleanEachAt(pieces: seq<string>, k: nat)
    requires k < |pieces|
    ensures CleanEach(pieces)[k] == CleanText(Str(pieces[k]))
    decreases |pieces|
  {
    if k > 0 {
      CleanEachAt(pieces[1..], k - 1);
    }
  }

  /** `.filter(l => l)`: the empty strings go, the others stay in order. */
  function DropEmpty(lines: seq<string>): (r: seq<string>)
    ensures |r| <= |lines|
    ensures forall k :: 0 <= k < |r| ==> r[k] != "" && r[k] in lines
    decreases |lines|
  {
    if lines == [] then []
    else (if lines[0] == "" then [] else [lines[0]]) + DropEmpty(lines[1..])
  }

  /** `(row[8] || '').split('\n').map(cleanText).filter(l => l)`. */
  function CategoryLines(raw: Cell): (r: seq<string>)
    ensures forall k :: 0 <= k < |r| ==> r[k] != "" && Trimmed(r[k])
  {
    var categoryRaw := if Truthy(raw) then raw.s else "";
    var lines := CleanEach(Split(categoryRaw, '\n'));
    var r := DropEmpty(lines);
    assert forall k :: 0 <= k < |r| ==> Trimmed(r[k]) by {
      forall k | 0 <= k < |r| ensures Trimmed(r[k]) {
        assert r[k] in lines;
        var j :| 0 <= j < |lines| && lines[j] == r[k];
        CleanEachAt(Split(categoryRaw, '\n'), j);
      }
    }
    r
  }

  /** `lines[i] || ''`: the kept lines are never empty, so only a missing
      index falls back to the empty string. */
  function LineOr(lines: seq<string>, i: nat): string {
    if i < |lines| then lines[i] else ""
  }

  /** Lines 0, 1 and 3 of the kept lines; line 2 (the length annotation) is
      skipped. */
  function CategoryOf(lines: seq<string>): Category {
    Category(LineOr(lines, 0), LineOr(lines, 1), LineOr(lines, 3))
  }

  function ParseCategory(raw: Cell): Category {
    CategoryOf(CategoryLines(raw))
  }

  // ---------------------------------------------------------------------
  // the rows

  /** `data.slice(1)`: the header row is never looked at. */
  function DataRows(data: seq<Row>): seq<Row> {
    if data == [] then [] else data[1..]
  }

  /** Where the script sends a row: a falsy id skips it; the others go by
      their raw id. */
  function RowRoute(row: Row): Bucket {
    var id := CellAt(row, 0);
    if Truthy(id) then Route(id.s) else Dropped
  }

  /** The record the script builds from a row, with the field its bucket adds. */
  function RowRecord(row: Row): TestCase {
    var id := CellAt(row, 0);
    var base := TestCase(
      if id.Str? then id.s else "",
      CellAt(row, 1), CellAt(row, 2), CellAt(row, 3), CellAt(row, 4),
      ParseCategory(CellAt(row, 8)),
      None, None);
    match RowRoute(row)
    case Negative => base.(expectedIssue := Some(CellAt(row, 4)))
    case Ui => base.(description := Some(CellAt(row, 1)))
    case _ => base
  }

  /** What one row adds: its record, at the end of the list it is routed to. */
  function Push(t: TestCases, row: Row): TestCases {
    var b := RowRoute(row);
    TestCases(
      if b == Positive then t.positiveTests + [RowRecord(row)] else t.positiveTests,
      if b == Negative then t.negativeTests + [RowRecord(row)] else t.negativeTests,
      if b == Ui then t.uiTests + [RowRecord(row)] else t.uiTests)
  }

  /** The three lists the `forEach` leaves behind after the given rows. */
  function Collect(rows: seq<Row>): (t: TestCases)
    decreases |rows|
  {
    if rows == [] then TestCases([], [], [])
    else Push(Collect(rows[..|rows| - 1]), rows[|rows| - 1])
  }

  /** Each list holds, in order, the records of the rows routed to it. */
  lemma {:induction false} CollectSelects(rows: seq<Row>)
    ensures Collect(rows).positiveTests == Select(rows, RowRoute, RowRecord, Positive)
    ensures Collect(rows).negativeTests == Select(rows, RowRoute, RowRecord, Negative)
    ensures Collect(rows).uiTests == Select(rows, RowRoute, RowRecord, Ui)
    decreases |rows|
  {
    if rows != [] {
      CollectSelects(rows[..|rows| - 1]);
    }
  }

  /** The whole sheet: everything after the header row. */
  function Normalize(data: seq<Row>): TestCases {
    Collect(DataRows(data))
  }

  /** The script on an already-read workbook: the process exits with an error
      naming the available sheets when the sheet is missing; otherwise the
      `forEach` over the rows after the header fills the three lists that
      are then written out. */
  method UpdateTestData(workbook: Workbook) returns (r: Result<TestCases, string>)
    ensures SheetName !in workbook.sheets ==> r == Failure(NotFoundMessage(SheetName, workbook.sheetNames))
    ensures SheetName in workbook.sheets ==> r == Success(Normalize(workbook.sheets[SheetName]))
  {
    if SheetName !in workbook.sheets {
      return Failure(NotFoundMessage(SheetName, workbook.sheetNames));
    }
    var data := workbook.sheets[SheetName];
    var testCases := TestCases([], [], []);
    var rows := DataRows(data);
    var i := 0;
    while i < |rows|
      invariant 0 <= i <= |rows|
      invariant testCases == Collect(rows[..i])
    {
      var row := rows[i];
      assert rows[..i + 1][..i] == rows[..i];
      testCases := AddRow(testCases, row);
      i := i + 1;
    }
    assert rows[..i] == rows;
    return Success(testCases);
  }

  /** The `forEach` callback: a row with a falsy id is skipped; otherwise its
      record, with the extra field of its bucket, is pushed onto the list its
      raw id selects, or onto none. */
  method AddRow(testCases: TestCases, row: Row) returns (r: TestCases)
    ensures r == Push(testCases, row)
  {
    r := testCases;
    var id := CellAt(row, 0);
    if !Truthy(id) {
      return;
    }
    var category := ParseCategory(CellAt(row, 8));
    var testCase := TestCase(
      id.s, CellAt(row, 1), CellAt(row, 2), CellAt(row, 3), CellAt(row, 4),
      category, None, None);
    if StartsWith(id.s, PosFun) {
      r := r.(positiveTests := r.positiveTests + [testCase]);
    } else if StartsWith(id.s, NegFun) {
      testCase := testCase.(expectedIssue := Some(CellAt(row, 4)));
      r := r.(negativeTests := r.negativeTests + [testCase]);
    } else if StartsWith(id.s, PosUi) || StartsWith(id.s, NegUi) {
      testCase := testCase.(description := Some(CellAt(row, 1)));
      r := r.(uiTests := r.uiTests + [testCase]);
    }
  }

  // ---------------------------------------------------------------------
  // properties of the category parsing

  /** A missing or empty category cell gives three empty fields. */
  lemma MissingCategory(raw: Cell)
    requires !Truthy(raw)
    ensures ParseCategory(raw) == Category("", "", "")
  {
    assert Split("", '\n') == [""];
    assert CleanEach([""]) == [""];
  }

  /** Every field is empty or one of the kept lines, which are all non-empty
      and trimmed; `sentenceFocus` is only set when `inputType` is, and
      `qualityFocus` only when there are at least four kept lines. */
  lemma CategoryFieldsAreKeptLines(raw: Cell)
    ensures var c := ParseCategory(raw);
            var lines := CategoryLines(raw);
            && (c.inputType == "" || c.inputType in lines)
            && (c.sentenceFocus == "" || c.sentenceFocus in lines)
            && (c.qualityFocus == "" || c.qualityFocus in lines)
            && (c.inputType == "" <==> |lines| == 0)
            && (c.sentenceFocus == "" <==> |lines| < 2)
            && (c.qualityFocus == "" <==> |lines| < 4)
  {
    var lines := CategoryLines(raw);
    if |lines| > 0 { assert lines[0] != ""; }
    if |lines| > 1 { assert lines[1] != ""; }
    if |lines| > 3 { assert lines[3] != ""; }
  }

  /** Line 2 of the kept lines never reaches the category. */
  lemma LineTwoIgnored(lines: seq<string>, x: string)
    requires |lines| > 2
    ensures CategoryOf(lines[2 := x]) == CategoryOf(lines)
  {
  }

  lemma {:induction false} CleanEachAppend(a: seq<string>, b: seq<string>)
    ensures CleanEach(a + b) == CleanEach(a) + CleanEach(b)
    decreases |a|
  {
    if a != [] {
      var h := [CleanText(Str(a[0]))];
      assert (a + b)[0] == a[0];
      assert (a + b)[1..] == a[1..] + b;
      CleanEachAppend(a[1..], b);
      assert CleanEach(a + b) == h + CleanEach(a[1..] + b);
      assert CleanEach(a) == h + CleanEach(a[1..]);
      assert h + (CleanEach(a[1..]) + CleanEach(b)) == h + CleanEach(a[1..]) + CleanEach(b);
    } else {
      assert a + b == b;
    }
  }

  lemma {:induction false} DropEmptyAppend(a: seq<string>, b: seq<string>)
    ensures DropEmpty(a + b) == DropEmpty(a) + DropEmpty(b)
    decreases |a|
  {
    if a != [] {
      var h := if a[0] == "" then [] else [a[0]];
      assert (a + b)[0] == a[0];
      assert (a + b)[1..] == a[1..] + b;
      DropEmptyAppend(a[1..], b);
      assert DropEmpty(a + b) == h + DropEmpty(a[1..] + b);
      assert DropEmpty(a) == h + DropEmpty(a[1..]);
      assert h + (DropEmpty(a[1..]) + DropEmpty(b)) == h + DropEmpty(a[1..]) + DropEmpty(b);
    } else {
      assert a + b == b;
    }
  }

  /** The kept lines of a cell whose lines are `pieces`: each cleaned, the
      empty ones dropped. */
  lemma KeptLinesOfJoined(pieces: seq<string>)
    requires |pieces| >= 1 && Join(pieces, "\n") != ""
    requires forall k :: 0 <= k < |pieces| ==> '\n' !in pieces[k]
    ensures CategoryLines(Str(Join(pieces, "\n"))) == DropEmpty(CleanEach(pieces))
  {
    JoinSplit(pieces, '\n');
  }

  lemma {:induction false} DropEmptyOfNonEmpty(lines: seq<string>)
    requires forall k :: 0 <= k < |lines| ==> lines[k] != ""
    ensures DropEmpty(lines) == lines
    decreases |lines|
  {
    if lines != [] {
      DropEmptyOfNonEmpty(lines[1..]);
      assert lines == [lines[0]] + lines[1..];
    }
  }

  /** Pieces without a line break and not blank once cleaned are kept, one
      cleaned line each, in order. */
  lemma KeptLinesOfPlainPieces(pieces: seq<string>, lines: seq<string>)
    requires |pieces| >= 1
    requires forall k :: 0 <= k < |pieces| ==> '\n' !in pieces[k]
    requires CleanEach(pieces) == lines && "" !in lines
    ensures CategoryLines(Str(Join(pieces, "\n"))) == lines
  {
    if |pieces| >= 2 {
      assert Join(pieces, "\n") == pieces[0] + "\n" + Join(pieces[1..], "\n");
    } else {
      CleanEachAt(pieces, 0);
      assert lines[0] in lines;
      assert CleanText(Str("")) == "";
    }
    KeptLinesOfJoined(pieces);
    assert forall k :: 0 <= k < |lines| ==> lines[k] != "" by {
      forall k | 0 <= k < |lines| ensures lines[k] != "" {
        assert lines[k] in lines;
      }
    }
    DropEmptyOfNonEmpty(lines);
  }

  /** Dropping the empty lines does not see one more empty line anywhere. */
  lemma DropEmptySkipBlank(a: seq<string>, b: seq<string>)
    ensures DropEmpty(a + [""] + b) == DropEmpty(a + b)
  {
    assert DropEmpty([""]) == [] by {
      assert [""][1..] == [];
    }
    DropEmptyAppend(a, [""]);
    assert DropEmpty(a + [""]) == DropEmpty(a);
    DropEmptyAppend(a + [""], b);
    DropEmptyAppend(a, b);
  }

  /** A blank piece anywhere among the pieces changes no kept line: it cleans
      to the empty string, which is dropped. */
  lemma KeptLinesSkipBlank(a: seq<string>, b: seq<string>)
    ensures DropEmpty(CleanEach(a + [""] + b)) == DropEmpty(CleanEach(a + b))
  {
    CleanEachAppend(a + [""], b);
    CleanEachAppend(a, [""]);
    CleanEachAppend(a, b);
    assert [""][1..] == [];
    assert CleanEach([""]) == [""];
    DropEmptySkipBlank(CleanEach(a), CleanEach(b));
  }

  /** A blank line anywhere in the cell is dropped before indexing, so it
      shifts every later line up by one: doubling any line break of the cell
      leaves the kept lines as they are. */
  lemma BlankLineShifts(x: string, y: string)
    ensures CategoryLines(Str(x + "\n\n" + y)) == CategoryLines(Str(x + "\n" + y))
  {
    var two, one := x + "\n\n" + y, x + "\n" + y;
    assert two == x + ['\n'] + (['\n'] + y);
    assert one == x + ['\n'] + y;
    assert ['\n'] + y == [] + ['\n'] + y;
    SplitConcat(x, ['\n'] + y, '\n');
    SplitConcat([], y, '\n');
    SplitConcat(x, y, '\n');
    assert Split(two, '\n') == Split(x, '\n') + [""] + Split(y, '\n');
    KeptLinesSkipBlank(Split(x, '\n'), Split(y, '\n'));
    assert Truthy(Str(two)) && Truthy(Str(one));
    assert CategoryLines(Str(two)) == DropEmpty(CleanEach(Split(two, '\n')));
    assert CategoryLines(Str(one)) == DropEmpty(CleanEach(Split(one, '\n')));
  }

  /** A four-line cell `a\nb\nc\nd` whose lines are not blank gives
      `{a, b, d}`, each cleaned: line c is discarded. */
  lemma FourLineCategory(a: string, b: string, c: string, d: string)
    requires '\n' !in a && '\n' !in b && '\n' !in c && '\n' !in d
    requires CleanText(Str(a)) != "" && CleanText(Str(b)) != ""
    requires CleanText(Str(c)) != "" && CleanText(Str(d)) != ""
    ensures ParseCategory(Str(a + "\n" + b + "\n" + c + "\n" + d))
         == Category(CleanText(Str(a)), CleanText(Str(b)), CleanText(Str(d)))
  {
    var lines := [CleanText(Str(a)), CleanText(Str(b)), CleanText(Str(c)), CleanText(Str(d))];
    JoinFour(a, b, c, d, "\n");
    KeptLinesOfPlainPieces([a, b, c, d], lines) by {
      NoBreakInPieces([a, b, c, d]);
      CleanEachFour(a, b, c, d);
      NoBlankAmong(lines);
    }
  }

  /** A three-line cell leaves `qualityFocus` empty: no re-indexing. */
  lemma ThreeLineCategory(a: string, b: string, c: string)
    requires '\n' !in a && '\n' !in b && '\n' !in c
    requires CleanText(Str(a)) != "" && CleanText(Str(b)) != "" && CleanText(Str(c)) != ""
    ensures ParseCategory(Str(a + "\n" + b + "\n" + c))
         == Category(CleanText(Str(a)), CleanText(Str(b)), "")
  {
    var lines := [CleanText(Str(a)), CleanText(Str(b)), CleanText(Str(c))];
    JoinThree(a, b, c, "\n");
    KeptLinesOfPlainPieces([a, b, c], lines) by {
      NoBreakInPieces([a, b, c]);
      CleanEachThree(a, b, c);
      NoBlankAmong(lines);
    }
  }

  // helpers of the two lemmas above

  lemma JoinThree(a: string, b: string, c: string, sep: string)
    ensures Join([a, b, c], sep) == a + sep + b + sep + c
  {
    assert [c][1..] == [];
    assert Join([c], sep) == c;
    assert [b, c][1..] == [c];
    assert Join([b, c], sep) == b + sep + c;
    assert [a, b, c][1..] == [b, c];
  }

  lemma JoinFour(a: string, b: string, c: string, d: string, sep: string)
    ensures Join([a, b, c, d], sep) == a + sep + b + sep + c + sep + d
  {
    assert [a, b, c, d][1..] == [b, c, d];
    JoinThree(b, c, d, sep);
  }

  lemma CleanEachFour(a: string, b: string, c: string, d: string)
    ensures CleanEach([a, b, c, d])
         == [CleanText(Str(a)), CleanText(Str(b)), CleanText(Str(c)), CleanText(Str(d))]
  {
    assert [a, b, c, d][1..] == [b, c, d];
    CleanEachThree(b, c, d);
  }

  lemma CleanEachThree(a: string, b: string, c: string)
    ensures CleanEach([a, b, c]) == [CleanText(Str(a)), CleanText(Str(b)), CleanText(Str(c))]
  {
    assert [c][1..] == [];
    assert CleanEach([c]) == [CleanText(Str(c))];
    assert [b, c][1..] == [c];
    assert CleanEach([b, c]) == [CleanText(Str(b)), CleanText(Str(c))];
    assert [a, b, c][1..] == [b, c];
  }

  lemma NoBlankAmong(lines: seq<string>)
    requires |lines| <= 4
    requires |lines| > 0 ==> lines[0] != ""
    requires |lines| > 1 ==> lines[1] != ""
    requires |lines| > 2 ==> lines[2] != ""
    requires |lines| > 3 ==> lines[3] != ""
    ensures "" !in lines
  {
  }

  lemma NoBreakInPieces(pieces: seq<string>)
    requires |pieces| <= 4
    requires |pieces| > 0 ==> '\n' !in pieces[0]
    requires |pieces| > 1 ==> '\n' !in pieces[1]
    requires |pieces| > 2 ==> '\n' !in pieces[2]
    requires |pieces| > 3 ==> '\n' !in pieces[3]
    ensures forall k :: 0 <= k < |pieces| ==> '\n' !in pieces[k]
  {
  }

  // ---------------------------------------------------------------------
  // properties of the routing and the records

  /** The header row does not influence the result. */
  lemma HeaderIgnored(d1: seq<Row>, d2: seq<Row>)
    requires d1 != [] && d2 != [] && d1[1..] == d2[1..]
    ensures Normalize(d1) == Normalize(d2)
  {
  }

  /** `data.slice(1)` by position: data row k is sheet row k + 1, and a sheet
      with only a header, or no row at all, has no data rows. */
  lemma DataRowsAfterHeader(data: seq<Row>)
    ensures |DataRows(data)| == if data == [] then 0 else |data| - 1
    ensures forall k :: 0 <= k < |DataRows(data)| ==> DataRows(data)[k] == data[k + 1]
  {
  }

  /** A data row is in list `b` exactly when its raw id is truthy and
      carries the prefix of `b`: a falsy id, or an id of no known prefix,
      puts it in no list. */
  lemma RowLandsIn(rows: seq<Row>, i: nat, b: Bucket)
    requires i < |rows| && b != Dropped
    ensures i in Indices(rows, RowRoute, b)
        <==> Truthy(CellAt(rows[i], 0)) && Route(CellAt(rows[i], 0).s) == b
  {
    IndicesExactly(rows, RowRoute, b, i);
  }

  /** The k-th record of a list comes from the data row at the k-th routed
      position: its raw id carries the list's prefix, the cell fields are the
      raw cells, the category is parsed from column 8, negative records carry
      `expectedIssue` equal to `expectedOutput`, ui records carry
      `description` equal to `name`, and positive records carry neither. */
  lemma RecordsMatchRows(rows: seq<Row>, b: Bucket, k: nat)
    requires b != Dropped && k < |Select(rows, RowRoute, RowRecord, b)|
    ensures k < |Indices(rows, RowRoute, b)|
    ensures var i := Indices(rows, RowRoute, b)[k];
            var tc := Select(rows, RowRoute, RowRecord, b)[k];
            && i < |rows| && CellAt(rows[i], 0) == Str(tc.id) && tc.id != ""
            && Route(tc.id) == b
            && tc.name == CellAt(rows[i], 1)
            && tc.lengthType == CellAt(rows[i], 2)
            && tc.input == CellAt(rows[i], 3)
            && tc.expectedOutput == CellAt(rows[i], 4)
            && tc.category == ParseCategory(CellAt(rows[i], 8))
            && (tc.expectedIssue.Some? <==> b == Negative)
            && (b == Negative ==> tc.expectedIssue == Some(tc.expectedOutput))
            && (tc.description.Some? <==> b == Ui)
            && (b == Ui ==> tc.description == Some(tc.name))
  {
    SelectAtIndices(rows, RowRoute, RowRecord, b);
  }

  /** The three lists together hold no more records than there are data rows,
      which is one fewer than the sheet's rows. */
  lemma NormalizeSizes(data: seq<Row>)
    ensures var t := Normalize(data);
            |t.positiveTests| + |t.negativeTests| + |t.uiTests| <= |DataRows(data)|
    ensures var t := Normalize(data);
            data != [] ==> |t.positiveTests| + |t.negativeTests| + |t.uiTests| <= |data| - 1
  {
    CollectSelects(DataRows(data));
    BucketSizes(DataRows(data), RowRoute, RowRecord);
  }

  /** A string that is the bullet, some whitespace, a trimmed body and some
      whitespace cleans to exactly that body. */
  lemma CleanTextMarked(w1: string, t: string, w2: string)
    requires AllWs(w1) && AllWs(w2) && Trimmed(t)
    ensures CleanText(Str(Bullet + w1 + t + w2)) == t
  {
    StripAndTrimMarked(Bullet, w1, t, w2);
  }

  // ---------------------------------------------------------------------
  // worked examples

  /** A trimmed string without a leading bullet is its own clean text. */
  lemma CleanTextOfPlain(s: string)
    requires s != "" && Trimmed(s) && !StartsWith(s, Bullet)
    ensures CleanText(Str(s)) == s
  {
    TrimUnique([], s, []);
    assert [] + s + [] == s;
  }

  /** The cell `A\nB\nC\nD` gives `{A, B, D}`. */
  lemma FourLineExample()
    ensures ParseCategory(Str("A\nB\nC\nD")) == Category("A", "B", "D")
  {
    CleanTextOfLetter('A');
    CleanTextOfLetter('B');
    CleanTextOfLetter('C');
    CleanTextOfLetter('D');
    FourLineCategory("A", "B", "C", "D");
    FourLetterCell();
  }

  /** The literal cell is the four letters joined by line breaks. */
  lemma FourLetterCell()
    ensures "A" + "\n" + "B" + "\n" + "C" + "\n" + "D" == "A\nB\nC\nD"
  {
  }

  lemma CleanTextOfLetter(c: char)
    requires !IsWs(c) && c != Bullet[0]
    ensures CleanText(Str([c])) == [c]
  {
    CleanTextOfPlain([c]);
  }

  /** `cleanText` is not idempotent: only one leading bullet goes per call. */
  lemma CleanTextNotIdempotent()
    ensures CleanText(Str("\U{2022} \U{2022} x")) == "\U{2022} x"
    ensures CleanText(Str("\U{2022} x")) == "x"
  {
    var s := "\U{2022} \U{2022} x";
    assert StartsWith(s, Bullet);
    assert s[1..] == " \U{2022} x";
    assert TrimStart(" \U{2022} x") == "\U{2022} x" by {
      assert " \U{2022} x"[1..] == "\U{2022} x";
    }
    var t := "\U{2022} x";
    assert StartsWith(t, Bullet) && t[1..] == " x" && TrimStart(" x") == "x" by {
      assert " x"[1..] == "x";
    }
  }
}
