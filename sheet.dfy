/** The spreadsheet as the normaliser sees it once the reader has turned it
    into rows (`sheet_to_json` with `header: 1`), the identifier-prefix
    routing both call sites share, and the order-preserving selection of
    the rows routed to one bucket.
 */
module Sheet {
  import opened Text

  datatype Result<+T, +E> = Success(value: T) | Failure(error: E)

  datatype Option<+T> = None | Some(value: T)

  /** A cell is a string or absent (`undefined`: a hole in the row or an
      index past its end). Numeric cells are not part of this model. */
  datatype Cell = Str(s: string) | Empty

  type Row = seq<Cell>

  /** A workbook: its sheet names in file order, and the sheets by name.
      The two are kept apart as the library keeps `SheetNames` and `Sheets`:
      the sheet is looked up in the map, and the list is only printed in an
      error message, so nothing here requires the list to name exactly the
      keys of the map. */
  datatype Workbook = Workbook(sheetNames: seq<string>, sheets: map<string, seq<Row>>)

  /** The one sheet both call sites read. */
  const SheetName: string := "IT23763180"

  /** `row[i]`: an index past the end reads as `undefined`. */
  function CellAt(row: Row, i: nat): Cell {
    if i < |row| then row[i] else Empty
  }

  /** A short row reads like the same row padded with empty cells: both call
      sites see no difference between a missing trailing cell and an empty
      one. */
  lemma CellAtPadded(row: Row, pad: Row, i: nat)
    requires forall k :: 0 <= k < |pad| ==> pad[k] == Empty
    ensures CellAt(row + pad, i) == CellAt(row, i)
  {
    if |row| <= i < |row| + |pad| {
      assert (row + pad)[i] == pad[i - |row|];
    }
  }

  /** JavaScript truthiness of a cell: a non-empty string. */
  predicate Truthy(c: Cell) {
    c.Str? && c.s != ""
  }

  // ---------------------------------------------------------------------
  // routing by identifier prefix

  datatype Bucket = Positive | Negative | Ui | Dropped

  const PosFun: string := "Pos_Fun_"
  const NegFun: string := "Neg_Fun_"
  const PosUi: string := "Pos_UI_"
  const NegUi: string := "Neg_UI_"

  /** The prefixes are pairwise incompatible: no identifier starts with two
      of them, so the order of the tests in the if-chain cannot matter. */
  lemma PrefixesExclusive(id: string)
    ensures !(StartsWith(id, PosFun) && StartsWith(id, NegFun))
    ensures !(StartsWith(id, PosFun) && StartsWith(id, PosUi))
    ensures !(StartsWith(id, PosFun) && StartsWith(id, NegUi))
    ensures !(StartsWith(id, NegFun) && StartsWith(id, PosUi))
    ensures !(StartsWith(id, NegFun) && StartsWith(id, NegUi))
    ensures !(StartsWith(id, PosUi) && StartsWith(id, NegUi))
  {
    if StartsWith(id, PosFun) { assert id[0] == 'P' && id[4] == 'F'; }
    if StartsWith(id, NegFun) { assert id[0] == 'N' && id[4] == 'F'; }
    if StartsWith(id, PosUi) { assert id[0] == 'P' && id[4] == 'U'; }
    if StartsWith(id, NegUi) { assert id[0] == 'N' && id[4] == 'U'; }
  }

  /** The if / else-if chain on `startsWith` that both call sites use. Each
      bucket is reached exactly when the identifier carries its prefix. */
  function Route(id: string): (b: Bucket)
    ensures b == Positive <==> StartsWith(id, PosFun)
    ensures b == Negative <==> StartsWith(id, NegFun)
    ensures b == Ui <==> StartsWith(id, PosUi) || StartsWith(id, NegUi)
    ensures b == Dropped <==>
      !StartsWith(id, PosFun) && !StartsWith(id, NegFun) && !StartsWith(id, PosUi) && !StartsWith(id, NegUi)
  {
    PrefixesExclusive(id);
    if StartsWith(id, PosFun) then Positive
    else if StartsWith(id, NegFun) then Negative
    else if StartsWith(id, PosUi) || StartsWith(id, NegUi) then Ui
    else Dropped
  }

  // ---------------------------------------------------------------------
  // selecting the rows of one bucket, in order

  /** What a loop that pushes `make(x)` onto bucket `b` for every `x` with
      `route(x) == b` leaves in that bucket. */
  function Select<T, R>(xs: seq<T>, route: T -> Bucket, make: T -> R, b: Bucket): (r: seq<R>)
    ensures |r| <= |xs|
    decreases |xs|
  {
    if xs == [] then []
    else
      var init := Select(xs[..|xs| - 1], route, make, b);
      var x := xs[|xs| - 1];
      if route(x) == b then init + [make(x)] else init
  }

  /** The positions, in increasing order, of the elements routed to `b`. */
  function Indices<T>(xs: seq<T>, route: T -> Bucket, b: Bucket): (r: seq<nat>)
    ensures |r| <= |xs|
    ensures forall k :: 0 <= k < |r| ==> r[k] < |xs| && route(xs[r[k]]) == b
    ensures forall k, l :: 0 <= k < l < |r| ==> r[k] < r[l]
    decreases |xs|
  {
    if xs == [] then []
    else
      var init := Indices(xs[..|xs| - 1], route, b);
      if route(xs[|xs| - 1]) == b then init + [|xs| - 1] else init
  }

  /** Every element routed to `b` has its position among `Indices`. */
  lemma {:induction false} IndicesComplete<T>(xs: seq<T>, route: T -> Bucket, b: Bucket, i: nat)
    requires i < |xs| && route(xs[i]) == b
    ensures i in Indices(xs, route, b)
    decreases |xs|
  {
    if i < |xs| - 1 {
      var init := xs[..|xs| - 1];
      assert init[i] == xs[i];
      IndicesComplete(init, route, b, i);
    }
  }

  /** A position is selected for `b` exactly when its element is routed to `b`. */
  lemma IndicesExactly<T>(xs: seq<T>, route: T -> Bucket, b: Bucket, i: nat)
    requires i < |xs|
    ensures i in Indices(xs, route, b) <==> route(xs[i]) == b
  {
    if route(xs[i]) == b {
      IndicesComplete(xs, route, b, i);
    }
  }

  /** The bucket holds, in order, one record built from each element whose
      position is in `Indices`. */
  lemma {:induction false} SelectAtIndices<T, R>(xs: seq<T>, route: T -> Bucket, make: T -> R, b: Bucket)
    ensures |Select(xs, route, make, b)| == |Indices(xs, route, b)|
    ensures forall k :: 0 <= k < |Indices(xs, route, b)| ==>
      Select(xs, route, make, b)[k] == make(xs[Indices(xs, route, b)[k]])
    decreases |xs|
  {
    if xs != [] {
      var init := xs[..|xs| - 1];
      SelectAtIndices(init, route, make, b);
      var ii := Indices(init, route, b);
      forall k | 0 <= k < |ii| ensures init[ii[k]] == xs[ii[k]] { }
    }
  }

  /** Every element lands in exactly one of the four outcomes, so the three
      buckets together never hold more records than there are rows. */
  lemma {:induction false} BucketSizes<T, R>(xs: seq<T>, route: T -> Bucket, make: T -> R)
    ensures |Select(xs, route, make, Positive)| + |Select(xs, route, make, Negative)|
          + |Select(xs, route, make, Ui)| + |Indices(xs, route, Dropped)| == |xs|
    decreases |xs|
  {
    if xs != [] {
      BucketSizes(xs[..|xs| - 1], route, make);
    }
  }

  /** No position is selected for two different buckets. */
  lemma BucketsDisjoint<T>(xs: seq<T>, route: T -> Bucket, b1: Bucket, b2: Bucket, i: nat)
    requires b1 != b2
    requires i in Indices(xs, route, b1)
    ensures i !in Indices(xs, route, b2)
  {
    var r1 := Indices(xs, route, b1);
    var r2 := Indices(xs, route, b2);
    var k :| 0 <= k < |r1| && r1[k] == i;
    assert route(xs[i]) == b1;
  }
}
