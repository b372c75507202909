/** Where the two copies of the row normaliser disagree on the same input:
    each strips only its own form of the bullet, and only the test file
    routes on a cleaned identifier.
 */
module Drift {
  import opened Text
  import opened Sheet
  import FunctionalSpec
  import UpdateTestData

  /** The test file's `clean` keeps the real bullet U+2022; the script's `cleanText`
      keeps a mojibake bullet. Neither strips the other's marker. */
  lemma EachCleanerHandlesOneBullet()
    ensures FunctionalSpec.Clean(Str("\U{2022}x")) == Str("\U{2022}x")
    ensures UpdateTestData.CleanText(Str("\U{E2}\U{20AC}\U{A2}x")) == "\U{E2}\U{20AC}\U{A2}x"
  {
    var dot := "\U{2022}x";
    assert !StartsWith(dot, FunctionalSpec.MojibakeBullet);
    assert Trimmed(dot);
    TrimUnique([], dot, []);
    assert [] + dot + [] == dot;
    var moji := "\U{E2}\U{20AC}\U{A2}x";
    assert !StartsWith(moji, UpdateTestData.Bullet);
    assert Trimmed(moji);
    TrimUnique([], moji, []);
    assert [] + moji + [] == moji;
  }

  lemma PaddedIdCleans()
    ensures FunctionalSpec.Clean(Str(" Pos_Fun_0001 ")) == Str("Pos_Fun_0001")
  {
    var padded := " Pos_Fun_0001 ";
    assert padded == [' '] + "Pos_Fun_0001" + [' '];
    assert AllWs([' ']) && Trimmed("Pos_Fun_0001");
    TrimUnique([' '], "Pos_Fun_0001", [' ']);
    assert padded[0] == ' ' && !StartsWith(padded, FunctionalSpec.MojibakeBullet);
  }

  lemma PaddedIdRoutes()
    ensures Route("Pos_Fun_0001") == Positive
    ensures Route(" Pos_Fun_0001 ") == Dropped
  {
    assert "Pos_Fun_0001"[..|PosFun|] == PosFun;
    var padded := " Pos_Fun_0001 ";
    assert padded[0] == ' ';
  }

  /** An identifier with surrounding spaces is a positive case for the test
      file, which routes on the cleaned id, and is dropped by the script,
      which routes on the raw id. */
  lemma PaddedIdRoutesDifferently(rest: Row)
    ensures FunctionalSpec.RowRoute([Str(" Pos_Fun_0001 ")] + rest) == Positive
    ensures UpdateTestData.RowRoute([Str(" Pos_Fun_0001 ")] + rest) == Dropped
  {
    var row := [Str(" Pos_Fun_0001 ")] + rest;
    assert CellAt(row, 0) == Str(" Pos_Fun_0001 ");
    PaddedIdCleans();
    PaddedIdRoutes();
  }
}
