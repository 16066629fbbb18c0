/** Worked tables for the examples pinned by the edit-distance tests. */
module LevenExamples {
  import opened Wrappers
  import opened Leven

  /** Default costs: 'kitten' and 'sitting' are three edits apart; each row below is a row of the table. */
  lemma KittenSitting()
    ensures Distance("kitten", "sitting", DefaultCosts) == 3
  {
    var s1, s2, c := "kitten", "sitting", DefaultCosts;
    var r0 := [0, 1, 2, 3, 4, 5, 6, 7];
    var r1 := [1, 1, 2, 3, 4, 5, 6, 7];
    var r2 := [2, 2, 1, 2, 3, 4, 5, 6];
    var r3 := [3, 3, 2, 1, 2, 3, 4, 5];
    var r4 := [4, 4, 3, 2, 1, 2, 3, 4];
    var r5 := [5, 5, 4, 3, 2, 2, 3, 4];
    var r6 := [6, 6, 5, 4, 3, 3, 2, 3];
    ChainedRowsGiveDistance(s1, s2, c, [r0, r1, r2, r3, r4, r5, r6]);
  }

  /** Free insertions: 'foo' is absorbed into 'foo-blah'. */
  lemma FooInFooBlah()
    ensures Distance("foo", "foo-blah", AdjustCosts(PartialCosts(Some(0), None, None))) == 0
  {
    var a, b := "foo", "foo-blah";
    assert a == b[..|a|];
    PrefixIsAnchored(a, b);
    FreeInsertionsDistance(a, b, AdjustCosts(PartialCosts(Some(0), None, None)));
  }
}
