/** Weighted Levenshtein distance: the dynamic-programming table of
    `levenshteinDistance`, with separate insertion, deletion and substitution
    costs. The first row and column of the table are always 0, 1, 2, ...
    whatever the costs are. */
module Leven {
  import opened Wrappers

  /** Edit costs. The source only ever passes 0 and 1; costs are natural
      numbers here. */
  datatype Costs = Costs(ins: nat, del: nat, sub: nat)

  const DefaultCosts: Costs := Costs(1, 1, 1)

  /** `Partial<Costs>`: each field may be left out. */
  datatype PartialCosts = PartialCosts(ins: Option<nat>, del: Option<nat>, sub: Option<nat>)

  const NoCosts: PartialCosts := PartialCosts(None, None, None)

  /** `_.assign({}, DefaultCosts, pcosts)`: supplied fields win, the others
      keep their default of 1. */
  function AdjustCosts(p: PartialCosts): (c: Costs)
    ensures p.ins.None? ==> c.ins == DefaultCosts.ins
    ensures p.del.None? ==> c.del == DefaultCosts.del
    ensures p.sub.None? ==> c.sub == DefaultCosts.sub
    ensures p.ins.Some? ==> c.ins == p.ins.value
    ensures p.del.Some? ==> c.del == p.del.value
    ensures p.sub.Some? ==> c.sub == p.sub.value
  {
    Costs(p.ins.GetOr(DefaultCosts.ins), p.del.GetOr(DefaultCosts.del), p.sub.GetOr(DefaultCosts.sub))
  }

  function Min(a: int, b: int): int { if a <= b then a else b }

  /** Cost of aligning `x` with `y`: nothing when they are equal. */
  function SubCost(x: char, y: char, c: Costs): int {
    if x == y then 0 else c.sub
  }

  /** `Math.min` of a deletion from the cell above (`up`), an insertion from
      the cell to the left (`left`) and a substitution from the diagonal
      (`diag`), for the inner cell (i, j). */
  function Inner(s1: string, s2: string, c: Costs, i: int, j: int, up: int, left: int, diag: int): int
    requires 0 < i <= |s1| && 0 < j <= |s2|
  {
    Min(Min(up + c.del, left + c.ins), diag + SubCost(s1[i - 1], s2[j - 1], c))
  }

  /** The table cell `matrix[i][j]`: the cost of turning the first `i`
      characters of `s1` into the first `j` characters of `s2`. A border
      cell holds its index (`i + j` with one of them 0); every inner cell is
      the cheapest of its three neighbours plus the cost of the step. */
  function Cell(s1: string, s2: string, c: Costs, i: int, j: int): int
    requires 0 <= i <= |s1| && 0 <= j <= |s2|
    decreases i + j
  {
    if i == 0 || j == 0 then i + j
    else Inner(s1, s2, c, i, j, Cell(s1, s2, c, i - 1, j), Cell(s1, s2, c, i, j - 1), Cell(s1, s2, c, i - 1, j - 1))
  }

  /** The bottom-right corner of the table. */
  function Distance(s1: string, s2: string, c: Costs): int {
    Cell(s1, s2, c, |s1|, |s2|)
  }

  function Max(a: int, b: int): int { if a < b then b else a }

  /** `levenshteinDistance(s1, s2, pcosts)`: allocates the table, fills the
      first column and the first row, then every inner cell row by row. */
  method LevenshteinDistance(s1: string, s2: string, pcosts: PartialCosts) returns (r: int)
    ensures r == Distance(s1, s2, AdjustCosts(pcosts))
    ensures r >= 0
    ensures s1 == s2 ==> r == 0
    ensures |s2| == 0 ==> r == |s1|
    ensures |s1| == 0 ==> r == |s2|
    ensures AdjustCosts(pcosts).sub <= 1 ==> r <= Max(|s1|, |s2|)
  {
    var costs := AdjustCosts(pcosts);
    var matrix := new int[|s1| + 1, |s2| + 1];
    for i := 0 to |s1| + 1
      invariant forall a :: 0 <= a < i ==> matrix[a, 0] == a
    {
      matrix[i, 0] := i;
    }
    for j := 0 to |s2| + 1
      invariant forall a :: 0 <= a <= |s1| ==> matrix[a, 0] == a
      invariant forall b :: 0 <= b < j ==> matrix[0, b] == b
    {
      matrix[0, j] := j;
    }
    for i := 1 to |s1| + 1
      invariant forall a, b {:trigger matrix[a, b]} :: 0 <= a < i && 0 <= b <= |s2| ==> matrix[a, b] == Cell(s1, s2, costs, a, b)
      invariant forall a :: 0 <= a <= |s1| ==> matrix[a, 0] == a
    {
      FillRow(matrix, s1, s2, costs, i);
    }
    r := matrix[|s1|, |s2|];
    CellNonNegative(s1, s2, costs, |s1|, |s2|);
    if s1 == s2 {
      DiagonalIsZero(s1, costs, |s1|);
    }
    if costs.sub <= 1 {
      CellBound(s1, s2, costs, |s1|, |s2|);
    }
  }

  /** The inner `for j` loop: fills row `i` from the row above it. */
  method FillRow(matrix: array2<int>, s1: string, s2: string, costs: Costs, i: int)
    requires matrix.Length0 == |s1| + 1 && matrix.Length1 == |s2| + 1
    requires 0 < i <= |s1|
    requires forall a, b {:trigger matrix[a, b]} :: 0 <= a < i && 0 <= b <= |s2| ==> matrix[a, b] == Cell(s1, s2, costs, a, b)
    requires matrix[i, 0] == i
    modifies matrix
    ensures forall a, b {:trigger matrix[a, b]} :: 0 <= a <= i && 0 <= b <= |s2| ==> matrix[a, b] == Cell(s1, s2, costs, a, b)
    ensures forall a, b {:trigger matrix[a, b]} :: i < a <= |s1| && 0 <= b <= |s2| ==> matrix[a, b] == old(matrix[a, b])
  {
    for j := 1 to |s2| + 1
      invariant forall a, b {:trigger matrix[a, b]} :: 0 <= a < i && 0 <= b <= |s2| ==> matrix[a, b] == Cell(s1, s2, costs, a, b)
      invariant forall b {:trigger matrix[i, b]} :: 0 <= b < j ==> matrix[i, b] == Cell(s1, s2, costs, i, b)
      invariant forall a, b {:trigger matrix[a, b]} :: i < a <= |s1| && 0 <= b <= |s2| ==> matrix[a, b] == old(matrix[a, b])
    {
      var substitutionCost := if s1[i - 1] == s2[j - 1] then 0 else costs.sub;
      var v := Min(Min(matrix[i - 1, j] + costs.del,
                       matrix[i, j - 1] + costs.ins),
                   matrix[i - 1, j - 1] + substitutionCost);
      assert v == Cell(s1, s2, costs, i, j) by {
        assert matrix[i - 1, j] == Cell(s1, s2, costs, i - 1, j);
        assert matrix[i - 1, j - 1] == Cell(s1, s2, costs, i - 1, j - 1);
        assert matrix[i, j - 1] == Cell(s1, s2, costs, i, j - 1);
        CellStep(s1, s2, costs, i, j);
      }
      matrix[i, j] := v;
    }
  }

  lemma CellStep(s1: string, s2: string, c: Costs, i: int, j: int)
    requires 0 < i <= |s1| && 0 < j <= |s2|
    ensures Cell(s1, s2, c, i, j) ==
            Inner(s1, s2, c, i, j, Cell(s1, s2, c, i - 1, j), Cell(s1, s2, c, i, j - 1), Cell(s1, s2, c, i - 1, j - 1))
  {
  }

  /** Costs are never negative and neither are the borders, so no cell is. */
  lemma {:induction false} CellNonNegative(s1: string, s2: string, c: Costs, i: int, j: int)
    requires 0 <= i <= |s1| && 0 <= j <= |s2|
    ensures Cell(s1, s2, c, i, j) >= 0
    decreases i + j
  {
    if i > 0 && j > 0 {
      CellNonNegative(s1, s2, c, i - 1, j);
      CellNonNegative(s1, s2, c, i, j - 1);
      CellNonNegative(s1, s2, c, i - 1, j - 1);
    }
  }

  /** Equal characters cost nothing, so a string is at distance 0 from
      itself whatever the costs. */
  lemma {:induction false} DiagonalIsZero(s: string, c: Costs, i: int)
    requires 0 <= i <= |s|
    ensures Cell(s, s, c, i, i) == 0
  {
    if i > 0 {
      DiagonalIsZero(s, c, i - 1);
      CellNonNegative(s, s, c, i - 1, i);
      CellNonNegative(s, s, c, i, i - 1);
    }
  }

  function Swap(c: Costs): Costs { Costs(c.del, c.ins, c.sub) }

  /** Exchanging the two strings exchanges the roles of insertion and
      deletion. */
  lemma {:induction false} CellSwap(s1: string, s2: string, c: Costs, i: int, j: int)
    requires 0 <= i <= |s1| && 0 <= j <= |s2|
    ensures Cell(s1, s2, c, i, j) == Cell(s2, s1, Swap(c), j, i)
    decreases i + j
  {
    if i > 0 && j > 0 {
      CellSwap(s1, s2, c, i - 1, j);
      CellSwap(s1, s2, c, i, j - 1);
      CellSwap(s1, s2, c, i - 1, j - 1);
      CellSwapStep(s1, s2, c, i, j);
    }
  }

  /** One step of CellSwap: if the three neighbours agree, so does the cell. */
  lemma CellSwapStep(s1: string, s2: string, c: Costs, i: int, j: int)
    requires 0 < i <= |s1| && 0 < j <= |s2|
    requires Cell(s1, s2, c, i - 1, j) == Cell(s2, s1, Swap(c), j, i - 1)
    requires Cell(s1, s2, c, i, j - 1) == Cell(s2, s1, Swap(c), j - 1, i)
    requires Cell(s1, s2, c, i - 1, j - 1) == Cell(s2, s1, Swap(c), j - 1, i - 1)
    ensures Cell(s1, s2, c, i, j) == Cell(s2, s1, Swap(c), j, i)
  {
    var d, n, g := Cell(s1, s2, c, i - 1, j), Cell(s1, s2, c, i, j - 1), Cell(s1, s2, c, i - 1, j - 1);
    var sc := SubCost(s1[i - 1], s2[j - 1], c);
    assert sc == SubCost(s2[j - 1], s1[i - 1], Swap(c));
    assert Inner(s2, s1, Swap(c), j, i, n, d, g) == Inner(s1, s2, c, i, j, d, n, g);
  }

  /** With insertions and deletions priced alike (the defaults among them)
      the distance does not depend on the order of its arguments. */
  lemma DistanceSymmetric(s1: string, s2: string, c: Costs)
    requires c.ins == c.del
    ensures Distance(s1, s2, c) == Distance(s2, s1, c)
  {
    CellSwap(s1, s2, c, |s1|, |s2|);
    assert Swap(c) == c;
  }

  /** A substitution costs at most 1, so walking the diagonal and then a
      border never costs more than the longer prefix. */
  lemma {:induction false} CellBound(s1: string, s2: string, c: Costs, i: int, j: int)
    requires 0 <= i <= |s1| && 0 <= j <= |s2|
    requires c.sub <= 1
    ensures Cell(s1, s2, c, i, j) <= Max(i, j)
    decreases i + j
  {
    if i > 0 && j > 0 {
      CellBound(s1, s2, c, i - 1, j - 1);
    }
  }

  /** `b` contains the characters of `a` in order, the first character of
      `a` being matched with the first character of `b`. */
  predicate AnchoredSubsequence(a: string, b: string)
    decreases |b|
  {
    |a| > 0 && |b| > 0 &&
    if |a| == 1 then a[0] == b[0]
    else (a[|a| - 1] == b[|b| - 1] && AnchoredSubsequence(a[..|a| - 1], b[..|b| - 1]))
         || AnchoredSubsequence(a, b[..|b| - 1])
  }

  /** With free insertions, the extra characters of the longer string are
      absorbed once the first characters line up ('foo' against
      'foo-blah'). The first row is not free, which is why the first
      characters must match. */
  lemma {:induction false} FreeInsertionsAbsorb(s1: string, s2: string, c: Costs, i: int, j: int)
    requires 0 <= i <= |s1| && 0 <= j <= |s2|
    requires c.ins == 0
    requires AnchoredSubsequence(s1[..i], s2[..j])
    ensures Cell(s1, s2, c, i, j) == 0
    decreases i + j
  {
    CellNonNegative(s1, s2, c, i, j);
    var a, b := s1[..i], s2[..j];
    assert a[..i - 1] == s1[..i - 1] && b[..j - 1] == s2[..j - 1];
    if i == 1 {
      if j == 1 {
        assert Cell(s1, s2, c, 0, 0) == 0;
      } else {
        if a[0] == b[0] {
          assert AnchoredSubsequence(s1[..i], s2[..j - 1]);
        }
        FreeInsertionsAbsorb(s1, s2, c, i, j - 1);
      }
    } else if a[i - 1] == b[j - 1] && AnchoredSubsequence(a[..i - 1], b[..j - 1]) {
      FreeInsertionsAbsorb(s1, s2, c, i - 1, j - 1);
    } else {
      FreeInsertionsAbsorb(s1, s2, c, i, j - 1);
    }
  }

  lemma FreeInsertionsDistance(s1: string, s2: string, c: Costs)
    requires c.ins == 0
    requires AnchoredSubsequence(s1, s2)
    ensures Distance(s1, s2, c) == 0
  {
    assert s1[..|s1|] == s1 && s2[..|s2|] == s2;
    FreeInsertionsAbsorb(s1, s2, c, |s1|, |s2|);
  }

  /** A non-empty prefix is an anchored subsequence. */
  lemma {:induction false} PrefixIsAnchored(a: string, b: string)
    requires 0 < |a| <= |b| && a == b[..|a|]
    ensures AnchoredSubsequence(a, b)
    decreases |b|
  {
    if |a| == 1 {
    } else if |a| == |b| {
      assert a[..|a| - 1] == b[..|b| - 1][..|a| - 1];
      PrefixIsAnchored(a[..|a| - 1], b[..|b| - 1]);
    } else {
      assert a == b[..|b| - 1][..|a|];
      PrefixIsAnchored(a, b[..|b| - 1]);
    }
  }

  /** First row of the table: the border 0, 1, ..., |s2|. */
  predicate IsFirstRow(s2: string, row: seq<int>) {
    |row| == |s2| + 1 && forall k :: 0 <= k <= |s2| ==> row[k] == k
  }

  /** `cur` is row `i` computed from `prev` the way the inner loop does. */
  predicate IsNextRow(s1: string, s2: string, c: Costs, i: int, prev: seq<int>, cur: seq<int>)
    requires 0 < i <= |s1|
  {
    |prev| == |cur| == |s2| + 1 && cur[0] == i &&
    forall k {:trigger cur[k]} :: 0 < k <= |s2| ==> cur[k] == Inner(s1, s2, c, i, k, prev[k], cur[k - 1], prev[k - 1])
  }

  predicate IsRow(s1: string, s2: string, c: Costs, i: int, row: seq<int>)
    requires 0 <= i <= |s1|
  {
    |row| == |s2| + 1 && forall k {:trigger row[k]} :: 0 <= k <= |s2| ==> row[k] == Cell(s1, s2, c, i, k)
  }

  /** Filling a row from the row above gives the next row of the table. */
  lemma {:induction false} NextRowIsRow(s1: string, s2: string, c: Costs, i: int, prev: seq<int>, cur: seq<int>)
    requires 0 < i <= |s1|
    requires IsRow(s1, s2, c, i - 1, prev)
    requires IsNextRow(s1, s2, c, i, prev, cur)
    ensures IsRow(s1, s2, c, i, cur)
  {
    forall k | 0 <= k <= |s2|
      ensures cur[k] == Cell(s1, s2, c, i, k)
    {
      NextRowCell(s1, s2, c, i, prev, cur, k);
    }
  }

  lemma {:induction false} NextRowCell(s1: string, s2: string, c: Costs, i: int, prev: seq<int>, cur: seq<int>, k: int)
    requires 0 < i <= |s1| && 0 <= k <= |s2|
    requires IsRow(s1, s2, c, i - 1, prev)
    requires IsNextRow(s1, s2, c, i, prev, cur)
    ensures cur[k] == Cell(s1, s2, c, i, k)
    decreases k
  {
    if k > 0 {
      NextRowCell(s1, s2, c, i, prev, cur, k - 1);
      CellStep(s1, s2, c, i, k);
    }
  }

  lemma FirstRowIsRow(s1: string, s2: string, c: Costs, row: seq<int>)
    requires IsFirstRow(s2, row)
    ensures IsRow(s1, s2, c, 0, row)
  {
  }

  /** A table built row by row, each row from the one above, ends in the
      distance. */
  lemma ChainedRowsGiveDistance(s1: string, s2: string, c: Costs, rows: seq<seq<int>>)
    requires |rows| == |s1| + 1
    requires IsFirstRow(s2, rows[0])
    requires forall i {:trigger rows[i]} :: 0 < i <= |s1| ==> IsNextRow(s1, s2, c, i, rows[i - 1], rows[i])
    ensures |rows[|s1|]| == |s2| + 1 && rows[|s1|][|s2|] == Distance(s1, s2, c)
  {
    ChainedRows(s1, s2, c, rows, |s1|);
  }

  lemma {:induction false} ChainedRows(s1: string, s2: string, c: Costs, rows: seq<seq<int>>, i: int)
    requires 0 <= i <= |s1| && |rows| == |s1| + 1
    requires IsFirstRow(s2, rows[0])
    requires forall i {:trigger rows[i]} :: 0 < i <= |s1| ==> IsNextRow(s1, s2, c, i, rows[i - 1], rows[i])
    ensures IsRow(s1, s2, c, i, rows[i])
    decreases i
  {
    if i == 0 {
      FirstRowIsRow(s1, s2, c, rows[0]);
    } else {
      ChainedRows(s1, s2, c, rows, i - 1);
      NextRowIsRow(s1, s2, c, i, rows[i - 1], rows[i]);
    }
  }
}
