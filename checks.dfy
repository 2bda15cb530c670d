/// What the debug checkers `ensure_rows_ordered`, `ensure_columns_same_value`
/// and `ensure_invariants` (src/lib.rs:256-309) assert, stated on the grid,
/// and the proof that every valid grid passes them.

module Checks {
  import opened Options
  import opened NodeValues
  import opened Tables
  import opened Grid

  /** `a < b` on two cell values as the checkers evaluate it: `partial_cmp`
      answers `Less`. Where it reaches `unreachable!()` the check fails. */
  predicate InOrder(a: NodeValue, b: NodeValue) {
    Comparable(a, b) && CompareNodes(a, b) == Less
  }

  /** What `ensure_rows_ordered` asserts of one row: every cell is below its
      right neighbour. */
  predicate OrderedRow(row: Row) {
    forall j | 0 <= j < |row| - 1 :: InOrder(row[j], row[j + 1])
  }

  /** The intended strict order between neighbours. */
  predicate StrictRow(row: Row) {
    forall j | 0 <= j < |row| - 1 :: ExtLess(row[j], row[j + 1])
  }

  // ---------------------------------------------------------------------
  // The shape the checkers walk: rows linked left to right, the sentinel
  // column linked top to bottom, every `down` link into the next row.

  /** A `down` link of a cell of row `r` leads into row `r + 1`. */
  ghost predicate DownIn(nodes: seq<Node>, g: Layout, k: nat, r: nat)
    requires k < |nodes| && r < |g.rows|
  {
    nodes[k].down.Some? ==> r + 1 < |g.rows| && InRow(nodes, g, nodes[k].down.value, r + 1)
  }

  /** Row `r` has a head and a next cell; its head links down to the next
      row's head, on the bottom row to none. */
  ghost predicate HeadDown(nodes: seq<Node>, g: Layout, r: nat) {
    && r < |g.rows| && |g.rows[r]| >= 2 && g.rows[r][0] < |nodes|
    && (r + 1 < |g.rows| ==> |g.rows[r + 1]| >= 2 && nodes[g.rows[r][0]].down == Some(g.rows[r + 1][0]))
    && (r + 1 == |g.rows| ==> nodes[g.rows[r][0]].down == None)
  }

  ghost predicate Framed(nodes: seq<Node>, g: Layout) {
    && |g.rows| >= 1
    && Placed(nodes, g)
    && Linked(nodes, g)
    && (forall r | 0 <= r < |g.rows| :: HeadDown(nodes, g, r))
    && (forall r, i {:trigger DownIn(nodes, g, g.rows[r][i], r)} | 0 <= r < |g.rows| && 0 <= i < |g.rows[r]| ::
          DownIn(nodes, g, g.rows[r][i], r))
  }

  /** Every cell below node `k` of row `r`, down its column, holds `v`. */
  ghost predicate SameBelow(nodes: seq<Node>, g: Layout, k: nat, r: nat, v: NodeValue)
    requires Framed(nodes, g) && InRow(nodes, g, k, r)
    decreases |g.rows| - r
  {
    match nodes[k].down
    case None => true
    case Some(d) =>
      assert DownIn(nodes, g, g.rows[r][g.posOf[k]], r);
      nodes[d].value == v && SameBelow(nodes, g, d, r + 1, v)
  }

  /** What `ensure_columns_same_value` asserts of row `r`: below each cell
      that has a right neighbour, the column holds that cell's value. */
  ghost predicate RowColumnsSame(nodes: seq<Node>, g: Layout, r: nat)
    requires Framed(nodes, g) && r < |g.rows|
  {
    forall i | 0 <= i < |g.rows[r]| - 1 :: SameBelow(nodes, g, g.rows[r][i], r, nodes[g.rows[r][i]].value)
  }

  ghost predicate ColumnsSame(nodes: seq<Node>, g: Layout)
    requires Framed(nodes, g)
  {
    forall r | 0 <= r < |g.rows| :: RowColumnsSame(nodes, g, r)
  }

  /** What `ensure_rows_ordered` asserts: every row is ordered. */
  ghost predicate RowsOrdered(nodes: seq<Node>, g: Layout)
    requires Placed(nodes, g)
  {
    forall r | 0 <= r < |g.rows| :: OrderedRow(TableOf(nodes, g)[r])
  }

  /** The first assertion of `ensure_invariants`: the top-left sentinel's
      right neighbour is PosInf. */
  ghost predicate TopClosed(nodes: seq<Node>, g: Layout)
    requires Framed(nodes, g)
  {
    HeadDown(nodes, g, 0) && TableOf(nodes, g)[0][1] == PosInf
  }

  // ---------------------------------------------------------------------
  // A valid grid passes every check.

  /** A valid grid has the shape the checkers walk. */
  lemma {:induction false} ValidFramed(nodes: seq<Node>, g: Layout)
    requires Valid(nodes, g)
    ensures Framed(nodes, g)
  {
    forall r | 0 <= r < |g.rows|
      ensures HeadDown(nodes, g, r)
    {
      HeadAt(nodes, g, r);
    }
    forall r, i | 0 <= r < |g.rows| && 0 <= i < |g.rows[r]|
      ensures DownIn(nodes, g, g.rows[r][i], r)
    {
      assert DownOk(nodes, g, g.rows[r][i], r, i);
    }
  }

  /** A sentinel row is ordered both as the checker reads it and in the
      intended strict order. */
  lemma {:induction false} SentinelRowOrdered(row: Row)
    requires SentinelRow(row)
    ensures OrderedRow(row) && StrictRow(row)
  {
    forall j | 0 <= j < |row| - 1
      ensures InOrder(row[j], row[j + 1]) && ExtLess(row[j], row[j + 1])
    {
      if 0 < j && j + 1 < |row| - 1 {
        assert row[j].v < row[j + 1].v;
      }
    }
  }

  /** Below a cell that is not the last of its row, a valid grid's column
      holds the cell's value. */
  lemma {:induction false} ValidSameBelow(nodes: seq<Node>, g: Layout, k: nat, r: nat)
    requires Valid(nodes, g) && Framed(nodes, g) && InRow(nodes, g, k, r) && g.posOf[k] + 1 < |g.rows[r]|
    ensures SameBelow(nodes, g, k, r, nodes[k].value)
    decreases |g.rows| - r
  {
    DownAt(nodes, g, r, k);
    if r + 1 < |g.rows| {
      var d := nodes[k].down.value;
      CellAt(nodes, g, r, k);
      CellAt(nodes, g, r + 1, d);
      ValidSameBelow(nodes, g, d, r + 1);
    }
  }

  lemma {:induction false} ValidColumns(nodes: seq<Node>, g: Layout)
    requires Valid(nodes, g) && Framed(nodes, g)
    ensures ColumnsSame(nodes, g)
  {
    forall r, i | 0 <= r < |g.rows| && 0 <= i < |g.rows[r]| - 1
      ensures SameBelow(nodes, g, g.rows[r][i], r, nodes[g.rows[r][i]].value)
    {
      ValidSameBelow(nodes, g, g.rows[r][i], r);
    }
  }

  /** `ensure_invariants` never fires on a valid grid. */
  lemma {:induction false} ValidPasses(nodes: seq<Node>, g: Layout)
    requires Valid(nodes, g)
    ensures Framed(nodes, g)
    ensures TopClosed(nodes, g) && RowsOrdered(nodes, g) && ColumnsSame(nodes, g)
  {
    ValidFramed(nodes, g);
    ValidColumns(nodes, g);
    var t := TableOf(nodes, g);
    forall r | 0 <= r < |g.rows|
      ensures OrderedRow(t[r])
    {
      SentinelRowOrdered(t[r]);
    }
    assert HeadDown(nodes, g, 0);
  }

  // ---------------------------------------------------------------------
  // The comparison of two sentinels.

  /** As written, `partial_cmp` calls NegInf less than NegInf (and PosInf
      less than PosInf), although the derived `==` calls them equal; so the
      rows check passes a row that repeats its sentinel. */
  lemma {:induction false} RepeatedSentinelPasses()
    ensures CompareNodes(NegInf, NegInf) == Less && CompareNodes(PosInf, PosInf) == Less
    ensures var row := [NegInf, NegInf, PosInf]; OrderedRow(row) && !StrictRow(row) && !SentinelRow(row)
  {
    var row := [NegInf, NegInf, PosInf];
    assert !ExtLess(row[0], row[1]);
  }

  /** With the intended strict order the rows check is exact: a row between
      its two sentinels is ordered neighbour by neighbour exactly when it is
      a sentinel row. */
  lemma {:induction false} StrictRowIsSentinelRow(row: Row)
    ensures SentinelRow(row) <==> |row| >= 2 && row[0] == NegInf && row[|row| - 1] == PosInf && StrictRow(row)
  {
    if SentinelRow(row) {
      SentinelRowOrdered(row);
    } else if |row| >= 2 && row[0] == NegInf && row[|row| - 1] == PosInf && StrictRow(row) {
      forall i | 0 < i < |row| - 1
        ensures row[i].Value?
      {
        assert ExtLess(row[i - 1], row[i]) && ExtLess(row[i], row[i + 1]);
      }
      forall i, j | 0 < i < j < |row| - 1
        ensures row[i].v < row[j].v
      {
        StrictChain(row, i, j);
      }
      assert SentinelRow(row);
    }
  }

  /** Neighbour by neighbour increasing elements increase all the way. */
  lemma {:induction false} StrictChain(row: Row, i: nat, j: nat)
    requires StrictRow(row) && 0 < i < j < |row| - 1
    requires forall m | 0 < m < |row| - 1 :: row[m].Value?
    ensures row[i].v < row[j].v
    decreases j - i
  {
    assert ExtLess(row[j - 1], row[j]);
    if i < j - 1 {
      StrictChain(row, i, j - 1);
    }
  }
}
