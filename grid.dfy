/// The node grid of src/lib.rs as an arena: the concrete representation
/// invariant (the one `ensure_invariants` checks, src/lib.rs:256-309) and
/// the steps `add_levels` and `insert` take on it.

module Grid {
  import opened Options
  import opened NodeValues
  import opened Tables

  /** Where each arena node sits: `rows[r]` lists the arena indices of row `r`
      from left to right, top row first; node `k` is the `posOf[k]`-th cell
      of row `rowOf[k]`. Proof-only bookkeeping. */
  datatype Layout = Layout(rows: seq<seq<nat>>, rowOf: seq<nat>, posOf: seq<nat>)

  /** Every cell of every row is a distinct arena node. */
  ghost predicate Placed(nodes: seq<Node>, g: Layout) {
    && |g.rowOf| == |nodes|
    && |g.posOf| == |nodes|
    && (forall r, i | 0 <= r < |g.rows| && 0 <= i < |g.rows[r]| ::
          g.rows[r][i] < |nodes| && g.rowOf[g.rows[r][i]] == r && g.posOf[g.rows[r][i]] == i)
  }

  /** Node `k` is a cell of row `r`. */
  ghost predicate InRow(nodes: seq<Node>, g: Layout, k: nat, r: nat) {
    && k < |nodes| && k < |g.posOf|
    && r < |g.rows| && g.posOf[k] < |g.rows[r]| && g.rows[r][g.posOf[k]] == k
  }

  /** `right` links run along each row and stop at its last cell. */
  ghost predicate Linked(nodes: seq<Node>, g: Layout)
    requires Placed(nodes, g)
  {
    forall r, i {:trigger LinkOk(nodes, g, g.rows[r][i], r, i)} | 0 <= r < |g.rows| && 0 <= i < |g.rows[r]| ::
      LinkOk(nodes, g, g.rows[r][i], r, i)
  }

  /** The `right` link of cell `i` of row `r`: the next cell, or none after
      the last. */
  ghost predicate LinkOk(nodes: seq<Node>, g: Layout, k: nat, r: nat, i: nat)
    requires k < |nodes| && r < |g.rows|
  {
    nodes[k].right == if i + 1 < |g.rows[r]| then Some(g.rows[r][i + 1]) else None
  }

  /** The `down` link of cell `i` of row `r`: every cell but the last of a
      row other than the bottom one links to a cell of the next row holding
      the same value (a column holds one value); the others have none. */
  ghost predicate DownOk(nodes: seq<Node>, g: Layout, k: nat, r: nat, i: nat)
    requires k < |nodes| && r < |g.rows|
  {
    if r + 1 < |g.rows| && i + 1 < |g.rows[r]| then
      && nodes[k].down.Some?
      && InRow(nodes, g, nodes[k].down.value, r + 1)
      && nodes[nodes[k].down.value].value == nodes[k].value
    else
      nodes[k].down == None
  }

  ghost predicate DownLinked(nodes: seq<Node>, g: Layout)
    requires Placed(nodes, g)
  {
    forall r, i {:trigger DownOk(nodes, g, g.rows[r][i], r, i)} | 0 <= r < |g.rows| && 0 <= i < |g.rows[r]| ::
      DownOk(nodes, g, g.rows[r][i], r, i)
  }

  /** The values along a row of cells. */
  ghost function RowVals(nodes: seq<Node>, row: seq<nat>): (vals: Row)
    requires forall i | 0 <= i < |row| :: row[i] < |nodes|
    ensures |vals| == |row|
    ensures forall i {:trigger vals[i]} | 0 <= i < |row| :: vals[i] == nodes[row[i]].value
  {
    seq(|row|, i requires 0 <= i < |row| => nodes[row[i]].value)
  }

  /** The abstract table the grid stands for. */
  ghost function TableOf(nodes: seq<Node>, g: Layout): (t: Table)
    requires Placed(nodes, g)
    ensures |t| == |g.rows|
    ensures forall r {:trigger t[r]} | 0 <= r < |g.rows| :: t[r] == RowVals(nodes, g.rows[r])
  {
    seq(|g.rows|, r requires 0 <= r < |g.rows| => RowVals(nodes, g.rows[r]))
  }

  /** The links follow the layout: at least one row, every cell placed,
      `right` along the rows and `down` into the row below. */
  ghost predicate Wired(nodes: seq<Node>, g: Layout) {
    && |g.rows| >= 1
    && Placed(nodes, g)
    && Linked(nodes, g)
    && DownLinked(nodes, g)
  }

  /** The representation invariant: the links follow the layout, and the
      table they spell is valid (sorted rows between sentinels, an empty top
      row, each row within the row below). */
  ghost predicate Valid(nodes: seq<Node>, g: Layout) {
    Wired(nodes, g) && TableValid(TableOf(nodes, g))
  }

  /** The grid `pos_neg_pair` starts from: one row, NegInf -> PosInf. */
  lemma {:induction false} FirstRow()
    ensures var nodes := [Node(NegInf, Some(1), None), Node(PosInf, None, None)];
      var g := Layout([[0, 1]], [0, 0], [0, 1]);
      Valid(nodes, g) && TableOf(nodes, g) == [[NegInf, PosInf]]
  {
    var nodes := [Node(NegInf, Some(1), None), Node(PosInf, None, None)];
    var g := Layout([[0, 1]], [0, 0], [0, 1]);
    assert RowVals(nodes, g.rows[0]) == [NegInf, PosInf];
    assert DownOk(nodes, g, g.rows[0][0], 0, 0);
    assert DownOk(nodes, g, g.rows[0][1], 0, 1);
  }

  /** A cell of a row that two layouts share sits at the same place in both. */
  lemma {:induction false} SamePlace(nodes: seq<Node>, g: Layout, row: seq<nat>, k: nat, q: nat, r: nat)
    requires Placed(nodes, g) && r < |g.rows| && g.rows[r] == row
    requires q < |row| && row[q] == k
    ensures InRow(nodes, g, k, r) && g.posOf[k] == q
  {
    assert g.rows[r][q] == k;
  }

  // ---------------------------------------------------------------------
  // add_levels: one new sentinel row below row `i`.

  /** Rows below `i` move one row down. */
  ghost function ShiftRows(rowOf: seq<nat>, i: nat): (s: seq<nat>)
    ensures |s| == |rowOf|
    ensures forall k | 0 <= k < |rowOf| :: s[k] == if rowOf[k] > i then rowOf[k] + 1 else rowOf[k]
  {
    seq(|rowOf|, k requires 0 <= k < |rowOf| => if rowOf[k] > i then rowOf[k] + 1 else rowOf[k])
  }

  /** The layout once the pair `n -> n + 1` becomes row `i + 1`. */
  ghost function AddRow(g: Layout, i: nat, n: nat): Layout
    requires i < |g.rows|
  {
    Layout(g.rows[..i + 1] + [[n, n + 1]] + g.rows[i + 1..], ShiftRows(g.rowOf, i) + [i + 1, i + 1], g.posOf + [0, 1])
  }

  /** What one round of `add_levels`'s loop does to the arena: a fresh pair
      (`pos_neg_pair`) whose left node takes over the `down` link of `c`, the
      left node of row `i`, and becomes `c`'s new `down`. */
  ghost function LinkNewRow(nodes: seq<Node>, c: nat): seq<Node>
    requires c < |nodes|
  {
    var n := |nodes|;
    var pair := nodes + [Node(NegInf, Some(n + 1), None), Node(PosInf, None, None)];
    var linked := pair[n := pair[n].(down := pair[c].down)];
    linked[c := linked[c].(down := Some(n))]
  }

  lemma {:induction false} AddRowStep(nodes: seq<Node>, g: Layout, i: nat)
    requires Valid(nodes, g) && i < |g.rows| && |g.rows[i]| == 2
    ensures var nodes' := LinkNewRow(nodes, g.rows[i][0]); var g' := AddRow(g, i, |nodes|);
      && Valid(nodes', g')
      && TableOf(nodes', g') == TableOf(nodes, g)[..i + 1] + [[NegInf, PosInf]] + TableOf(nodes, g)[i + 1..]
      && g'.rows[i + 1][0] == |nodes|
      && g'.rows[0][0] == g.rows[0][0]
      && |nodes'| == |nodes| + 2
      && (forall k | 0 <= k < |nodes| :: nodes'[k].value == nodes[k].value)
  {
    var nodes' := LinkNewRow(nodes, g.rows[i][0]);
    var g' := AddRow(g, i, |nodes|);
    var t := TableOf(nodes, g);
    assert SentinelRow(t[i]);
    LinkNewRowFacts(nodes, g.rows[i][0]);
    AddRowShape(nodes, g, i);
    AddRowLinked(nodes, g, i);
    AddRowDown(nodes, g, i);
    AddRowTable(nodes, g, i);
    InsertSentinelRowValid(TableOf(nodes, g), i);
  }

  lemma {:induction false} LinkNewRowFacts(nodes: seq<Node>, c: nat)
    requires c < |nodes|
    ensures var n := |nodes|; var nodes' := LinkNewRow(nodes, c);
      && |nodes'| == n + 2
      && nodes'[n] == Node(NegInf, Some(n + 1), nodes[c].down)
      && nodes'[n + 1] == Node(PosInf, None, None)
      && nodes'[c] == nodes[c].(down := Some(n))
      && (forall k | 0 <= k < n && k != c :: nodes'[k] == nodes[k])
      && (forall k | 0 <= k < n :: nodes'[k].right == nodes[k].right && nodes'[k].value == nodes[k].value)
  {
  }

  lemma {:induction false} AddRowRows(g: Layout, i: nat, n: nat)
    requires i < |g.rows|
    ensures var g' := AddRow(g, i, n);
      && |g'.rows| == |g.rows| + 1
      && (forall r | 0 <= r <= i :: g'.rows[r] == g.rows[r])
      && g'.rows[i + 1] == [n, n + 1]
      && (forall r | i + 1 < r < |g'.rows| :: g'.rows[r] == g.rows[r - 1])
  {
  }

  lemma {:induction false} AddRowShape(nodes: seq<Node>, g: Layout, i: nat)
    requires Placed(nodes, g) && i < |g.rows| && |g.rows[i]| == 2
    ensures var n := |nodes|; var nodes' := LinkNewRow(nodes, g.rows[i][0]); var g' := AddRow(g, i, n);
      && Placed(nodes', g')
      && (forall d: nat, r: nat | InRow(nodes, g, d, r) :: InRow(nodes', g', d, if r <= i then r else r + 1))
  {
    var c := g.rows[i][0];
    var n := |nodes|;
    var nodes' := LinkNewRow(nodes, c);
    var g' := AddRow(g, i, n);
    LinkNewRowFacts(nodes, c);
    AddRowRows(g, i, n);
    forall r, j | 0 <= r < |g'.rows| && 0 <= j < |g'.rows[r]|
      ensures g'.rows[r][j] < |nodes'| && g'.rowOf[g'.rows[r][j]] == r && g'.posOf[g'.rows[r][j]] == j
    {
      if r <= i {
        assert g'.rows[r][j] == g.rows[r][j];
      } else if r == i + 1 {
      } else {
        assert g'.rows[r][j] == g.rows[r - 1][j];
      }
    }
    forall d: nat, r: nat | InRow(nodes, g, d, r)
      ensures InRow(nodes', g', d, if r <= i then r else r + 1)
    {
      assert g.rowOf[d] == r;
    }
  }

  lemma {:induction false} AddRowLinked(nodes: seq<Node>, g: Layout, i: nat)
    requires Placed(nodes, g) && Linked(nodes, g) && i < |g.rows| && |g.rows[i]| == 2
    ensures Placed(LinkNewRow(nodes, g.rows[i][0]), AddRow(g, i, |nodes|))
    ensures Linked(LinkNewRow(nodes, g.rows[i][0]), AddRow(g, i, |nodes|))
  {
    AddRowShape(nodes, g, i);
    LinkNewRowFacts(nodes, g.rows[i][0]);
    AddRowRows(g, i, |nodes|);
    var nodes' := LinkNewRow(nodes, g.rows[i][0]);
    var g' := AddRow(g, i, |nodes|);
    forall r, j | 0 <= r < |g'.rows| && 0 <= j < |g'.rows[r]|
      ensures LinkOk(nodes', g', g'.rows[r][j], r, j)
    {
      if r <= i {
        assert g'.rows[r] == g.rows[r];
        assert g.rows[r][j] < |nodes|;
        LinkedAt(nodes, g, r, j);
      } else if r == i + 1 {
      } else {
        assert g'.rows[r] == g.rows[r - 1];
        assert g.rows[r - 1][j] < |nodes|;
        LinkedAt(nodes, g, r - 1, j);
      }
    }
    assert Linked(nodes', g');
  }

  lemma {:induction false} AddRowDown(nodes: seq<Node>, g: Layout, i: nat)
    requires Placed(nodes, g) && DownLinked(nodes, g) && i < |g.rows| && |g.rows[i]| == 2
    requires nodes[g.rows[i][0]].value == NegInf
    ensures Placed(LinkNewRow(nodes, g.rows[i][0]), AddRow(g, i, |nodes|))
    ensures DownLinked(LinkNewRow(nodes, g.rows[i][0]), AddRow(g, i, |nodes|))
  {
    AddRowShape(nodes, g, i);
    var c := g.rows[i][0];
    var n := |nodes|;
    LinkNewRowFacts(nodes, c);
    AddRowRows(g, i, n);
    var nodes' := LinkNewRow(nodes, c);
    var g' := AddRow(g, i, n);
    forall r, j | 0 <= r < |g'.rows| && 0 <= j < |g'.rows[r]|
      ensures DownOk(nodes', g', g'.rows[r][j], r, j)
    {
      if r < i {
        var k := g.rows[r][j];
        assert g'.rows[r][j] == k && k < n && k != c;
        assert DownOk(nodes, g, k, r, j);
        if j + 1 < |g.rows[r]| {
          var d := nodes[k].down.value;
          assert InRow(nodes', g', d, r + 1);
        }
      } else if r == i {
        var k := g.rows[r][j];
        assert g'.rows[r][j] == k && k < n;
        assert DownOk(nodes, g, k, r, j);
        if j == 0 {
          assert InRow(nodes', g', n, i + 1);
        } else {
          assert nodes'[k].down == nodes[k].down;
        }
      } else if r == i + 1 {
        assert DownOk(nodes, g, c, i, 0);
        if j == 0 && r + 1 < |g'.rows| {
          var d := nodes[c].down.value;
          assert InRow(nodes', g', d, i + 2);
        }
      } else {
        var k := g.rows[r - 1][j];
        assert g'.rows[r][j] == k && k < n && k != c;
        assert DownOk(nodes, g, k, r - 1, j);
        if r + 1 < |g'.rows| && j + 1 < |g'.rows[r]| {
          var d := nodes[k].down.value;
          assert InRow(nodes', g', d, r + 1);
        }
      }
    }
    assert DownLinked(nodes', g');
  }

  lemma {:induction false} AddRowTable(nodes: seq<Node>, g: Layout, i: nat)
    requires Placed(nodes, g) && i < |g.rows| && |g.rows[i]| == 2
    requires nodes[g.rows[i][0]].value == NegInf && nodes[g.rows[i][1]].value == PosInf
    ensures Placed(LinkNewRow(nodes, g.rows[i][0]), AddRow(g, i, |nodes|))
    ensures TableOf(LinkNewRow(nodes, g.rows[i][0]), AddRow(g, i, |nodes|))
      == TableOf(nodes, g)[..i + 1] + [[NegInf, PosInf]] + TableOf(nodes, g)[i + 1..]
  {
    AddRowShape(nodes, g, i);
    LinkNewRowFacts(nodes, g.rows[i][0]);
    AddRowRows(g, i, |nodes|);
    var nodes' := LinkNewRow(nodes, g.rows[i][0]);
    var g' := AddRow(g, i, |nodes|);
    var t := TableOf(nodes, g);
    var t' := TableOf(nodes', g');
    var want := t[..i + 1] + [[NegInf, PosInf]] + t[i + 1..];
    forall r | 0 <= r < |t'|
      ensures t'[r] == want[r]
    {
      if r <= i {
      } else if r == i + 1 {
      } else {
        assert g'.rows[r] == g.rows[r - 1];
      }
    }
  }

  // ---------------------------------------------------------------------
  // insert: one new cell spliced into row `r` right of its path node.

  /** Cells of row `r` right of position `q` move one place right. */
  ghost function ShiftPos(posOf: seq<nat>, rowOf: seq<nat>, r: nat, q: nat): (s: seq<nat>)
    requires |rowOf| == |posOf|
    ensures |s| == |posOf|
    ensures forall k | 0 <= k < |posOf| :: s[k] == if rowOf[k] == r && posOf[k] > q then posOf[k] + 1 else posOf[k]
  {
    seq(|posOf|, k requires 0 <= k < |posOf| => if rowOf[k] == r && posOf[k] > q then posOf[k] + 1 else posOf[k])
  }

  /** The layout once node `n` sits at position `q + 1` of row `r`. */
  ghost function SpliceLayout(g: Layout, r: nat, q: nat, n: nat): Layout
    requires r < |g.rows| && q < |g.rows[r]| && |g.rowOf| == |g.posOf|
  {
    Layout(g.rows[r := g.rows[r][..q + 1] + [n] + g.rows[r][q + 1..]],
           g.rowOf + [r],
           ShiftPos(g.posOf, g.rowOf, r, q) + [q + 1])
  }

  /** One round of `insert`'s splicing loop: `make_node(x)`, whose `down`
      becomes `below` and whose `right` becomes the path node `p`'s right,
      and then `p`'s `right` becomes the new node. */
  ghost function SpliceNodes(nodes: seq<Node>, p: nat, x: Elem, below: Option<nat>): seq<Node>
    requires p < |nodes|
  {
    var n := |nodes|;
    var made := nodes + [Node(Value(x), None, None)];
    var withDown := made[n := made[n].(down := below)];
    var linked := withDown[n := withDown[n].(right := withDown[p].right)];
    linked[p := linked[p].(right := Some(n))]
  }

  lemma {:induction false} SpliceNodesFacts(nodes: seq<Node>, p: nat, x: Elem, below: Option<nat>)
    requires p < |nodes|
    ensures var n := |nodes|; var nodes' := SpliceNodes(nodes, p, x, below);
      && |nodes'| == n + 1
      && nodes'[n] == Node(Value(x), nodes[p].right, below)
      && nodes'[p] == nodes[p].(right := Some(n))
      && (forall k | 0 <= k < n && k != p :: nodes'[k] == nodes[k])
      && (forall k | 0 <= k < n :: nodes'[k].down == nodes[k].down && nodes'[k].value == nodes[k].value)
  {
  }

  lemma {:induction false} SpliceRowsFacts(g: Layout, r: nat, q: nat, n: nat)
    requires r < |g.rows| && q + 1 < |g.rows[r]| && |g.rowOf| == |g.posOf|
    ensures var g' := SpliceLayout(g, r, q, n);
      && |g'.rows| == |g.rows|
      && (forall r' | 0 <= r' < |g.rows| && r' != r :: g'.rows[r'] == g.rows[r'])
      && |g'.rows[r]| == |g.rows[r]| + 1
      && (forall j | 0 <= j <= q :: g'.rows[r][j] == g.rows[r][j])
      && g'.rows[r][q + 1] == n
      && (forall j | q + 1 < j < |g'.rows[r]| :: g'.rows[r][j] == g.rows[r][j - 1])
  {
  }

  lemma {:induction false} SpliceShape(nodes: seq<Node>, nodes': seq<Node>, g: Layout, r: nat, q: nat)
    requires Placed(nodes, g) && r < |g.rows| && q + 1 < |g.rows[r]| && |nodes'| == |nodes| + 1
    ensures var g' := SpliceLayout(g, r, q, |nodes|);
      && Placed(nodes', g')
      && InRow(nodes', g', |nodes|, r)
      && g'.posOf[|nodes|] == q + 1
      && (forall d: nat, r': nat | InRow(nodes, g, d, r') ::
            InRow(nodes', g', d, r')
            && g'.posOf[d] == if r' == r && g.posOf[d] > q then g.posOf[d] + 1 else g.posOf[d])
  {
    var n := |nodes|;
    var g' := SpliceLayout(g, r, q, n);
    SpliceRowsFacts(g, r, q, n);
    forall r', j | 0 <= r' < |g'.rows| && 0 <= j < |g'.rows[r']|
      ensures g'.rows[r'][j] < |nodes'| && g'.rowOf[g'.rows[r'][j]] == r' && g'.posOf[g'.rows[r'][j]] == j
    {
      if r' != r {
        assert g'.rows[r'][j] == g.rows[r'][j];
      } else if j <= q {
        assert g'.rows[r'][j] == g.rows[r'][j];
      } else if j == q + 1 {
      } else {
        assert g'.rows[r'][j] == g.rows[r'][j - 1];
      }
    }
    forall d: nat, r': nat | InRow(nodes, g, d, r')
      ensures InRow(nodes', g', d, r')
      ensures g'.posOf[d] == if r' == r && g.posOf[d] > q then g.posOf[d] + 1 else g.posOf[d]
    {
      assert g.rowOf[d] == r';
    }
  }

  lemma LinkedAt(nodes: seq<Node>, g: Layout, r: int, i: int)
    requires Placed(nodes, g) && Linked(nodes, g)
    requires 0 <= r < |g.rows| && 0 <= i < |g.rows[r]|
    ensures nodes[g.rows[r][i]].right == if i + 1 < |g.rows[r]| then Some(g.rows[r][i + 1]) else None
  {
    assert LinkOk(nodes, g, g.rows[r][i], r, i);
  }

  lemma {:induction false} SpliceLinked(nodes: seq<Node>, g: Layout, r: nat, p: nat, x: Elem, below: Option<nat>)
    requires Placed(nodes, g) && Linked(nodes, g) && InRow(nodes, g, p, r) && g.posOf[p] + 1 < |g.rows[r]|
    ensures var nodes' := SpliceNodes(nodes, p, x, below); var g' := SpliceLayout(g, r, g.posOf[p], |nodes|);
      Placed(nodes', g') && Linked(nodes', g')
  {
    var q := g.posOf[p];
    var n := |nodes|;
    var nodes' := SpliceNodes(nodes, p, x, below);
    var g' := SpliceLayout(g, r, q, n);
    SpliceNodesFacts(nodes, p, x, below);
    SpliceRowsFacts(g, r, q, n);
    SpliceShape(nodes, nodes', g, r, q);
    forall r', j | 0 <= r' < |g'.rows| && 0 <= j < |g'.rows[r']|
      ensures LinkOk(nodes', g', g'.rows[r'][j], r', j)
    {
      if r' != r {
        var k := g.rows[r'][j];
        assert g'.rows[r'] == g.rows[r'];
        LinkedAt(nodes, g, r', j);
        assert k < n && k != p;
      } else if j < q {
        var k := g.rows[r][j];
        assert g'.rows[r][j] == k && g'.rows[r][j + 1] == g.rows[r][j + 1];
        assert k < n && k != p;
        LinkedAt(nodes, g, r, j);
      } else if j == q {
        assert g'.rows[r][j] == p;
      } else if j == q + 1 {
        assert g'.rows[r][q + 2] == g.rows[r][q + 1];
        LinkedAt(nodes, g, r, q);
      } else {
        var k := g.rows[r][j - 1];
        assert g'.rows[r][j] == k && k < n && k != p;
        LinkedAt(nodes, g, r, j - 1);
        if j + 1 < |g'.rows[r]| {
          assert g'.rows[r][j + 1] == g.rows[r][j];
        }
      }
    }
    assert Linked(nodes', g');
  }

  lemma {:induction false} SpliceDown(nodes: seq<Node>, g: Layout, r: nat, p: nat, x: Elem, below: Option<nat>)
    requires Placed(nodes, g) && DownLinked(nodes, g) && InRow(nodes, g, p, r) && g.posOf[p] + 1 < |g.rows[r]|
    requires if r + 1 < |g.rows| then below.Some? && InRow(nodes, g, below.value, r + 1) && nodes[below.value].value == Value(x)
             else below == None
    ensures var nodes' := SpliceNodes(nodes, p, x, below); var g' := SpliceLayout(g, r, g.posOf[p], |nodes|);
      Placed(nodes', g') && DownLinked(nodes', g')
  {
    var nodes' := SpliceNodes(nodes, p, x, below);
    var g' := SpliceLayout(g, r, g.posOf[p], |nodes|);
    SpliceNodesFacts(nodes, p, x, below);
    SpliceShape(nodes, nodes', g, r, g.posOf[p]);
    forall r', j | 0 <= r' < |g'.rows| && 0 <= j < |g'.rows[r']|
      ensures DownOk(nodes', g', g'.rows[r'][j], r', j)
    {
      SpliceDownCell(nodes, g, r, p, x, below, r', j);
    }
    assert DownLinked(nodes', g');
  }

  lemma {:induction false} SpliceDownCell(nodes: seq<Node>, g: Layout, r: nat, p: nat, x: Elem, below: Option<nat>, r': nat, j: nat)
    requires Placed(nodes, g) && DownLinked(nodes, g) && InRow(nodes, g, p, r) && g.posOf[p] + 1 < |g.rows[r]|
    requires if r + 1 < |g.rows| then below.Some? && InRow(nodes, g, below.value, r + 1) && nodes[below.value].value == Value(x)
             else below == None
    requires r' < |g.rows| && j < |SpliceLayout(g, r, g.posOf[p], |nodes|).rows[r']|
    ensures var nodes' := SpliceNodes(nodes, p, x, below); var g' := SpliceLayout(g, r, g.posOf[p], |nodes|);
      Placed(nodes', g') && DownOk(nodes', g', g'.rows[r'][j], r', j)
  {
    var q := g.posOf[p];
    var n := |nodes|;
    var nodes' := SpliceNodes(nodes, p, x, below);
    var g' := SpliceLayout(g, r, q, n);
    SpliceNodesFacts(nodes, p, x, below);
    SpliceRowsFacts(g, r, q, n);
    SpliceShape(nodes, nodes', g, r, q);
    if r' == r && j == q + 1 {
      if r + 1 < |g.rows| {
        assert InRow(nodes', g', below.value, r + 1);
      }
    } else {
      var j0 := if r' == r && j > q + 1 then j - 1 else j;
      var k := g.rows[r'][j0];
      assert g'.rows[r'][j] == k && k < n;
      assert DownOk(nodes, g, k, r', j0);
      assert nodes'[k].down == nodes[k].down;
      assert (j + 1 < |g'.rows[r']|) == (j0 + 1 < |g.rows[r']|);
      if r' + 1 < |g.rows| && j0 + 1 < |g.rows[r']| {
        var d := nodes[k].down.value;
        assert InRow(nodes', g', d, r' + 1);
      }
    }
  }

  lemma {:induction false} SpliceTable(nodes: seq<Node>, g: Layout, r: nat, p: nat, x: Elem, below: Option<nat>)
    requires Placed(nodes, g) && InRow(nodes, g, p, r) && g.posOf[p] + 1 < |g.rows[r]|
    ensures var nodes' := SpliceNodes(nodes, p, x, below); var g' := SpliceLayout(g, r, g.posOf[p], |nodes|);
      var t := TableOf(nodes, g); var q := g.posOf[p];
      && Placed(nodes', g')
      && TableOf(nodes', g') == t[r := t[r][..q + 1] + [Value(x)] + t[r][q + 1..]]
  {
    var q := g.posOf[p];
    var nodes' := SpliceNodes(nodes, p, x, below);
    var g' := SpliceLayout(g, r, q, |nodes|);
    SpliceNodesFacts(nodes, p, x, below);
    SpliceShape(nodes, nodes', g, r, q);
    var t := TableOf(nodes, g);
    var t' := TableOf(nodes', g');
    var want := t[r := t[r][..q + 1] + [Value(x)] + t[r][q + 1..]];
    forall r' | 0 <= r' < |t'|
      ensures t'[r'] == want[r']
    {
      if r' != r {
        SpliceTableOther(nodes, g, r, p, x, below, r');
      } else {
        SpliceTableRow(nodes, g, r, p, x, below);
      }
    }
    assert t' == want;
  }

  lemma {:induction false} SpliceTableOther(nodes: seq<Node>, g: Layout, r: nat, p: nat, x: Elem, below: Option<nat>, r': nat)
    requires Placed(nodes, g) && InRow(nodes, g, p, r) && g.posOf[p] + 1 < |g.rows[r]|
    requires r' < |g.rows| && r' != r
    ensures var nodes' := SpliceNodes(nodes, p, x, below); var g' := SpliceLayout(g, r, g.posOf[p], |nodes|);
      && Placed(nodes', g')
      && TableOf(nodes', g')[r'] == TableOf(nodes, g)[r']
  {
    var q := g.posOf[p];
    var nodes' := SpliceNodes(nodes, p, x, below);
    var g' := SpliceLayout(g, r, q, |nodes|);
    SpliceNodesFacts(nodes, p, x, below);
    SpliceRowsFacts(g, r, q, |nodes|);
    SpliceShape(nodes, nodes', g, r, q);
    assert g'.rows[r'] == g.rows[r'];
  }

  lemma {:induction false} SpliceTableRow(nodes: seq<Node>, g: Layout, r: nat, p: nat, x: Elem, below: Option<nat>)
    requires Placed(nodes, g) && InRow(nodes, g, p, r) && g.posOf[p] + 1 < |g.rows[r]|
    ensures var nodes' := SpliceNodes(nodes, p, x, below); var g' := SpliceLayout(g, r, g.posOf[p], |nodes|);
      var row := TableOf(nodes, g)[r]; var q := g.posOf[p];
      && Placed(nodes', g')
      && TableOf(nodes', g')[r] == row[..q + 1] + [Value(x)] + row[q + 1..]
  {
    var q := g.posOf[p];
    var nodes' := SpliceNodes(nodes, p, x, below);
    var g' := SpliceLayout(g, r, q, |nodes|);
    SpliceNodesFacts(nodes, p, x, below);
    SpliceRowsFacts(g, r, q, |nodes|);
    SpliceShape(nodes, nodes', g, r, q);
    RowValsSplice(nodes, nodes', g.rows[r], q, x);
  }

  /** The values along a row of cells with one new cell spliced in. */
  lemma {:induction false} RowValsSplice(nodes: seq<Node>, nodes': seq<Node>, cells: seq<nat>, q: nat, x: Elem)
    requires q < |cells| && |nodes'| == |nodes| + 1
    requires forall i | 0 <= i < |cells| :: cells[i] < |nodes|
    requires forall k | 0 <= k < |nodes| :: nodes'[k].value == nodes[k].value
    requires nodes'[|nodes|].value == Value(x)
    ensures var vals := RowVals(nodes, cells);
      RowVals(nodes', cells[..q + 1] + [|nodes|] + cells[q + 1..]) == vals[..q + 1] + [Value(x)] + vals[q + 1..]
  {
    var cells' := cells[..q + 1] + [|nodes|] + cells[q + 1..];
    var vals := RowVals(nodes, cells);
    var vals' := RowVals(nodes', cells');
    var want := vals[..q + 1] + [Value(x)] + vals[q + 1..];
    forall j | 0 <= j < |vals'|
      ensures vals'[j] == want[j]
    {
      if j <= q {
        assert cells'[j] == cells[j] && want[j] == vals[j];
      } else if j > q + 1 {
        assert cells'[j] == cells[j - 1] && want[j] == vals[j - 1];
      }
    }
  }

  /** One round of `insert`'s splicing loop keeps the links following the
      layout and splices `x` into row `r` of the table, right after the path
      node `p`; the other rows stay as they are. */
  lemma {:induction false} SpliceStep(nodes: seq<Node>, g: Layout, r: nat, p: nat, x: Elem, below: Option<nat>)
    requires Wired(nodes, g) && InRow(nodes, g, p, r) && g.posOf[p] + 1 < |g.rows[r]|
    requires if r + 1 < |g.rows| then below.Some? && InRow(nodes, g, below.value, r + 1) && nodes[below.value].value == Value(x)
             else below == None
    ensures var nodes' := SpliceNodes(nodes, p, x, below); var g' := SpliceLayout(g, r, g.posOf[p], |nodes|);
      var t := TableOf(nodes, g); var q := g.posOf[p];
      && Wired(nodes', g')
      && TableOf(nodes', g') == t[r := t[r][..q + 1] + [Value(x)] + t[r][q + 1..]]
      && |nodes'| == |nodes| + 1
      && |g'.rows| == |g.rows|
      && (forall r' | 0 <= r' < |g.rows| && r' != r :: g'.rows[r'] == g.rows[r'])
      && InRow(nodes', g', |nodes|, r)
      && nodes'[|nodes|].value == Value(x)
  {
    SpliceNodesFacts(nodes, p, x, below);
    SpliceRowsFacts(g, r, g.posOf[p], |nodes|);
    SpliceLinked(nodes, g, r, p, x, below);
    SpliceDown(nodes, g, r, p, x, below);
    SpliceTable(nodes, g, r, p, x, below);
  }

  /** The state after `i` rounds of the splicing loop that started from a
      grid with rows `rows0` and `n0` nodes: the links follow the layout,
      the grid spells `t`, the rows above the bottom `i` are untouched, and
      the newest node holds `x` in the lowest row visited so far. */
  ghost predicate Rounded(t: Table, rows0: seq<seq<nat>>, n0: nat, x: Elem, i: nat, nodes: seq<Node>, g: Layout) {
    && Wired(nodes, g)
    && TableOf(nodes, g) == t
    && |nodes| == n0 + i
    && |g.rows| == |rows0| && i <= |rows0|
    && (forall r | 0 <= r < |rows0| - i :: g.rows[r] == rows0[r])
    && (i > 0 ==> InRow(nodes, g, n0 + i - 1, |rows0| - i) && nodes[n0 + i - 1].value == Value(x))
  }

  /** Round `i` of the splicing loop: splicing a node holding `x` in right
      of `p`, cell `q` of row `|rows0| - 1 - i`, splices `x` into that row of
      the table right after position `q`. */
  lemma {:induction false} SpliceRound(t: Table, t': Table, rows0: seq<seq<nat>>, n0: nat, x: Elem, i: nat,
                                       prev: seq<Node>, gp: Layout, p: nat, q: nat)
    requires i < |rows0|
    requires var r := |rows0| - 1 - i; q + 1 < |rows0[r]| && rows0[r][q] == p
    requires Rounded(t, rows0, n0, x, i, prev, gp)
    requires var r := |rows0| - 1 - i; r < |t| && q + 1 < |t[r]| && t' == t[r := t[r][..q + 1] + [Value(x)] + t[r][q + 1..]]
    ensures var r := |rows0| - 1 - i;
      && p < |prev| && r < |gp.rows| && p < |gp.posOf| && gp.posOf[p] == q && q < |gp.rows[r]| && |gp.rowOf| == |gp.posOf|
      && Rounded(t', rows0, n0, x, i + 1,
                 SpliceNodes(prev, p, x, if i == 0 then None else Some(n0 + i - 1)),
                 SpliceLayout(gp, r, q, |prev|))
  {
    var r := |rows0| - 1 - i;
    SamePlace(prev, gp, rows0[r], p, q, r);
    SpliceStep(prev, gp, r, p, x, if i == 0 then None else Some(n0 + i - 1));
  }

  /** Row `r`'s entry of `path` is the cell of that row, in `g`, at which
      the search for `x` turns down; it is not the row's last cell. */
  ghost predicate PathCell(t: Table, g: Layout, x: Elem, path: seq<nat>, r: nat)
    requires r < |path| && r < |t|
  {
    && path[r] < |g.posOf| && r < |g.rows| && g.posOf[path[r]] + 1 < |g.rows[r]|
    && g.rows[r][g.posOf[path[r]]] == path[r]
    && g.posOf[path[r]] + 1 == CountWhile(t[r], Below(x))
  }

  /** Before the first round: the grid itself, and the search path for `x`. */
  lemma {:induction false} RoundsStart(nodes: seq<Node>, g: Layout, x: Elem)
    requires Valid(nodes, g)
    ensures var t := TableOf(nodes, g); var path := LeftPath(nodes, g, x);
      && Rounded(t, g.rows, |nodes|, x, 0, nodes, g)
      && |path| == |t| == |g.rows|
      && forall r | 0 <= r < |t| :: PathCell(t, g, x, path, r)
  {
    LeftPathFacts(nodes, g, x);
  }

  /** One round of the splicing loop, stated against the table: after `i`
      rounds the grid spells the table with `x` spliced into its bottom `i`
      rows; splicing a node in right of the path's node in the next row up,
      with `below` the node made in the round before, makes that `i + 1`
      rows. */
  lemma {:induction false} SpliceRowsStep(t: Table, g0: Layout, n0: nat, x: Elem, path: seq<nat>, i: nat,
                                          nodes: seq<Node>, g: Layout, below: Option<nat>)
    requires |path| == |t| && i < |t|
    requires i == 0 ==> below.None?
    requires i > 0 ==> below.Some? && below.value == n0 + i - 1
    requires forall r | 0 <= r < |t| :: PathCell(t, g0, x, path, r)
    requires Rounded(SpliceBottom(t, x, i), g0.rows, n0, x, i, nodes, g)
    ensures var r := |t| - 1 - i; var p := path[r];
      && |nodes| == n0 + i
      && p < |nodes| && p < |g0.posOf| && r < |g.rows| && g0.posOf[p] < |g.rows[r]|
      && Rounded(SpliceBottom(t, x, i + 1), g0.rows, n0, x, i + 1,
                 SpliceNodes(nodes, p, x, below),
                 SpliceLayout(g, r, g0.posOf[p], |nodes|))
  {
    var r := |t| - 1 - i;
    var p := path[r];
    assert PathCell(t, g0, x, path, r);
    var q := g0.posOf[p];
    SpliceBottomNext(t, x, i);
    assert Splice(t[r], x) == t[r][..q + 1] + [Value(x)] + t[r][q + 1..];
    assert below == if i == 0 then None else Some(n0 + i - 1);
    SpliceRound(SpliceBottom(t, x, i), SpliceBottom(t, x, i + 1), g0.rows, n0, x, i, nodes, g, p, q);
  }

  // ---------------------------------------------------------------------
  // The left-biased search: where a descent that moves right while the
  // right neighbour satisfies a monotone `pred` stops in each row.

  /** The cell of row `r` at which the search for `pred` turns down. */
  ghost function StopNode(nodes: seq<Node>, g: Layout, r: nat, pred: NodeValue -> bool): (k: nat)
    requires Valid(nodes, g) && r < |g.rows| && Monotone(pred)
    ensures InRow(nodes, g, k, r)
    ensures g.posOf[k] + 1 == CountWhile(TableOf(nodes, g)[r], pred)
  {
    CountWhileExact(TableOf(nodes, g)[r], pred);
    g.rows[r][CountWhile(TableOf(nodes, g)[r], pred) - 1]
  }

  /** The nodes LeftBiasIter yields while searching for `x`: one per row,
      top row first. */
  ghost function LeftPath(nodes: seq<Node>, g: Layout, x: Elem): (path: seq<nat>)
    requires Valid(nodes, g)
    ensures |path| == |g.rows|
    ensures forall r | 0 <= r < |path| :: path[r] == StopNode(nodes, g, r, Below(x))
  {
    MonotoneBelow(x);
    seq(|g.rows|, r requires 0 <= r < |g.rows| => StopNode(nodes, g, r, Below(x)))
  }

  /** The search path has one node per row, each below `x` with a right
      neighbour that is not; the last one is on the bottom row. */
  lemma {:induction false} LeftPathFacts(nodes: seq<Node>, g: Layout, x: Elem)
    requires Valid(nodes, g)
    ensures var path := LeftPath(nodes, g, x);
      && |path| == |g.rows|
      && InRow(nodes, g, path[|path| - 1], |g.rows| - 1)
      && forall r | 0 <= r < |path| ::
           && InRow(nodes, g, path[r], r)
           && LessItem(nodes[path[r]].value, x)
           && nodes[path[r]].right.Some? && nodes[path[r]].right.value < |nodes|
           && !LessItem(nodes[nodes[path[r]].right.value].value, x)
  {
    var path := LeftPath(nodes, g, x);
    var t := TableOf(nodes, g);
    MonotoneBelow(x);
    forall r | 0 <= r < |path|
      ensures InRow(nodes, g, path[r], r)
      ensures LessItem(nodes[path[r]].value, x)
      ensures nodes[path[r]].right.Some? && nodes[path[r]].right.value < |nodes|
      ensures !LessItem(nodes[nodes[path[r]].right.value].value, x)
    {
      var i := g.posOf[path[r]];
      CountWhileExact(t[r], Below(x));
      assert t[r][i] == nodes[path[r]].value;
      LinkedAt(nodes, g, r, i);
      assert t[r][i + 1] == nodes[g.rows[r][i + 1]].value;
    }
  }

  /** The last node of the search path for `x` has a right neighbour, the
      bottom row's first cell not below `x`. */
  lemma {:induction false} LastStop(nodes: seq<Node>, g: Layout, x: Elem)
    requires Valid(nodes, g)
    ensures var k := LeftPath(nodes, g, x)[|g.rows| - 1]; var row := Bottom(TableOf(nodes, g));
      && CountWhile(row, Below(x)) < |row|
      && nodes[k].right.Some? && nodes[k].right.value < |nodes|
      && nodes[nodes[k].right.value].value == row[CountWhile(row, Below(x))]
  {
    var r := |g.rows| - 1;
    var k := LeftPath(nodes, g, x)[r];
    var t := TableOf(nodes, g);
    MonotoneBelow(x);
    CountWhileExact(t[r], Below(x));
    CellAt(nodes, g, r, k);
    var j := g.rows[r][g.posOf[k] + 1];
    assert t[r][g.posOf[k] + 1] == nodes[j].value;
  }

  /** One move of a left-biased search standing on cell `k` of row `r`,
      whose value satisfies `pred`: the right neighbour exists; if it fails
      `pred`, `k` is the row's stop node; and the `down` link leads to a cell
      of the next row with the same value, or is absent on the bottom row. */
  lemma {:induction false} SearchMove(nodes: seq<Node>, g: Layout, r: nat, k: nat, pred: NodeValue -> bool)
    requires Valid(nodes, g) && InRow(nodes, g, k, r) && Monotone(pred) && pred(nodes[k].value)
    ensures g.posOf[k] + 1 < |g.rows[r]|
    ensures nodes[k].right == Some(g.rows[r][g.posOf[k] + 1])
    ensures InRow(nodes, g, g.rows[r][g.posOf[k] + 1], r)
    ensures !pred(nodes[nodes[k].right.value].value) ==> k == StopNode(nodes, g, r, pred)
    ensures r + 1 < |g.rows| ==>
      && nodes[k].down.Some?
      && InRow(nodes, g, nodes[k].down.value, r + 1)
      && nodes[nodes[k].down.value].value == nodes[k].value
    ensures r + 1 == |g.rows| ==> nodes[k].down == None
  {
    var t := TableOf(nodes, g);
    var i := g.posOf[k];
    CountWhileExact(t[r], pred);
    assert t[r][i] == nodes[k].value;
    LinkedAt(nodes, g, r, i);
    assert DownOk(nodes, g, g.rows[r][i], r, i);
    if !pred(nodes[nodes[k].right.value].value) {
      assert t[r][i + 1] == nodes[g.rows[r][i + 1]].value;
    }
  }

  /** One move of the descent towards `x` standing on cell `k` of row `r`,
      below `x`: the right neighbour is the next cell of the row; when it is
      not below `x`, `k` is the search path's node in row `r`; and the
      `down` link leads to the same value one row down, or is absent on the
      bottom row. */
  lemma {:induction false} LeftPathMove(nodes: seq<Node>, g: Layout, x: Elem, r: nat, k: nat)
    requires Valid(nodes, g) && InRow(nodes, g, k, r) && LessItem(nodes[k].value, x)
    ensures g.posOf[k] + 1 < |g.rows[r]|
    ensures var right := g.rows[r][g.posOf[k] + 1];
      && nodes[k].right == Some(right)
      && InRow(nodes, g, right, r) && g.posOf[right] == g.posOf[k] + 1
      && (AtLeastItem(nodes[right].value, x) <==> !LessItem(nodes[right].value, x))
      && (!LessItem(nodes[right].value, x) ==> k == LeftPath(nodes, g, x)[r])
    ensures r + 1 < |g.rows| ==>
      && nodes[k].down.Some?
      && InRow(nodes, g, nodes[k].down.value, r + 1)
      && LessItem(nodes[nodes[k].down.value].value, x)
    ensures r + 1 == |g.rows| ==> nodes[k].down == None
  {
    MonotoneBelow(x);
    SearchMove(nodes, g, r, k, Below(x));
    CellAt(nodes, g, r, k);
  }

  /** `SearchMove` for a descent that keeps no path: where the search
      leaves row `r`, in terms of the row's cell values. */
  lemma {:induction false} SearchStop(nodes: seq<Node>, g: Layout, pred: NodeValue -> bool, r: nat, k: nat)
    requires Valid(nodes, g) && InRow(nodes, g, k, r) && Monotone(pred) && pred(nodes[k].value)
    ensures g.posOf[k] + 1 < |g.rows[r]|
    ensures var right := g.rows[r][g.posOf[k] + 1];
      && nodes[k].right == Some(right)
      && InRow(nodes, g, right, r) && g.posOf[right] == g.posOf[k] + 1
      && (!pred(nodes[right].value) ==> g.posOf[k] + 1 == CountWhile(TableOf(nodes, g)[r], pred))
    ensures r + 1 < |g.rows| ==>
      && nodes[k].down.Some?
      && InRow(nodes, g, nodes[k].down.value, r + 1)
      && pred(nodes[nodes[k].down.value].value)
    ensures r + 1 == |g.rows| ==> nodes[k].down == None
  {
    SearchMove(nodes, g, r, k, pred);
    CellAt(nodes, g, r, k);
  }

  /** What a cell of row `r` holds, read off its position: the sentinels at
      the two ends, element `p - 1` of the row in between, and a right link
      to the next cell except at the end. */
  lemma {:induction false} CellAt(nodes: seq<Node>, g: Layout, r: nat, k: nat)
    requires Valid(nodes, g) && InRow(nodes, g, k, r)
    ensures var p := g.posOf[k]; var row := TableOf(nodes, g)[r];
      && |Payloads(row)| == |g.rows[r]| - 2
      && (nodes[k].value == NegInf <==> p == 0)
      && (nodes[k].value == PosInf <==> p == |g.rows[r]| - 1)
      && (0 < p < |g.rows[r]| - 1 ==> nodes[k].value == Value(Payloads(row)[p - 1]))
      && (p + 1 < |g.rows[r]| ==>
            && nodes[k].right == Some(g.rows[r][p + 1])
            && InRow(nodes, g, g.rows[r][p + 1], r)
            && g.posOf[g.rows[r][p + 1]] == p + 1)
      && (p + 1 == |g.rows[r]| ==> nodes[k].right == None)
  {
    var p := g.posOf[k];
    var row := TableOf(nodes, g)[r];
    assert row[p] == nodes[k].value;
    LinkedAt(nodes, g, r, p);
  }

  // ---------------------------------------------------------------------
  // The parts of the grid the iterators walk, read off the layout.

  /** The sentinel column, top to bottom. */
  ghost function Heads(g: Layout): (heads: seq<nat>)
    requires forall r | 0 <= r < |g.rows| :: |g.rows[r]| >= 1
    ensures |heads| == |g.rows|
  {
    seq(|g.rows|, r requires 0 <= r < |g.rows| => g.rows[r][0])
  }

  /** `heads` are NegInf nodes each linked `down` to the next, the last to
      none. */
  ghost predicate Column(nodes: seq<Node>, heads: seq<nat>) {
    && (forall r | 0 <= r < |heads| :: heads[r] < |nodes|)
    && forall r {:trigger nodes[heads[r]]} | 0 <= r < |heads| ::
      && heads[r] < |nodes|
      && nodes[heads[r]].value == NegInf
      && nodes[heads[r]].down == if r + 1 < |heads| then Some(heads[r + 1]) else None
  }

  /** `cells` is a row linked left to right holding the sentinels around
      `out`. */
  ghost predicate Chain(nodes: seq<Node>, cells: seq<nat>, out: seq<Elem>) {
    && |cells| == |out| + 2
    && (forall p | 0 <= p < |cells| :: cells[p] < |nodes|)
    && forall p {:trigger nodes[cells[p]]} | 0 <= p < |cells| ::
         && cells[p] < |nodes|
         && nodes[cells[p]].value == (if p == 0 then NegInf else if p == |out| + 1 then PosInf else Value(out[p - 1]))
         && nodes[cells[p]].right == if p + 1 < |cells| then Some(cells[p + 1]) else None
  }

  /** A valid grid's sentinel column leads down to the bottom row, which
      lists the elements between its sentinels. */
  lemma {:induction false} Views(nodes: seq<Node>, g: Layout)
    requires Valid(nodes, g)
    ensures var last := g.rows[|g.rows| - 1];
      && (forall r | 0 <= r < |g.rows| :: |g.rows[r]| >= 1)
      && Column(nodes, Heads(g))
      && Chain(nodes, last, Elements(TableOf(nodes, g)))
      && Heads(g)[|g.rows| - 1] == last[0]
  {
    ColumnView(nodes, g);
    ChainView(nodes, g);
  }

  lemma {:induction false} ColumnView(nodes: seq<Node>, g: Layout)
    requires Valid(nodes, g)
    ensures forall r | 0 <= r < |g.rows| :: |g.rows[r]| >= 1
    ensures Column(nodes, Heads(g))
  {
    forall r | 0 <= r < |g.rows|
      ensures |g.rows[r]| >= 1
    {
      HeadAt(nodes, g, r);
    }
    var heads := Heads(g);
    forall r | 0 <= r < |heads|
      ensures heads[r] < |nodes| && nodes[heads[r]].value == NegInf
      ensures nodes[heads[r]].down == if r + 1 < |heads| then Some(heads[r + 1]) else None
    {
      HeadAt(nodes, g, r);
      assert heads[r] == g.rows[r][0];
      if r + 1 < |heads| {
        assert heads[r + 1] == g.rows[r + 1][0];
      }
    }
    assert Column(nodes, heads);
  }

  lemma {:induction false} ChainView(nodes: seq<Node>, g: Layout)
    requires Valid(nodes, g)
    ensures Chain(nodes, g.rows[|g.rows| - 1], Elements(TableOf(nodes, g)))
  {
    RowLength(nodes, g, |g.rows| - 1);
    var last := g.rows[|g.rows| - 1];
    var out := Elements(TableOf(nodes, g));
    forall p | 0 <= p < |last|
      ensures last[p] < |nodes|
      ensures nodes[last[p]].value == (if p == 0 then NegInf else if p == |out| + 1 then PosInf else Value(out[p - 1]))
      ensures nodes[last[p]].right == if p + 1 < |last| then Some(last[p + 1]) else None
    {
      ChainCell(nodes, g, p);
    }
    ChainCell(nodes, g, 0);
    assert Chain(nodes, last, out);
  }

  /** The table a valid grid stands for and its bottom row, named for a
      reader that follows the bottom row from the top-left sentinel. */
  lemma {:induction false} BottomView(nodes: seq<Node>, g: Layout) returns (t: Table, cells: seq<nat>)
    requires Valid(nodes, g)
    ensures t == TableOf(nodes, g) && TableValid(t)
    ensures |g.rows[0]| >= 1 && cells == g.rows[|g.rows| - 1]
    ensures Chain(nodes, cells, Elements(t))
  {
    HeadAt(nodes, g, 0);
    ChainView(nodes, g);
    t := TableOf(nodes, g);
    cells := g.rows[|g.rows| - 1];
  }

  lemma {:induction false} ChainCell(nodes: seq<Node>, g: Layout, p: nat)
    requires Valid(nodes, g) && p < |g.rows[|g.rows| - 1]|
    ensures var last := g.rows[|g.rows| - 1]; var out := Elements(TableOf(nodes, g));
      && |last| == |out| + 2
      && last[p] < |nodes|
      && nodes[last[p]].value == (if p == 0 then NegInf else if p == |out| + 1 then PosInf else Value(out[p - 1]))
      && nodes[last[p]].right == if p + 1 < |last| then Some(last[p + 1]) else None
  {
    var last := g.rows[|g.rows| - 1];
    assert InRow(nodes, g, last[p], |g.rows| - 1);
    CellAt(nodes, g, |g.rows| - 1, last[p]);
  }

  /** Every row of a valid grid holds at least its two sentinels. */
  lemma {:induction false} RowLength(nodes: seq<Node>, g: Layout, r: nat)
    requires Valid(nodes, g) && r < |g.rows|
    ensures |g.rows[r]| == |TableOf(nodes, g)[r]| >= 2
  {
  }

  /** The sentinel of row `r` links down to the sentinel of row `r + 1`. */
  lemma {:induction false} HeadAt(nodes: seq<Node>, g: Layout, r: nat)
    requires Valid(nodes, g) && r < |g.rows|
    ensures |g.rows[r]| >= 2 && (r + 1 < |g.rows| ==> |g.rows[r + 1]| >= 2)
    ensures var k := g.rows[r][0];
      && k < |nodes| && nodes[k].value == NegInf
      && nodes[k].down == if r + 1 < |g.rows| then Some(g.rows[r + 1][0]) else None
  {
    RowLength(nodes, g, r);
    if r + 1 < |g.rows| {
      RowLength(nodes, g, r + 1);
    }
    var k := g.rows[r][0];
    assert InRow(nodes, g, k, r);
    CellAt(nodes, g, r, k);
    DownAt(nodes, g, r, k);
    if r + 1 < |g.rows| {
      CellAt(nodes, g, r + 1, nodes[k].down.value);
    }
  }

  /** The `down` link of a cell other than the last of a row above the
      bottom leads to the cell of the next row with the same value; on the
      bottom row there is none. */
  lemma {:induction false} DownAt(nodes: seq<Node>, g: Layout, r: nat, k: nat)
    requires Valid(nodes, g) && InRow(nodes, g, k, r) && g.posOf[k] + 1 < |g.rows[r]|
    ensures r + 1 < |g.rows| ==>
      && nodes[k].down.Some?
      && InRow(nodes, g, nodes[k].down.value, r + 1)
      && nodes[nodes[k].down.value].value == nodes[k].value
    ensures r + 1 == |g.rows| ==> nodes[k].down == None
  {
    assert DownOk(nodes, g, g.rows[r][g.posOf[k]], r, g.posOf[k]);
  }
}
