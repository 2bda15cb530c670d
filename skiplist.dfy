/// `SkipList` of src/lib.rs: an ordered set kept as a grid of sentinel
/// rows. The nodes live in an arena (`nodes`), so the source's `NonNull`
/// links are arena indices; the ghost `layout` records where each node sits,
/// and `Rows()` is the abstract table the grid spells.

module SkipLists {
  import opened Options
  import opened NodeValues
  import opened Tables
  import opened Grid
  import opened Ranges
  import opened Iterators
  import opened Checks

  class SkipList {
    var nodes: seq<Node>
    /** The NegInf node of the top row. */
    var topLeft: nat
    /** The number of rows. */
    var height: nat
    ghost var layout: Layout

    ghost predicate Valid()
      reads this
    {
      && Grid.Valid(nodes, layout)
      && |layout.rows[0]| >= 1 && topLeft == layout.rows[0][0]
      && height == |layout.rows|
    }

    /** The rows of the skip list, top to bottom. */
    ghost function Rows(): Table
      reads this
      requires Valid()
    {
      TableOf(nodes, layout)
    }

    /** The set the skip list holds, in ascending order. */
    ghost function Contents(): seq<Elem>
      reads this
      requires Valid()
    {
      Elements(Rows())
    }

    /** The nodes the search for `item` turns down at, one per row, top
        row first. */
    ghost function Path(item: Elem): (path: seq<nat>)
      reads this
      requires Valid()
      ensures |path| == height
    {
      LeftPath(nodes, layout, item)
    }

    /** `SkipList::new`: a sentinel pair, grown by two levels; three empty
        rows. */
    constructor ()
      ensures Valid() && Rows() == NewSpec() && height == 3
    {
      nodes := [];
      topLeft := 0;
      height := 1;
      layout := Layout([], [], []);
      new;
      var left := PosNegPair();
      topLeft := left;
      layout := Layout([[0, 1]], [0, 0], [0, 1]);
      FirstRow();
      assert nodes == [Node(NegInf, Some(1), None), Node(PosInf, None, None)];
      assert Rows() == [[NegInf, PosInf]];
      AddLevels(2);
    }

    /** `pos_neg_pair`: a fresh NegInf node linked right to a fresh PosInf
        node, neither with a `down` link. */
    method PosNegPair() returns (left: nat)
      modifies this`nodes
      ensures left == |old(nodes)|
      ensures nodes == old(nodes) + [Node(NegInf, Some(left + 1), None), Node(PosInf, None, None)]
    {
      left := |nodes|;
      nodes := nodes + [Node(NegInf, Some(left + 1), None), Node(PosInf, None, None)];
    }

    /** `make_node`: a fresh unlinked node holding `value`. */
    method MakeNode(value: Elem) returns (n: nat)
      modifies this`nodes
      ensures n == |old(nodes)|
      ensures nodes == old(nodes) + [Node(Value(value), None, None)]
    {
      n := |nodes|;
      nodes := nodes + [Node(Value(value), None, None)];
    }

    /** `add_levels(k)`: `k` fresh sentinel rows directly below the top row,
        each linked in under the one before; `height` grows by `k`. */
    method AddLevels(additionalLevels: nat)
      requires Valid()
      modifies this
      ensures Valid()
      ensures Rows() == AddLevelsSpec(old(Rows()), additionalLevels)
      ensures height == old(height) + additionalLevels && topLeft == old(topLeft)
    {
      ghost var t := Rows();
      var currLevel := topLeft;
      for i := 0 to additionalLevels
        invariant Grid.Valid(nodes, layout) && TableOf(nodes, layout) == AddLevelsSpec(t, i)
        invariant |layout.rows[i]| == 2 && currLevel == layout.rows[i][0]
        invariant |layout.rows[0]| >= 1 && topLeft == layout.rows[0][0]
        modifies this`nodes, this`layout
      {
        assert |TableOf(nodes, layout)[i]| == 2;
        AddRowStep(nodes, layout, i);
        AddLevelsNext(t, i);
        ghost var before := nodes;
        var newLevel := PosNegPair();
        nodes := nodes[newLevel := nodes[newLevel].(down := nodes[currLevel].down)];
        nodes := nodes[currLevel := nodes[currLevel].(down := Some(newLevel))];
        assert nodes == LinkNewRow(before, layout.rows[i][0]);
        layout := AddRow(layout, i, newLevel);
        currLevel := newLevel;
      }
      height := height + additionalLevels;
    }

    /** `iter_left`: a left-biased search for `item` from the top-left
        sentinel, with the whole search path still to come. */
    method IterLeft(item: Elem) returns (it: LeftBiasIter)
      requires Valid()
      ensures fresh(it)
      ensures it.nodes == nodes && it.layout == layout && it.item == item
      ensures it.Borrowed() && it.Valid() && !it.finished && it.row == 0 && it.path == Path(item)
    {
      it := new LeftBiasIter(nodes, layout, topLeft, item);
    }

    /** `iter_all`: an iterator over every element, in ascending order. */
    method IterAll() returns (it: Iterators.IterAll)
      requires Valid()
      ensures fresh(it) && it.nodes == nodes && it.layout == layout
      ensures it.out == Contents() && it.Walks() && it.Valid() && it.next == 0
    {
      it := new Iterators.IterAll(nodes, layout, topLeft);
    }

    /** `range(start, end)`: an iterator over the elements in
        `start..=end`, in ascending order. */
    method Range(start: Elem, end: Elem) returns (it: SkipListRange)
      requires Valid()
      ensures fresh(it) && it.nodes == nodes && it.layout == layout && it.start == start && it.end == end
      ensures it.out == FilterRange(Contents(), RangeOf(start, end))
      ensures it.Borrowed() && it.Walks() && it.Valid() && it.next == 0
    {
      it := new SkipListRange(nodes, layout, topLeft, start, end);
    }

    /** `range_with(f)`: an iterator over the elements a monotone
        classifier `f` places in range, in ascending order. */
    method RangeWith(f: Elem -> RangeHint) returns (it: IterRangeWith)
      requires Valid() && MonotoneHint(f)
      ensures fresh(it) && it.nodes == nodes && it.layout == layout && it.f == f
      ensures it.out == FilterRange(Contents(), f)
      ensures it.Borrowed() && it.Walks() && it.Valid() && it.next == 0
    {
      it := new IterRangeWith(nodes, layout, topLeft, f);
    }

    /** `path_to`: everything `LeftBiasIter` yields for `item`, one node per
        row, top row first. */
    method PathTo(item: Elem) returns (path: seq<nat>)
      requires Valid()
      ensures path == Path(item)
    {
      var it := IterLeft(item);
      path := [];
      while true
        invariant it.Borrowed() && it.Valid() && it.nodes == nodes && it.layout == layout && it.item == item
        invariant !it.finished ==> it.row < |it.path| && path == it.path[..it.row]
        invariant it.finished ==> path == it.path
        decreases if it.finished then 0 else 1, |it.path| - it.row
      {
        var o := it.Next();
        match o {
          case None => break;
          case Some(n) => path := path + [n];
        }
      }
    }

    /** `iter_left(item).last().unwrap()`: run the search for `item` to the
        end and keep the last node it yields, the one on the bottom row. */
    method LastOnPath(item: Elem) returns (k: nat)
      requires Valid()
      ensures k == Path(item)[height - 1]
    {
      var it := IterLeft(item);
      var last: Option<nat> := None;
      while true
        invariant it.Borrowed() && it.Valid() && it.nodes == nodes && it.layout == layout && it.item == item
        invariant !it.finished ==> it.row < |it.path| && (it.row == 0 ==> last == None) && (it.row > 0 ==> last == Some(it.path[it.row - 1]))
        invariant it.finished ==> last == Some(it.path[|it.path| - 1])
        decreases if it.finished then 0 else 1, |it.path| - it.row
      {
        var o := it.Next();
        if o.None? {
          break;
        }
        last := o;
      }
      k := last.value;
    }

    /** `contains`: the right neighbour of the search's last node equals
        `item` exactly when `item` is an element. */
    method Contains(item: Elem) returns (b: bool)
      requires Valid()
      ensures b <==> item in Contents()
    {
      var lastPtr := LastOnPath(item);
      LastStop(nodes, layout, item);
      ContainsByPath(Rows(), item);
      match nodes[lastPtr].right {
        case Some(right) => b := EqItem(nodes[right].value, item);
        case None => b := false;
      }
    }

    /** `insert(item)` with `level` the level `get_level` drew: nothing
        happens when `item` is present; otherwise the list grows taller than
        `level` and `item` is spliced into each of its bottom `level` rows. */
    method Insert(item: Elem, level: nat)
      requires Valid() && level >= 1
      modifies this
      ensures Valid() && Rows() == InsertSpec(old(Rows()), item, level)
      ensures item in Contents()
      ensures forall y :: y in Contents() <==> y in old(Contents()) || y == item
      ensures item !in old(Contents()) ==> height > level
    {
      ghost var t := Rows();
      InsertThenContains(t, item, level);
      var present := Contains(item);
      if present {
        return;
      }
      RowMembership(Bottom(t), item);
      GrowTo(level);
      var path := PathTo(item);
      SpliceColumn(item, level, path);
    }

    /** The growth step of `insert`: when the list is not taller than
        `level`, add the missing levels. The elements stay the same. */
    method GrowTo(level: nat)
      requires Valid()
      modifies this
      ensures Valid() && Rows() == Grow(old(Rows()), level)
      ensures height > level && Contents() == old(Contents())
    {
      ghost var t := Rows();
      GrowValid(t, level);
      var additionalHeightReq: int := level - height + 1;
      if additionalHeightReq > 0 {
        AddLevels(additionalHeightReq);
      }
    }

    /** The tail of `insert` for an absent `item`: splice it into each of
        the bottom `level` rows, right of the search path's node there. */
    method SpliceColumn(item: Elem, level: nat, path: seq<nat>)
      requires Valid() && height > level
      requires item !in Contents()
      requires path == Path(item)
      modifies this`nodes, this`layout
      ensures Valid() && Rows() == SpliceBottom(old(Rows()), item, level)
    {
      ghost var t := Rows();
      RoundsStart(nodes, layout, item);
      SpliceRows(item, level, path, t, layout, |nodes|);
      RowMembership(Bottom(t), item);
      AbsentEverywhere(t, item);
      SpliceBottomValid(t, item, level);
    }

    /** The splicing loop of `insert`: walk the search path bottom-up, and in
        each of the bottom `level` rows link a fresh node holding `item`
        right of the path node, with `down` to the node made just before. */
    method SpliceRows(item: Elem, level: nat, path: seq<nat>, ghost t: Table, ghost g0: Layout, ghost n0: nat)
      requires Rounded(t, g0.rows, n0, item, 0, nodes, layout)
      requires |path| == |t| && level <= |t|
      requires forall r | 0 <= r < |t| :: PathCell(t, g0, item, path, r)
      modifies this`nodes, this`layout
      ensures Rounded(SpliceBottom(t, item, level), g0.rows, n0, item, level, nodes, layout)
    {
      assert SpliceBottom(t, item, 0) == t;
      var nodeBelowMe: Option<nat> := None;
      var i := 0;
      while i < level
        invariant i <= level
        invariant Rounded(SpliceBottom(t, item, i), g0.rows, n0, item, i, nodes, layout)
        invariant i == 0 ==> nodeBelowMe.None?
        invariant i > 0 ==> nodeBelowMe.Some? && nodeBelowMe.value == n0 + i - 1
      {
        var r := |path| - 1 - i;
        var node := path[r];
        SpliceRowsStep(t, g0, n0, item, path, i, nodes, layout, nodeBelowMe);
        ghost var before := nodes;
        var newNode := MakeNode(item);
        nodes := nodes[newNode := nodes[newNode].(down := nodeBelowMe)];
        nodes := nodes[newNode := nodes[newNode].(right := nodes[node].right)];
        nodes := nodes[node := nodes[node].(right := Some(newNode))];
        assert nodes == SpliceNodes(before, node, item, nodeBelowMe);
        layout := SpliceLayout(layout, r, g0.posOf[node], newNode);
        nodeBelowMe := Some(newNode);
        i := i + 1;
      }
    }

    // -------------------------------------------------------------------
    // The debug checkers. Each walks the links the way the source does and
    // answers `false` where the source's assertion would fire.

    /** The shape the checkers walk, from the top-left sentinel. */
    ghost predicate Walkable()
      reads this
    {
      Framed(nodes, layout) && |layout.rows[0]| >= 2 && topLeft == layout.rows[0][0]
    }

    /** A valid skip list passes every check `ensure_invariants` makes. */
    lemma ChecksHold()
      requires Valid()
      ensures Walkable() && TopClosed(nodes, layout) && RowsOrdered(nodes, layout) && ColumnsSame(nodes, layout)
    {
      ValidPasses(nodes, layout);
    }

    /** `ensure_rows_ordered`: row by row down the sentinel column, every
        cell is below its right neighbour. */
    method EnsureRowsOrdered() returns (ok: bool)
      requires Walkable()
      ensures ok <==> RowsOrdered(nodes, layout)
    {
      ghost var t := TableOf(nodes, layout);
      var leftRow := topLeft;
      var currNode := topLeft;
      ghost var r := 0;
      while true
        invariant r < |layout.rows| && |layout.rows[r]| >= 2 && leftRow == layout.rows[r][0] && currNode == leftRow
        invariant forall r' | 0 <= r' < r :: OrderedRow(t[r'])
        decreases |layout.rows| - r
      {
        assert HeadDown(nodes, layout, r);
        ghost var p := 0;
        while nodes[currNode].right.Some?
          invariant p < |layout.rows[r]| && currNode == layout.rows[r][p]
          invariant forall j | 0 <= j < p :: InOrder(t[r][j], t[r][j + 1])
          decreases |layout.rows[r]| - p
        {
          LinkedAt(nodes, layout, r, p);
          var right := nodes[currNode].right.value;
          var a := nodes[currNode].value;
          var b := nodes[right].value;
          if !Comparable(a, b) || CompareNodes(a, b) != Less {
            assert t[r][p] == a && t[r][p + 1] == b;
            return false;
          }
          currNode := right;
          p := p + 1;
        }
        LinkedAt(nodes, layout, r, p);
        assert OrderedRow(t[r]);
        match nodes[leftRow].down {
          case Some(down) =>
            leftRow := down;
            currNode := leftRow;
            r := r + 1;
          case None =>
            break;
        }
      }
      ok := true;
    }

    /** `ensure_columns_same_value`: below every cell that has a right
        neighbour, walk the column down and compare each value with the
        cell's. */
    method EnsureColumnsSameValue() returns (ok: bool)
      requires Walkable()
      ensures ok <==> ColumnsSame(nodes, layout)
    {
      var leftRow := topLeft;
      var currNode := topLeft;
      ghost var r := 0;
      while true
        invariant r < |layout.rows| && |layout.rows[r]| >= 2 && leftRow == layout.rows[r][0] && currNode == leftRow
        invariant forall r' | 0 <= r' < r :: RowColumnsSame(nodes, layout, r')
        decreases |layout.rows| - r
      {
        assert HeadDown(nodes, layout, r);
        ghost var p := 0;
        while nodes[currNode].right.Some?
          invariant p < |layout.rows[r]| && currNode == layout.rows[r][p]
          invariant forall i | 0 <= i < p :: SameBelow(nodes, layout, layout.rows[r][i], r, nodes[layout.rows[r][i]].value)
          decreases |layout.rows[r]| - p
        {
          LinkedAt(nodes, layout, r, p);
          var right := nodes[currNode].right.value;
          var same := ColumnSameValue(currNode, r);
          if !same {
            assert !RowColumnsSame(nodes, layout, r);
            return false;
          }
          currNode := right;
          p := p + 1;
        }
        LinkedAt(nodes, layout, r, p);
        assert RowColumnsSame(nodes, layout, r);
        match nodes[leftRow].down {
          case Some(down) =>
            leftRow := down;
            currNode := leftRow;
            r := r + 1;
          case None =>
            break;
        }
      }
      ok := true;
    }

    /** The innermost loop of `ensure_columns_same_value`: follow `down`
        links from `cell` and compare each value with the cell's. */
    method ColumnSameValue(cell: nat, ghost r: nat) returns (same: bool)
      requires Walkable() && InRow(nodes, layout, cell, r)
      ensures same <==> SameBelow(nodes, layout, cell, r, nodes[cell].value)
    {
      var currValue := nodes[cell].value;
      var currDown := cell;
      ghost var rd := r;
      while nodes[currDown].down.Some?
        invariant rd < |layout.rows| && InRow(nodes, layout, currDown, rd)
        invariant SameBelow(nodes, layout, cell, r, currValue) == SameBelow(nodes, layout, currDown, rd, currValue)
        decreases |layout.rows| - rd
      {
        var down := nodes[currDown].down.value;
        assert DownIn(nodes, layout, layout.rows[rd][layout.posOf[currDown]], rd);
        if nodes[down].value != currValue {
          return false;
        }
        currDown := down;
        rd := rd + 1;
      }
      same := true;
    }

    /** `ensure_invariants`: the top row's right neighbour of the head is
        PosInf, the rows are ordered and the columns hold one value. */
    method EnsureInvariants() returns (ok: bool)
      requires Walkable()
      ensures ok <==> TopClosed(nodes, layout) && RowsOrdered(nodes, layout) && ColumnsSame(nodes, layout)
    {
      assert HeadDown(nodes, layout, 0);
      LinkedAt(nodes, layout, 0, 0);
      var right := nodes[topLeft].right.value;
      if nodes[right].value != PosInf {
        return false;
      }
      ok := EnsureRowsOrdered();
      if !ok {
        return;
      }
      ok := EnsureColumnsSameValue();
    }
  }
}
