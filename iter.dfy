/// The traversals of src/iter.rs. Each iterator holds the arena it walks as
/// a constant: the source's iterators borrow the skip list immutably, so the
/// grid cannot change under them. Each one keeps, as ghost state, the whole
/// output it yields and the index of the next item, tied to its position by
/// `Valid`; `Next` yields that item and moves on.

module Iterators {
  import opened Options
  import opened NodeValues
  import opened Tables
  import opened Grid
  import opened Ranges

  /** `LeftBiasIter`: the descent towards `item`, yielding the node at which
      it turns down in each row (src/iter.rs:225-285). The ghost `path` is
      everything it yields, and `row` indexes the next node to come. */
  class LeftBiasIter {
    const nodes: seq<Node>
    ghost const layout: Layout
    const item: Elem
    var curr: nat
    var finished: bool
    ghost const path: seq<nat>
    /** The row `curr` is on: `path[row..]` is still to come. */
    ghost var row: nat

    /** What the iterator borrows: a valid grid, and the path it yields.
        These do not change while it runs. */
    ghost predicate Borrowed() {
      Grid.Valid(nodes, layout) && path == LeftPath(nodes, layout, item)
    }

    ghost predicate Valid()
      reads this
    {
      !finished ==> InRow(nodes, layout, curr, row) && LessItem(nodes[curr].value, item)
    }

    /** `LeftBiasIter::new` from the top-left sentinel: the whole search path
        is still to come. */
    constructor (nodes: seq<Node>, ghost layout: Layout, topLeft: nat, item: Elem)
      requires Grid.Valid(nodes, layout) && topLeft == layout.rows[0][0]
      ensures this.nodes == nodes && this.layout == layout && this.item == item
      ensures Borrowed() && Valid() && !finished && row == 0
    {
      this.nodes := nodes;
      this.layout := layout;
      this.item := item;
      this.curr := topLeft;
      this.finished := false;
      this.row := 0;
      this.path := LeftPath(nodes, layout, item);
      new;
      assert TableOf(nodes, layout)[0][0] == NegInf;
    }

    /** `next`: move right while the right neighbour is below `item`, then
        yield the current node and step down; on the bottom row, yield it
        and finish. Yields `path` in order, then `None` for good. */
    method Next() returns (o: Option<nat>)
      requires Borrowed() && Valid()
      modifies this
      ensures Valid()
      ensures old(finished) ==> o == None && finished
      ensures !old(finished) ==> o == Some(path[old(row)])
      ensures !old(finished) ==> if old(row) + 1 < |path| then !finished && row == old(row) + 1 else finished
    {
      if finished {
        return None;
      }
      ghost var r := row;
      var c := curr;
      var down: Option<nat>;
      while true
        invariant InRow(nodes, layout, c, r) && LessItem(nodes[c].value, item)
        modifies {}
        decreases |layout.rows[r]| - layout.posOf[c]
      {
        LeftPathMove(nodes, layout, item, r, c);
        var right := nodes[c].right.value;
        match nodes[c].down {
          case Some(d) =>
            if LessItem(nodes[right].value, item) {
              c := right;
            } else {
              down := Some(d);
              break;
            }
          case None =>
            if AtLeastItem(nodes[right].value, item) {
              down := None;
              break;
            } else {
              c := right;
            }
        }
      }
      o := Some(c);
      match down {
        case Some(d) =>
          curr := d;
          row := r + 1;
        case None =>
          finished := true;
      }
    }
  }

  /** `IterAll`: every element, in ascending order, read off the bottom row
      (src/iter.rs:82-148). The ghost `out` is everything it yields and
      `next` indexes the element to come; `heads` (the sentinel column) and
      `cells` (the bottom row) are the parts of the grid it walks. */
  class IterAll {
    const nodes: seq<Node>
    ghost const layout: Layout
    var curr: nat
    var atBottom: bool
    var finished: bool
    ghost const out: seq<Elem>
    ghost const heads: seq<nat>
    ghost const cells: seq<nat>
    ghost var next: nat

    /** The parts of the borrowed grid the walk follows. */
    ghost predicate Walks() {
      && |heads| >= 1
      && Column(nodes, heads)
      && Chain(nodes, cells, out)
      && heads[|heads| - 1] == cells[0]
    }

    ghost predicate Valid()
      reads this
    {
      && next <= |out|
      && (!atBottom ==> |heads| >= 1 && curr == heads[0] && next == 0 && !finished)
      && (finished ==> next == |out|)
      && (atBottom && !finished ==> next + 1 < |cells| && curr == cells[next + 1])
    }

    /** `IterAll::new` from the top-left sentinel. */
    constructor (nodes: seq<Node>, ghost layout: Layout, topLeft: nat)
      requires Grid.Valid(nodes, layout) && topLeft == layout.rows[0][0]
      ensures this.nodes == nodes && this.layout == layout
      ensures out == Elements(TableOf(nodes, layout))
      ensures Walks() && Valid() && next == 0
    {
      Views(nodes, layout);
      this.nodes := nodes;
      this.layout := layout;
      this.curr := topLeft;
      this.atBottom := false;
      this.finished := false;
      this.out := Elements(TableOf(nodes, layout));
      this.heads := Heads(layout);
      this.cells := layout.rows[|layout.rows| - 1];
      this.next := 0;
    }

    /** Steps 1 and 2 of `next`, taken on the first call: walk down the
        sentinel column to the bottom row, then one step right. */
    method Descend()
      requires Walks() && Valid() && !atBottom
      modifies this
      ensures Valid() && atBottom && !finished && next == old(next)
    {
      ghost var r := 0;
      var c := curr;
      while nodes[c].down.Some?
        invariant r < |heads| && c == heads[r]
        modifies {}
        decreases |heads| - r
      {
        c := nodes[c].down.value;
        r := r + 1;
      }
      curr := nodes[c].right.value;
      atBottom := true;
    }

    /** `next`: on the first call descend; then yield the current element
        and move right, finishing at the last one. Yields `out` in order,
        then `None` for good. */
    method Next() returns (o: Option<Elem>)
      requires Walks() && Valid()
      modifies this
      ensures Valid()
      ensures old(next) == |out| ==> o == None && next == |out|
      ensures old(next) < |out| ==> o == Some(out[old(next)]) && next == old(next) + 1
    {
      if finished {
        return None;
      }
      if !atBottom {
        Descend();
      }
      o := Yield();
    }

    /** Step 3 of `next`: yield the element under `curr` and move right,
        finishing when the right neighbour is the end sentinel. */
    method Yield() returns (o: Option<Elem>)
      requires Walks() && Valid() && atBottom && !finished
      modifies this
      ensures Valid() && atBottom
      ensures old(next) == |out| ==> o == None && next == |out|
      ensures old(next) < |out| ==> o == Some(out[old(next)]) && next == old(next) + 1
    {
      match nodes[curr].value {
        case NegInf =>
          // Dead: the walk enters the bottom row one cell right of its sentinel.
          assert false;
        case PosInf =>
          return None;
        case Value(_) =>
      }
      var v := GetValue(nodes[curr].value);
      var right := nodes[curr].right.value;
      if nodes[right].value == PosInf {
        finished := true;
      } else {
        curr := right;
      }
      next := next + 1;
      o := Some(v);
    }
  }

  /** `SkipListRange`: the elements in `start..=end`, in ascending order
      (src/iter.rs:150-222). The first call descends to the bottom row, to
      the first cell not below `start`; each call then yields the current
      element while it is at most `end`. The ghost `out` is everything it
      yields, `next` indexes the element to come, `cells` is the bottom row
      listing `elems`, and `base` is where the descent lands in `elems`. */
  class SkipListRange {
    const nodes: seq<Node>
    ghost const layout: Layout
    const start: Elem
    const end: Elem
    var curr: nat
    var atBottom: bool
    ghost const out: seq<Elem>
    ghost const elems: seq<Elem>
    ghost const cells: seq<nat>
    ghost const base: nat
    ghost const top: nat
    ghost var next: nat

    /** Where the descent lands, read off the borrowed grid. */
    ghost predicate Borrowed()
      requires Grid.Valid(nodes, layout)
    {
      && |layout.rows[0]| >= 1 && top == layout.rows[0][0]
      && cells == layout.rows[|layout.rows| - 1]
      && base + 1 == CountWhile(Bottom(TableOf(nodes, layout)), Below(start))
    }

    /** The bottom row the walk follows, and what it yields from `base` on. */
    ghost predicate Walks() {
      && Chain(nodes, cells, elems)
      && base <= |elems|
      && out == TakeInRange(elems[base..], RangeOf(start, end))
      && (forall i | base <= i < |elems| :: start <= elems[i])
    }

    ghost predicate Valid()
      reads this
    {
      && (!atBottom ==> next == 0 && curr == top)
      && (atBottom ==> next <= |out| && base + next + 1 < |cells| && curr == cells[base + next + 1])
    }

    /** `SkipListRange::new` from the top-left sentinel: it yields exactly
        the elements in `start..=end`. */
    constructor (nodes: seq<Node>, ghost layout: Layout, topLeft: nat, start: Elem, end: Elem)
      requires Grid.Valid(nodes, layout) && topLeft == layout.rows[0][0]
      ensures this.nodes == nodes && this.layout == layout && this.start == start && this.end == end
      ensures out == FilterRange(Elements(TableOf(nodes, layout)), RangeOf(start, end))
      ensures Borrowed() && Walks() && Valid() && next == 0
    {
      ghost var t, cs := BottomView(nodes, layout);
      ghost var xs, c, ys := RangeLanding(t, start, end);
      this.nodes := nodes;
      this.layout := layout;
      this.start := start;
      this.end := end;
      this.curr := topLeft;
      this.top := topLeft;
      this.atBottom := false;
      this.elems := xs;
      this.cells := cs;
      this.base := c;
      this.out := ys;
      this.next := 0;
    }

    /** `next`: descend on the first call, then yield the current element
        if it is at most `end` and step right. Yields `out` in order, then
        `None` for good. */
    method Next() returns (o: Option<Elem>)
      requires Grid.Valid(nodes, layout) && Borrowed() && Walks() && Valid()
      modifies this
      ensures Valid()
      ensures old(next) == |out| ==> o == None && next == |out|
      ensures old(next) < |out| ==> o == Some(out[old(next)]) && next == old(next) + 1
    {
      if !atBottom {
        Descend();
      }
      o := Yield();
    }

    /** Step 1 of `next`: the left-biased descent towards `start`, stopping
        one step right of where it leaves the bottom row. */
    method Descend()
      requires Grid.Valid(nodes, layout) && Borrowed() && Valid() && !atBottom
      modifies this
      ensures Valid() && atBottom && next == 0
    {
      MonotoneBelow(start);
      var c := SearchBottom(nodes, layout, Below(start), curr);
      atBottom := true;
      curr := c;
    }

    /** Steps 2 and 3 of `next`: yield the current element while it is at
        most `end`. */
    method Yield() returns (o: Option<Elem>)
      requires Walks() && Valid() && atBottom
      modifies this
      ensures Valid() && atBottom
      ensures old(next) == |out| ==> o == None && next == |out|
      ensures old(next) < |out| ==> o == Some(out[old(next)]) && next == old(next) + 1
    {
      ghost var tail := elems[base..];
      if next < |out| {
        assert tail[next] == elems[base + next];
      } else if base + next < |elems| {
        assert tail[next] == elems[base + next];
      }
      if AtMostItem(nodes[curr].value, end) {
        var v := GetValue(nodes[curr].value);
        curr := nodes[curr].right.value;
        next := next + 1;
        return Some(v);
      }
      return None;
    }
  }

  /** `IterRangeWith`: the elements a monotone classifier `f` places in
      range, in ascending order (src/iter.rs:286-397). Shaped like
      SkipListRange, with `f`'s verdicts for the search and yield tests. */
  class IterRangeWith {
    const nodes: seq<Node>
    ghost const layout: Layout
    const f: Elem -> RangeHint
    var curr: nat
    var atBottom: bool
    ghost const out: seq<Elem>
    ghost const elems: seq<Elem>
    ghost const cells: seq<nat>
    ghost const base: nat
    ghost const top: nat
    ghost var next: nat

    /** Where the descent lands, read off the borrowed grid. */
    ghost predicate Borrowed()
      requires Grid.Valid(nodes, layout)
    {
      && Monotone(SmallerThan(f))
      && |layout.rows[0]| >= 1 && top == layout.rows[0][0]
      && cells == layout.rows[|layout.rows| - 1]
      && base + 1 == CountWhile(Bottom(TableOf(nodes, layout)), SmallerThan(f))
    }

    /** The bottom row the walk follows, and what it yields from `base` on. */
    ghost predicate Walks() {
      && Chain(nodes, cells, elems)
      && base <= |elems|
      && out == TakeInRange(elems[base..], f)
    }

    ghost predicate Valid()
      reads this
    {
      && (!atBottom ==> next == 0 && curr == top)
      && (atBottom ==> next <= |out| && base + next + 1 < |cells| && curr == cells[base + next + 1])
    }

    /** `IterRangeWith::new` from the top-left sentinel: it yields exactly
        the elements `f` places in range. */
    constructor (nodes: seq<Node>, ghost layout: Layout, topLeft: nat, f: Elem -> RangeHint)
      requires Grid.Valid(nodes, layout) && topLeft == layout.rows[0][0] && MonotoneHint(f)
      ensures this.nodes == nodes && this.layout == layout && this.f == f
      ensures out == FilterRange(Elements(TableOf(nodes, layout)), f)
      ensures Borrowed() && Walks() && Valid() && next == 0
    {
      ghost var t, cs := BottomView(nodes, layout);
      ghost var xs, c, ys := RangeWithLanding(t, f);
      this.nodes := nodes;
      this.layout := layout;
      this.f := f;
      this.curr := topLeft;
      this.top := topLeft;
      this.atBottom := false;
      this.elems := xs;
      this.cells := cs;
      this.base := c;
      this.out := ys;
      this.next := 0;
    }

    /** `next`: descend on the first call, then yield the current element
        if `f` places it in range and step right. Yields `out` in order,
        then `None` for good. */
    method Next() returns (o: Option<Elem>)
      requires Grid.Valid(nodes, layout) && Borrowed() && Walks() && Valid()
      modifies this
      ensures Valid()
      ensures old(next) == |out| ==> o == None && next == |out|
      ensures old(next) < |out| ==> o == Some(out[old(next)]) && next == old(next) + 1
    {
      if !atBottom {
        Descend();
      }
      o := Yield();
    }

    /** Step 1 of `next`: the left-biased descent towards the largest cell
        smaller than the range, stopping one step right of it. */
    method Descend()
      requires Grid.Valid(nodes, layout) && Borrowed() && Valid() && !atBottom
      modifies this
      ensures Valid() && atBottom && next == 0
    {
      var c := SearchBottom(nodes, layout, SmallerThan(f), curr);
      atBottom := true;
      curr := c;
    }

    /** Steps 2 and 3 of `next`: yield the current element while `f`
        places it in range. */
    method Yield() returns (o: Option<Elem>)
      requires Walks() && Valid() && atBottom
      modifies this
      ensures Valid() && atBottom
      ensures old(next) == |out| ==> o == None && next == |out|
      ensures old(next) < |out| ==> o == Some(out[old(next)]) && next == old(next) + 1
    {
      ghost var tail := elems[base..];
      if next < |out| {
        assert tail[next] == elems[base + next];
      } else if base + next < |elems| {
        assert tail[next] == elems[base + next];
      }
      if ItemInRange(f, nodes[curr].value) {
        var v := GetValue(nodes[curr].value);
        curr := nodes[curr].right.value;
        next := next + 1;
        return Some(v);
      }
      return None;
    }
  }

  /** The descent both range iterators start with: from the top-left
      sentinel, step right while the right neighbour passes `pred`, else
      down, and at the bottom stop on the first cell that fails `pred`. It
      lands on the bottom row just after the cells `pred` accepts. */
  method SearchBottom(nodes: seq<Node>, ghost g: Layout, pred: NodeValue -> bool, top: nat) returns (c: nat)
    requires Grid.Valid(nodes, g) && Monotone(pred) && pred(NegInf)
    requires |g.rows[0]| >= 1 && top == g.rows[0][0]
    ensures var last := g.rows[|g.rows| - 1]; var n := CountWhile(Bottom(TableOf(nodes, g)), pred);
      n < |last| && c == last[n]
  {
    HeadAt(nodes, g, 0);
    assert InRow(nodes, g, top, 0);
    ghost var r := 0;
    c := top;
    while true
      invariant InRow(nodes, g, c, r) && pred(nodes[c].value)
      decreases |g.rows| - r, |g.rows[r]| - g.posOf[c]
    {
      SearchStop(nodes, g, pred, r, c);
      var right := nodes[c].right.value;
      if pred(nodes[right].value) {
        c := right;
      } else if nodes[c].down.Some? {
        c := nodes[c].down.value;
        r := r + 1;
      } else {
        assert Bottom(TableOf(nodes, g)) == TableOf(nodes, g)[r];
        c := right;
        return;
      }
    }
  }

  /** Where SkipListRange's descent for `start` lands on the bottom row of
      `t`, just before index `base` of its elements, and what the walk
      yields from there: the range's content. */
  lemma {:induction false} RangeLanding(t: Table, start: Elem, end: Elem) returns (xs: seq<Elem>, base: nat, out: seq<Elem>)
    requires TableValid(t)
    ensures xs == Elements(t)
    ensures base + 1 == CountWhile(Bottom(t), Below(start))
    ensures out == FilterRange(xs, RangeOf(start, end))
    ensures base <= |xs|
    ensures out == TakeInRange(xs[base..], RangeOf(start, end))
    ensures forall i | base <= i < |xs| :: start <= xs[i]
  {
    RangeSetup(Bottom(t), start, end);
    xs := Elements(t);
    base := CountWhile(Bottom(t), Below(start)) - 1;
    out := FilterRange(xs, RangeOf(start, end));
  }

  /** The same for IterRangeWith's descent, for a monotone `f`. */
  lemma {:induction false} RangeWithLanding(t: Table, f: Elem -> RangeHint) returns (xs: seq<Elem>, base: nat, out: seq<Elem>)
    requires TableValid(t) && MonotoneHint(f)
    ensures xs == Elements(t)
    ensures Monotone(SmallerThan(f))
    ensures base + 1 == CountWhile(Bottom(t), SmallerThan(f))
    ensures out == FilterRange(xs, f)
    ensures base <= |xs|
    ensures out == TakeInRange(xs[base..], f)
  {
    RangeWithSetup(Bottom(t), f);
    xs := Elements(t);
    base := CountWhile(Bottom(t), SmallerThan(f)) - 1;
    out := FilterRange(xs, f);
  }
}
