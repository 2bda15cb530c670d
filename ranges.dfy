/// The classifications the range iterators of src/iter.rs search and stop
/// by, and the sequences they are meant to yield.

module Ranges {
  import opened NodeValues
  import opened Tables

  /** Where an element lies relative to the range a caller asks for. The
      enum itself lives in a part of the crate this model does not include;
      its three variants are the ones src/iter.rs matches on. */
  datatype RangeHint = SmallerThanRange | InRange | LargerThanRange

  function Rank(h: RangeHint): nat {
    match h
    case SmallerThanRange => 0
    case InRange => 1
    case LargerThanRange => 2
  }

  /** A classifier that a sorted sequence visits in the order smaller, in
      range, larger: the shape `range_with` relies on. */
  ghost predicate MonotoneHint(f: Elem -> RangeHint) {
    forall a: Elem, b: Elem | a <= b :: Rank(f(a)) <= Rank(f(b))
  }

  /** `IterRangeWith::item_smaller_than_range`: NegInf always is, PosInf
      never is, and an element is when `f` says so; a cell never is both
      smaller than the range and in it. */
  function ItemSmallerThanRange(f: Elem -> RangeHint, a: NodeValue): (b: bool)
    ensures a.NegInf? ==> b
    ensures a.PosInf? ==> !b
    ensures a.Value? ==> (b <==> f(a.v) == SmallerThanRange)
    ensures b ==> !ItemInRange(f, a)
  {
    match a
    case NegInf => true
    case PosInf => false
    case Value(v) => f(v) == SmallerThanRange
  }

  /** `IterRangeWith::item_in_range`: never a sentinel, and an element
      exactly when `f` places it in range. */
  function ItemInRange(f: Elem -> RangeHint, a: NodeValue): (b: bool)
    ensures b ==> a.Value?
    ensures a.Value? ==> (b <==> f(a.v) == InRange)
  {
    match a
    case NegInf => false
    case PosInf => false
    case Value(v) => f(v) == InRange
  }

  function SmallerThan(f: Elem -> RangeHint): NodeValue -> bool {
    a => ItemSmallerThanRange(f, a)
  }

  /** The verdicts of the two tests for the classifier of range `2..=4`,
      cell by cell, as the unit test of `IterRangeWith` spells them out. */
  lemma {:induction false} InclusionExample()
    ensures var f := RangeOf(2, 4);
      && ItemSmallerThanRange(f, Value(1)) && !ItemSmallerThanRange(f, Value(2))
      && !ItemSmallerThanRange(f, Value(4)) && !ItemSmallerThanRange(f, Value(5))
      && ItemSmallerThanRange(f, NegInf) && !ItemSmallerThanRange(f, PosInf)
      && !ItemInRange(f, Value(1)) && ItemInRange(f, Value(2)) && ItemInRange(f, Value(3))
      && ItemInRange(f, Value(4)) && !ItemInRange(f, Value(5))
      && !ItemInRange(f, PosInf) && !ItemInRange(f, NegInf)
  {
  }

  /** For a monotone classifier the search test of `IterRangeWith` is a
      monotone classification of cells, so the left-biased descent applies;
      a cell is never both smaller than the range and in it. */
  lemma {:induction false} SmallerThanMonotone(f: Elem -> RangeHint)
    requires MonotoneHint(f)
    ensures Monotone(SmallerThan(f))
    ensures forall a :: ItemInRange(f, a) ==> !ItemSmallerThanRange(f, a) && a.Value?
  {
    forall a: Elem, b: Elem | a < b && SmallerThan(f)(Value(b))
      ensures SmallerThan(f)(Value(a))
    {
      assert Rank(f(a)) <= Rank(f(b));
    }
  }

  /** The classifier an inclusive `range(start, end)` stands for. */
  function RangeOf(start: Elem, end: Elem): Elem -> RangeHint {
    y => if y < start then SmallerThanRange else if y <= end then InRange else LargerThanRange
  }

  /** `RangeOf` is monotone, its range is `start..=end`, and its search test
      is SkipListRange's `node_value < start`. */
  lemma {:induction false} RangeOfFacts(start: Elem, end: Elem)
    ensures MonotoneHint(RangeOf(start, end))
    ensures forall y :: RangeOf(start, end)(y) == InRange <==> start <= y <= end
    ensures forall a :: ItemSmallerThanRange(RangeOf(start, end), a) == LessItem(a, start)
  {
    var f := RangeOf(start, end);
    forall a: Elem, b: Elem | a <= b
      ensures Rank(f(a)) <= Rank(f(b))
    {
    }
  }

  /** The elements of `xs` that `f` places in range, in their order. */
  function FilterRange(xs: seq<Elem>, f: Elem -> RangeHint): (ys: seq<Elem>)
    ensures |ys| <= |xs|
    ensures forall y :: y in ys <==> y in xs && f(y) == InRange
    ensures StrictlyIncreasing(xs) ==> StrictlyIncreasing(ys)
  {
    if xs == [] then []
    else if f(xs[0]) == InRange then
      var rest := FilterRange(xs[1..], f);
      ConsSorted(xs, rest);
      [xs[0]] + rest
    else FilterRange(xs[1..], f)
  }

  /** Keeping the head of a sorted sequence in front of a sorted selection
      of its tail keeps it sorted. */
  lemma {:induction false} ConsSorted(xs: seq<Elem>, rest: seq<Elem>)
    requires xs != [] && forall y :: y in rest ==> y in xs[1..]
    ensures StrictlyIncreasing(xs) && StrictlyIncreasing(rest) ==> StrictlyIncreasing([xs[0]] + rest)
  {
    if StrictlyIncreasing(xs) && StrictlyIncreasing(rest) {
      var s := [xs[0]] + rest;
      forall i, j | 0 <= i < j < |s|
        ensures s[i] < s[j]
      {
        assert s[j] == rest[j - 1] && rest[j - 1] in rest;
        var k :| 0 <= k < |xs[1..]| && xs[1..][k] == s[j];
        assert xs[k + 1] == s[j];
        if i > 0 {
          assert s[i] == rest[i - 1];
        }
      }
    }
  }

  /** The run of in-range elements at the front of `xs`: what a range
      iterator yields from where its search left it. */
  function TakeInRange(xs: seq<Elem>, f: Elem -> RangeHint): (ys: seq<Elem>)
    ensures |ys| <= |xs|
    ensures forall i | 0 <= i < |ys| :: ys[i] == xs[i] && f(xs[i]) == InRange
    ensures |ys| < |xs| ==> f(xs[|ys|]) != InRange
  {
    if xs == [] || f(xs[0]) != InRange then [] else [xs[0]] + TakeInRange(xs[1..], f)
  }

  /** Nothing in range, nothing yielded: an empty list, a range below or
      above every element. */
  lemma {:induction false} FilterNone(xs: seq<Elem>, f: Elem -> RangeHint)
    requires forall i | 0 <= i < |xs| :: f(xs[i]) != InRange
    ensures FilterRange(xs, f) == []
  {
    if xs != [] {
      FilterNone(xs[1..], f);
    }
  }

  /** Skipping a prefix of out-of-range elements does not change the filter. */
  lemma {:induction false} FilterSkip(xs: seq<Elem>, f: Elem -> RangeHint, c: nat)
    requires c <= |xs|
    requires forall i | 0 <= i < c :: f(xs[i]) != InRange
    ensures FilterRange(xs, f) == FilterRange(xs[c..], f)
  {
    if c > 0 {
      FilterSkip(xs[1..], f, c - 1);
      assert xs[1..][c - 1..] == xs[c..];
    }
  }

  /** On a sorted sequence with nothing below the range, a monotone
      classifier's in-range elements are a leading run. */
  lemma {:induction false} TakeIsFilter(xs: seq<Elem>, f: Elem -> RangeHint)
    requires StrictlyIncreasing(xs) && MonotoneHint(f)
    requires forall i | 0 <= i < |xs| :: f(xs[i]) != SmallerThanRange
    ensures TakeInRange(xs, f) == FilterRange(xs, f)
  {
    if xs == [] {
    } else if f(xs[0]) == InRange {
      TakeIsFilter(xs[1..], f);
    } else {
      forall i | 0 <= i < |xs[1..]|
        ensures f(xs[1..][i]) != InRange
      {
        assert xs[0] <= xs[i + 1];
        assert Rank(f(xs[0])) <= Rank(f(xs[i + 1]));
      }
      FilterNone(xs[1..], f);
    }
  }

  /** Where the descent of a range search lands on a sentinel row, for a
      search test `pred` that is the range's "smaller than" test: the first
      cell not smaller than the range, from which the run of in-range
      elements is exactly the row's in-range elements. */
  lemma {:induction false} RangeStart(row: Row, f: Elem -> RangeHint, pred: NodeValue -> bool)
    requires SentinelRow(row) && MonotoneHint(f)
    requires forall a :: pred(a) == ItemSmallerThanRange(f, a)
    ensures Monotone(pred)
    ensures var c := CountWhile(row, pred);
      && 1 <= c < |row|
      && TakeInRange(Payloads(row)[c - 1..], f) == FilterRange(Payloads(row), f)
  {
    SmallerThanMonotone(f);
    assert Monotone(pred) by {
      assert forall a :: pred(a) == SmallerThan(f)(a);
    }
    CountWhileExact(row, pred);
    var c := CountWhile(row, pred);
    SkippedPrefix(row, f, pred);
    RemainingTail(row, f, pred);
    TakeIsFilter(Payloads(row)[c - 1..], f);
  }

  /** The elements a range search passes over are out of range. */
  lemma {:induction false} SkippedPrefix(row: Row, f: Elem -> RangeHint, pred: NodeValue -> bool)
    requires SentinelRow(row) && Monotone(pred)
    requires forall a :: pred(a) == ItemSmallerThanRange(f, a)
    ensures var c := CountWhile(row, pred);
      1 <= c < |row| && FilterRange(Payloads(row), f) == FilterRange(Payloads(row)[c - 1..], f)
  {
    var xs := Payloads(row);
    CountWhileExact(row, pred);
    var c := CountWhile(row, pred);
    forall i | 0 <= i < c - 1
      ensures f(xs[i]) != InRange
    {
      assert row[i + 1] == Value(xs[i]) && pred(row[i + 1]);
    }
    FilterSkip(xs, f, c - 1);
  }

  /** The elements from where a range search stops on are not below the range. */
  lemma {:induction false} RemainingTail(row: Row, f: Elem -> RangeHint, pred: NodeValue -> bool)
    requires SentinelRow(row) && Monotone(pred)
    requires forall a :: pred(a) == ItemSmallerThanRange(f, a)
    ensures var c := CountWhile(row, pred); var tail := Payloads(row)[c - 1..];
      && 1 <= c < |row|
      && forall i | 0 <= i < |tail| :: f(tail[i]) != SmallerThanRange
  {
    var xs := Payloads(row);
    CountWhileExact(row, pred);
    var c := CountWhile(row, pred);
    var tail := xs[c - 1..];
    forall i | 0 <= i < |tail|
      ensures f(tail[i]) != SmallerThanRange
    {
      assert tail[i] == xs[c - 1 + i] && row[c + i] == Value(tail[i]) && !pred(row[c + i]);
    }
  }

  /** SkipListRange's descent for `start..=end` stops before the first cell
      not below `start`: from there on every element is at least `start`,
      and the run of elements up to `end` is the range's content. */
  lemma {:induction false} RangeSetup(row: Row, start: Elem, end: Elem)
    requires SentinelRow(row)
    ensures var c := CountWhile(row, Below(start)); var xs := Payloads(row);
      && 1 <= c < |row|
      && TakeInRange(xs[c - 1..], RangeOf(start, end)) == FilterRange(xs, RangeOf(start, end))
      && forall i | c - 1 <= i < |xs| :: start <= xs[i]
  {
    RangeOfFacts(start, end);
    RangeStart(row, RangeOf(start, end), Below(start));
    var c := CountWhile(row, Below(start));
    var xs := Payloads(row);
    forall i | c - 1 <= i < |xs|
      ensures start <= xs[i]
    {
      assert row[i + 1] == Value(xs[i]) && !Below(start)(row[i + 1]);
    }
  }

  /** IterRangeWith's descent for a monotone classifier stops before the
      first cell not smaller than the range; the run of in-range elements
      from there is the range's content. */
  lemma {:induction false} RangeWithSetup(row: Row, f: Elem -> RangeHint)
    requires SentinelRow(row) && MonotoneHint(f)
    ensures Monotone(SmallerThan(f))
    ensures var c := CountWhile(row, SmallerThan(f));
      && 1 <= c < |row|
      && TakeInRange(Payloads(row)[c - 1..], f) == FilterRange(Payloads(row), f)
  {
    RangeStart(row, f, SmallerThan(f));
  }
}
