# convenient-skiplist, modelled in Dafny

A verified model of the skip-list engine of `convenient-skiplist`. The crate keeps an ordered, duplicate-free set as a grid of rows:

- every row is a linked list that runs from a `NegInf` sentinel to a `PosInf` sentinel;
- nodes link `right` along their row and `down` into the row below;
- every column holds one value;
- each row's elements are a subset of the row below;
- the bottom row holds the whole set.

The model covers these parts of the crate:

- the cell values and their comparisons (`NodeValue`);
- the structure and its changes (`new`, `add_levels`, `pos_neg_pair`, `make_node`, `insert`);
- the left-biased search (`iter_left`, `path_to`, `contains`);
- the debug invariant checkers (`ensure_rows_ordered`, `ensure_columns_same_value`, `ensure_invariants`);
- the four iterators of src/iter.rs (`LeftBiasIter`, `IterAll`, `SkipListRange`, `IterRangeWith`).

Files and modules:

- `node_value.dfy` (`Options`, `NodeValues`): cell values, `get_value`, the equality with an element, and both `PartialOrd` impls.
- `table.dfy` (`Tables`): the abstract value of a skip list. It is a *table*: the rows, top to bottom, each a sequence of cell values. The table's invariant is `TableValid`. The operations are specified as functions on tables: `NewSpec`, `AddLevelsSpec`, `InsertSpec`, `Grow`, `SpliceBottom`. The lemmas about those functions carry the set-level properties.
- `grid.dfy` (`Grid`): the nodes as an arena, a `seq<Node>` whose `right`/`down` links are arena indices. This stands in for the crate's `NonNull` pointers. A proof-only `Layout` records the row and place of every node. `TableOf` reads the table off the grid. `Valid` is the representation invariant. The module also holds the grid-level steps of `add_levels` and `insert`, and the search path `LeftPath`.
- `checks.dfy` (`Checks`): what the debug checkers assert, stated on the grid, and the proof that a valid grid passes them.
- `ranges.dfy` (`Ranges`): `RangeHint`, the classifier tests of `IterRangeWith`, and the sequences the range iterators must yield (`FilterRange`).
- `iter.dfy` (`Iterators`): the four iterators as classes whose `next` updates their fields in place. Each is proved to yield a sequence stated on the table.
- `skiplist.dfy` (`SkipLists`): the `SkipList` class (`nodes`, `topLeft`, `height`). Its methods follow src/lib.rs and are proved against the table functions.

## Model

| member | source | states |
|---|---|---|
| NodeValues.GetValue | src/lib.rs:16-23 | only defined on `Value(v)`; yields the payload `v` |
| NodeValues.EqItem | src/lib.rs:25-33 | a cell value equals an element exactly when it is `Value` of that element; sentinels never equal one |
| NodeValues.CompareNodes | src/lib.rs:35-45 | defined where the `unreachable!()` arm is missed (left NegInf, right PosInf, or two values); `Less` exactly for ExtLess or two equal sentinels; `Equal` exactly for equal values |
| NodeValues.CompareItem | src/lib.rs:47-56 | NegInf is below every element, PosInf above every element, a value compares by payload: `Less`/`Equal`/`Greater` agree with ExtLess and EqItem |
| NodeValues.LessItem | src/lib.rs:47-56 | `node_value < item` holds exactly when the cell is below the element in the extended order (NegInf always, PosInf never) |
| NodeValues.AtLeastItem | src/lib.rs:47-56 | `node_value >= item` is the complement of `<`: the cell equals the element or lies above it |
| NodeValues.AtMostItem | src/lib.rs:47-56 | `node_value <= item` holds exactly when the cell is below or equal to the element, i.e. not above it |
| NodeValues.CompareConsistent | src/lib.rs:35-56 | the two impls agree on every pair both define |
| Tables.NewSpecShape | src/lib.rs:161-168 | `new` builds three rows, each `NegInf -> PosInf`; the table is valid and holds no element |
| Tables.AddLevelsValid | src/lib.rs:171-187 | `add_levels(k)` adds exactly `k` rows, each `NegInf -> PosInf`, directly below the top row, keeps the top row and every old row below the new ones, keeps the invariant and the elements |
| Tables.GrowValid | src/lib.rs:320-325 | the growth step leaves the table valid, taller than the level, with the same elements |
| Tables.SpliceRow | src/lib.rs:335-345 | splicing an absent `x` into a sentinel row right of the search's stop cell keeps it a sentinel row, one cell longer, with exactly `x` added |
| Tables.SpliceBottomValid | src/lib.rs:335-345 | splicing an absent `x` into the bottom `h` rows keeps the table valid |
| Tables.InsertFresh | src/lib.rs:311-350 | inserting an absent `x` with level `h` keeps the invariant, makes the table exactly as tall as `max(h + 1, height)`, puts `x` in exactly the bottom `h` rows, and adds exactly `x` to the set |
| Tables.InsertThenContains | src/lib.rs:317-319 | after `insert(x)`, `x` is an element and the set is the old set plus `x`; inserting a present element changes nothing |
| Tables.InsertIdempotent | src/lib.rs:317-319 | inserting `x` twice, whatever the levels drawn, is inserting it once |
| Tables.ContainsByPath | src/lib.rs:212-222 | the bottom row's first cell not below `x` equals `x` exactly when `x` is an element |
| Tables.CountWhileExact | src/iter.rs:244-284 | on a sentinel row the cells a left-biased search passes are exactly those before its stop index, which lies between the sentinels |
| Ranges.ItemSmallerThanRange | src/iter.rs:312-326 | NegInf is always smaller than the range, PosInf never; an element is exactly when the classifier says `SmallerThanRange`; nothing smaller than the range is in it |
| Ranges.ItemInRange | src/iter.rs:328-340 | no sentinel is in range; an element is exactly when the classifier says `InRange` |
| Ranges.InclusionExample | src/iter.rs:459-489 | for the classifier of `2..=4`, both tests give the verdicts the unit test expects on 1..5 and on both sentinels |
| Ranges.SmallerThanMonotone | src/iter.rs:312-340 | for a monotone classifier, `item_smaller_than_range` holds on a prefix of every sorted row, and no cell is both smaller than the range and in it |
| Ranges.RangeOfFacts | src/iter.rs:168-204 | the tests of `SkipListRange` (`< start` to search, `<= end` to yield) are those of a monotone classifier whose range is `start..=end` |
| Ranges.FilterRange | src/iter.rs:350-396 | the in-range elements of a sequence: exactly those the classifier places in range, sorted when the input is |
| Ranges.TakeIsFilter | src/iter.rs:382-394 | on a sorted sequence with nothing below the range, the leading run of in-range elements is all of them |
| Ranges.FilterNone | src/iter.rs:515-567 | with nothing in range, nothing is yielded |
| Ranges.RangeSetup | src/iter.rs:171-204 | where SkipListRange's descent lands on the bottom row, the run it yields is exactly the elements in `start..=end` |
| Ranges.RangeWithSetup | src/iter.rs:350-396 | the same for IterRangeWith and a monotone classifier |
| Grid.FirstRow | src/lib.rs:229-243 | the pair `pos_neg_pair` makes is a valid one-row grid `NegInf -> PosInf` |
| Grid.AddRowStep | src/lib.rs:173-185 | one round of `add_levels`' loop on the grid is one new sentinel row in the table, and keeps the grid valid |
| Grid.SpliceStep | src/lib.rs:335-345 | linking a fresh node right of a path node, with `down` to the node made before, splices `x` into that row of the table |
| Grid.SpliceRowsStep | src/lib.rs:335-345 | one round of `insert`'s loop, from the bottom up, takes the grid from `i` spliced rows to `i + 1` |
| Grid.LeftPathFacts | src/iter.rs:244-284 | the search path has one node per row, top row first, the last on the bottom row; each node is below `item` and has a right neighbour that is not |
| Grid.LastStop | src/lib.rs:212-222 | the right neighbour of the path's last node is the bottom row's first cell not below `item` |
| Grid.Views | src/iter.rs:105-142 | a valid grid's sentinel column leads down to the bottom row, which lists the elements between its sentinels |
| Checks.ValidPasses | src/lib.rs:302-309 | a valid grid has the shape the checkers walk, and passes all three checks of `ensure_invariants` |
| Checks.SentinelRowOrdered | src/lib.rs:282-300 | a sentinel row passes `ensure_rows_ordered`'s comparison and the intended strict order |
| Checks.ValidSameBelow | src/lib.rs:256-280 | in a valid grid every cell with a right neighbour has its own value all the way down its column |
| Checks.RepeatedSentinelPasses | src/lib.rs:35-45 | as written, `NegInf < NegInf` and `PosInf < PosInf`, so the row `NegInf, NegInf, PosInf` passes the rows check though it is not a sentinel row |
| Checks.StrictRowIsSentinelRow | src/lib.rs:282-300 | with the intended strict order, a row between its two sentinels passes neighbour by neighbour exactly when it is a sentinel row |
| Iterators.LeftBiasIter.constructor | src/iter.rs:234-242 | a fresh search from the top-left sentinel, not finished, with the whole path to come |
| Iterators.LeftBiasIter.Next | src/iter.rs:244-284 | yields the search path's nodes one per call, top row first; after the bottom row's node it is finished and yields `None` for good |
| Iterators.IterAll.constructor | src/iter.rs:93-103 | the iterator will yield exactly the elements of the set, in ascending order |
| Iterators.IterAll.Next | src/iter.rs:105-142 | yields the elements one per call in ascending order, never a sentinel, then `None` for good |
| Iterators.IterAll.Descend | src/iter.rs:112-124 | the first call walks the sentinel column to the bottom row and one step right |
| Iterators.IterAll.Yield | src/iter.rs:125-141 | yields the current element and moves right, finishing before PosInf |
| Iterators.SkipListRange.constructor | src/iter.rs:157-166 | the iterator will yield exactly the elements in `start..=end`, in ascending order |
| Iterators.SkipListRange.Next | src/iter.rs:168-222 | yields those elements one per call, then `None` for good |
| Iterators.SkipListRange.Descend | src/iter.rs:172-193 | the descent stops on the bottom row's first cell not below `start` |
| Iterators.SkipListRange.Yield | src/iter.rs:194-204 | yields the current element while it is at most `end` and moves right |
| Iterators.IterRangeWith.constructor | src/iter.rs:296-311 | for a monotone classifier, the iterator will yield exactly the elements it places in range, in ascending order |
| Iterators.IterRangeWith.Next | src/iter.rs:343-397 | yields those elements one per call, then `None` for good |
| Iterators.IterRangeWith.Descend | src/iter.rs:350-383 | the descent stops on the bottom row's first cell not smaller than the range |
| Iterators.IterRangeWith.Yield | src/iter.rs:384-396 | yields the current element while the classifier places it in range and moves right |
| Iterators.SearchBottom | src/iter.rs:172-193 | the descent both range iterators share lands on the bottom row just after the cells its test accepts |
| Iterators.RangeLanding | src/iter.rs:168-204 | from where SkipListRange's descent lands, the elements up to `end` are the range's content, and none is below `start` |
| Iterators.RangeWithLanding | src/iter.rs:343-397 | from where IterRangeWith's descent lands, the run of in-range elements is the range's content |
| SkipLists.SkipList.constructor | src/lib.rs:161-168 | a valid skip list of height 3 whose table is `NewSpec` |
| SkipLists.SkipList.PosNegPair | src/lib.rs:229-243 | appends a NegInf node linked right to a fresh PosInf node, neither linked down |
| SkipLists.SkipList.MakeNode | src/lib.rs:244-253 | appends an unlinked node holding the value |
| SkipLists.SkipList.AddLevels | src/lib.rs:171-187 | keeps the list valid; its table becomes `AddLevelsSpec(old, k)`; `height` grows by `k` |
| SkipLists.SkipList.IterLeft | src/lib.rs:189-192 | a search for `item` from the top-left sentinel whose path is `Path(item)` |
| SkipLists.SkipList.IterAll | src/lib.rs:194-197 | an iterator that will yield exactly `Contents()` |
| SkipLists.SkipList.Range | src/lib.rs:199-202 | an iterator that will yield exactly the elements in `start..=end` |
| SkipLists.SkipList.RangeWith | src/lib.rs:204-210 | an iterator that will yield exactly the elements a monotone classifier places in range |
| SkipLists.SkipList.PathTo | src/lib.rs:224-227 | collects the whole search path, one node per row, top row first |
| SkipLists.SkipList.LastOnPath | src/lib.rs:212-216 | the last node the search yields, on the bottom row |
| SkipLists.SkipList.Contains | src/lib.rs:212-222 | `true` exactly when `item` is an element |
| SkipLists.SkipList.Insert | src/lib.rs:311-350 | keeps the list valid; its table becomes `InsertSpec(old, item, level)`; the set becomes the old set plus `item`; the list is taller than `level` when `item` was absent |
| SkipLists.SkipList.GrowTo | src/lib.rs:320-325 | makes the list taller than `level` as `Grow` says, with the same elements |
| SkipLists.SkipList.SpliceColumn | src/lib.rs:330-345 | splices an absent `item` into the bottom `level` rows, keeping the list valid |
| SkipLists.SkipList.SpliceRows | src/lib.rs:335-345 | the loop over the reversed path: after `level` rounds the grid spells `SpliceBottom(t, item, level)` |
| SkipLists.SkipList.ChecksHold | src/lib.rs:302-309 | none of the three checks fires on a valid skip list |
| SkipLists.SkipList.EnsureRowsOrdered | src/lib.rs:282-300 | passes exactly when every row is ordered neighbour by neighbour under `PartialOrd<NodeValue>` |
| SkipLists.SkipList.EnsureColumnsSameValue | src/lib.rs:256-280 | passes exactly when, below every cell with a right neighbour, the column holds that cell's value |
| SkipLists.SkipList.ColumnSameValue | src/lib.rs:262-266 | passes exactly when every cell down the column holds the top cell's value |
| SkipLists.SkipList.EnsureInvariants | src/lib.rs:302-309 | passes exactly when the top-left sentinel's right neighbour is PosInf and both other checks pass |

## Left out

- The element type is an unbounded `int`. The crate is generic over `T: PartialOrd + Clone`; a partial order whose `partial_cmp` answers `None` is not modelled.
- `get_level` (src/lib.rs:151-158) draws the level with `rand::thread_rng` and `f32` samples. The model takes the level as a parameter `level >= 1` of `Insert`.
- `height` is a `u32`, and `insert` computes the missing levels as an `i32`. The model uses unbounded naturals, so wrap-around past 2^31 levels is not modelled.
- The `#[cfg(debug_assertions)]` calls of `ensure_invariants` inside `insert` (src/lib.rs:312-315, 326-329, 346-349) are not repeated in `Insert`. `ChecksHold` shows they never fire on a valid list, and `Insert` keeps the list valid.
- `Drop for SkipList` (src/lib.rs:89-116) frees nodes. In an arena model there is nothing to free.
- The `Debug` impls (src/lib.rs:64-82, 118-142) are formatting only.
- `Default` (src/lib.rs:144-148) only calls `new`.
- `IntoIter` (src/iter.rs:6-53) reads a `len` field `SkipList` does not have. It also calls `get_value` on the sentinels of the top row, so it does not work as written.
- The commented-out `Drain` (src/iter.rs:54-80) is not modelled.
- `IterAll::new` takes a second argument, `total_len`, that `iter_all` does not pass (src/iter.rs:95, src/lib.rs:196). The model follows the call: it takes only the start node. `size_hint` is not modelled.
- `RangeHint` is not defined in src/lib.rs or src/iter.rs. The model declares it with the three variants src/iter.rs matches on.
- Iterators.IterRangeWith.constructor: requires a monotone classifier. For a classifier that is not monotone (the random one of `test_range_pathological_no_panic`, src/iter.rs:570-594), the model says nothing.
- The iterators hold the arena and layout as constants. The crate's iterators borrow the list immutably, so nothing can change the list while they run; aliasing of nodes is not otherwise modelled.
- Iterators.IterAll.Yield: the `NegInf` arm of `next` (src/iter.rs:127-129) is proved unreachable from a valid grid, so its step is not modelled.
- The `debug_assert!(self.curr_node.down.is_none())` of the range iterators is not repeated. The model proves that the descent ends on the bottom row.
- `remove`, `pop_max`, `pop_min`, `len`, `at_index`, `index_of` and width bookkeeping are called from examples/simple.rs and benches/convenient_skiplist.rs, but are not defined in src/lib.rs or src/iter.rs. They are not part of this model.
- src/serde.rs, the benchmarks, the allocator test in tests/checkers_test.rs, examples/simple.rs and src/main.rs are not part of this model.

## Findings

| source | as written | input that shows it | evidently intended | confidence | as-written member | corrected member |
|---|---|---|---|---|---|---|
| src/lib.rs:35-45 | `partial_cmp` answers `Less` for (NegInf, NegInf) and for (PosInf, PosInf), while the derived `PartialEq` calls each pair equal. So `ensure_rows_ordered` (src/lib.rs:282-300) accepts a row that repeats a sentinel | the row `NegInf, NegInf, PosInf` | a strict order on cell values: equal sentinels are not less than each other, and the rows check passes exactly the sentinel rows | medium; not executed | Checks.RepeatedSentinelPasses | Checks.StrictRowIsSentinelRow |
