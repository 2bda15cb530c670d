/// The abstract value of a skip list: its rows, top to bottom, each read
/// left to right as a sequence of cell values. The operations of
/// src/lib.rs are specified here as functions on tables.

module Tables {
  import opened NodeValues

  type Row = seq<NodeValue>
  type Table = seq<Row>

  /** A row as the structure keeps it: NegInf, strictly increasing elements, PosInf. */
  predicate SentinelRow(row: Row) {
    && |row| >= 2
    && row[0] == NegInf
    && row[|row| - 1] == PosInf
    && (forall i | 0 < i < |row| - 1 :: row[i].Value?)
    && (forall i, j | 0 < i < j < |row| - 1 :: row[i].v < row[j].v)
  }

  /** The representation invariant: every row is a sentinel row, the top row
      holds no element, and each row's cells also appear in the row below. */
  predicate TableValid(t: Table) {
    && |t| >= 1
    && |t[0]| == 2
    && (forall r | 0 <= r < |t| :: SentinelRow(t[r]))
    && (forall r | 0 <= r < |t| - 1 :: Subrow(t[r], t[r + 1]))
  }

  /** Every cell of `a` also appears in `b`. */
  predicate Subrow(a: Row, b: Row) {
    forall i | 0 <= i < |a| :: a[i] in b
  }

  predicate StrictlyIncreasing(xs: seq<Elem>) {
    forall i, j | 0 <= i < j < |xs| :: xs[i] < xs[j]
  }

  /** The elements of a sentinel row, without its sentinels. */
  function Payloads(row: Row): (xs: seq<Elem>)
    requires SentinelRow(row)
    ensures |xs| == |row| - 2
    ensures forall i | 0 <= i < |xs| :: row[i + 1] == Value(xs[i])
    ensures StrictlyIncreasing(xs)
  {
    seq(|row| - 2, i requires 0 <= i < |row| - 2 => row[i + 1].v)
  }

  function Bottom(t: Table): Row
    requires |t| >= 1
  {
    t[|t| - 1]
  }

  /** The set the skip list represents, in ascending order: its bottom row. */
  function Elements(t: Table): seq<Elem>
    requires TableValid(t)
  {
    Payloads(Bottom(t))
  }

  /** A sentinel row of a valid table lists each element at most once. */
  lemma {:induction false} RowMembership(row: Row, x: Elem)
    requires SentinelRow(row)
    ensures Value(x) in row <==> x in Payloads(row)
  {
    if Value(x) in row {
      var i :| 0 <= i < |row| && row[i] == Value(x);
      assert Payloads(row)[i - 1] == x;
    }
  }

  // ---------------------------------------------------------------------
  // Left-biased descent: where a search stops in a row.

  /** A classification of cell values that is true on a prefix of every
      sentinel row: true of NegInf, false of PosInf, and downward closed on
      elements. Searching for `x` uses `Below(x)`. */
  ghost predicate Monotone(pred: NodeValue -> bool) {
    && pred(NegInf)
    && !pred(PosInf)
    && (forall a: Elem, b: Elem | a < b && pred(Value(b)) :: pred(Value(a)))
  }

  /** `node_value < item`, as the search of LeftBiasIter and SkipListRange tests it. */
  function Below(x: Elem): NodeValue -> bool {
    a => LessItem(a, x)
  }

  /** The number of leading cells of `row` that satisfy `pred`. A left-biased
      search that moves right while the right neighbour satisfies `pred`
      stops in this row at index `CountWhile(row, pred) - 1`. */
  function CountWhile(row: Row, pred: NodeValue -> bool): (n: nat)
    ensures n <= |row|
    ensures forall i | 0 <= i < n :: pred(row[i])
    ensures n < |row| ==> !pred(row[n])
  {
    if row == [] || !pred(row[0]) then 0 else 1 + CountWhile(row[1..], pred)
  }

  lemma {:induction false} MonotoneBelow(x: Elem)
    ensures Monotone(Below(x))
  {
  }

  /** On a sentinel row and a monotone classification, the cells that satisfy
      it are exactly those left of the stop index, which lies strictly
      between the sentinels' ends: a search always stops on a node with a
      right neighbour. */
  lemma {:induction false} CountWhileExact(row: Row, pred: NodeValue -> bool)
    requires SentinelRow(row) && Monotone(pred)
    ensures 1 <= CountWhile(row, pred) < |row|
    ensures forall i | 0 <= i < |row| :: pred(row[i]) <==> i < CountWhile(row, pred)
  {
    var n := CountWhile(row, pred);
    assert pred(row[0]);
    assert !pred(row[|row| - 1]);
  }

  /** `row` with `Value(x)` spliced in right of the search's stop node: the
      row after an insertion into it. */
  function Splice(row: Row, x: Elem): Row {
    var n := CountWhile(row, Below(x));
    row[..n] + [Value(x)] + row[n..]
  }

  /** Where the cells of `row` sit in `Splice(row, x)`. */
  lemma {:induction false} SpliceIndex(row: Row, x: Elem)
    ensures var n := CountWhile(row, Below(x)); var s := Splice(row, x);
      && |s| == |row| + 1
      && s[n] == Value(x)
      && (forall i | 0 <= i < n :: s[i] == row[i])
      && (forall i | n < i < |s| :: s[i] == row[i - 1])
  {
  }

  lemma {:induction false} SpliceRow(row: Row, x: Elem)
    requires SentinelRow(row) && Value(x) !in row
    ensures SentinelRow(Splice(row, x))
    ensures |Splice(row, x)| == |row| + 1
    ensures forall a :: a in Splice(row, x) <==> a in row || a == Value(x)
  {
    SpliceSorted(row, x);
    SpliceMembers(row, x);
  }

  lemma {:induction false} SpliceSorted(row: Row, x: Elem)
    requires SentinelRow(row) && Value(x) !in row
    ensures SentinelRow(Splice(row, x))
  {
    MonotoneBelow(x);
    CountWhileExact(row, Below(x));
    SpliceIndex(row, x);
    var n := CountWhile(row, Below(x));
    var s := Splice(row, x);
    forall i | 0 < i < |s| - 1
      ensures s[i].Value?
    {
      if i < n {
        assert s[i] == row[i];
      } else if i > n {
        assert s[i] == row[i - 1];
      }
    }
    forall i, j | 0 < i < j < |s| - 1
      ensures s[i].v < s[j].v
    {
      if j < n {
        assert s[i] == row[i] && s[j] == row[j];
      } else if j == n {
        assert s[i] == row[i] && LessItem(row[i], x);
      } else if i < n {
        assert s[i] == row[i] && LessItem(row[i], x);
        assert s[j] == row[j - 1] && !LessItem(row[j - 1], x);
      } else if i == n {
        assert s[j] == row[j - 1] && !LessItem(row[j - 1], x);
        assert row[j - 1] != Value(x);
      } else {
        assert s[i] == row[i - 1] && s[j] == row[j - 1];
      }
    }
  }

  lemma {:induction false} SpliceMembers(row: Row, x: Elem)
    requires SentinelRow(row)
    ensures forall a :: a in Splice(row, x) <==> a in row || a == Value(x)
  {
    SpliceIndex(row, x);
    var n := CountWhile(row, Below(x));
    var s := Splice(row, x);
    forall a | a in row
      ensures a in s
    {
      var i :| 0 <= i < |row| && row[i] == a;
      if i < n { assert s[i] == a; } else { assert s[i + 1] == a; }
    }
    forall a | a in s
      ensures a in row || a == Value(x)
    {
      var i :| 0 <= i < |s| && s[i] == a;
      if i < n { assert row[i] == a; } else if i > n { assert row[i - 1] == a; }
    }
  }

  // ---------------------------------------------------------------------
  // The operations.

  /** `add_levels(k)`: `k` fresh NegInf -> PosInf rows directly below the top row. */
  function AddLevelsSpec(t: Table, k: nat): (t': Table)
    requires |t| >= 1
  {
    [t[0]] + seq(k, _ => [NegInf, PosInf]) + t[1..]
  }

  /** `new`: one sentinel pair, grown by two levels. */
  function NewSpec(): Table {
    AddLevelsSpec([[NegInf, PosInf]], 2)
  }

  /** The growth step of `insert`: `add_levels(h - height + 1)` when that is
      positive, so that the table ends up taller than `h`. */
  function Grow(t: Table, h: nat): (g: Table)
    requires |t| >= 1
  {
    if h + 1 > |t| then AddLevelsSpec(t, h + 1 - |t|) else t
  }

  lemma {:induction false} GrowValid(t: Table, h: nat)
    requires TableValid(t)
    ensures TableValid(Grow(t, h)) && |Grow(t, h)| > h && Elements(Grow(t, h)) == Elements(t)
    ensures |Grow(t, h)| == (if h + 1 > |t| then h + 1 else |t|)
  {
    if h + 1 > |t| {
      AddLevelsValid(t, h + 1 - |t|);
      assert Grow(t, h) == AddLevelsSpec(t, h + 1 - |t|);
    } else {
      assert Grow(t, h) == t;
    }
  }

  /** `insert(x)` with `h` the level `get_level` drew: nothing changes when `x`
      is present; otherwise the table grows until it is taller than `h` and
      `x` is spliced into each of its bottom `h` rows. */
  function InsertSpec(t: Table, x: Elem, h: nat): (t': Table)
    requires TableValid(t)
  {
    if Value(x) in Bottom(t) then t
    else
      SpliceBottom(Grow(t, h), x, h)
  }

  /** The splicing step of `insert`: `x` into each of the bottom `h` rows. */
  function SpliceBottom(g: Table, x: Elem, h: nat): (t': Table)
    ensures |t'| == |g|
    ensures forall r {:trigger t'[r]} | 0 <= r < |g| :: t'[r] == if r >= |g| - h then Splice(g[r], x) else g[r]
  {
    seq(|g|, r requires 0 <= r < |g| => if r >= |g| - h then Splice(g[r], x) else g[r])
  }

  /** `insert` splices the bottom rows one at a time, bottom-up: splicing
      row `|g| - 1 - i` into the table whose bottom `i` rows are spliced
      gives the table whose bottom `i + 1` rows are. */
  lemma {:induction false} SpliceBottomNext(g: Table, x: Elem, i: nat)
    requires i < |g|
    ensures var r := |g| - 1 - i; var s := SpliceBottom(g, x, i);
      s[r] == g[r] && s[r := Splice(s[r], x)] == SpliceBottom(g, x, i + 1)
  {
    var r := |g| - 1 - i;
    var s := SpliceBottom(g, x, i);
    var s' := SpliceBottom(g, x, i + 1);
    assert |s[r := Splice(s[r], x)]| == |s'|;
    forall j | 0 <= j < |s'|
      ensures s[r := Splice(s[r], x)][j] == s'[j]
    {
    }
  }

  lemma {:induction false} SpliceSubrow(a: Row, b: Row, x: Elem)
    requires SentinelRow(a) && SentinelRow(b) && Value(x) !in a && Value(x) !in b && Subrow(a, b)
    ensures Subrow(a, Splice(b, x)) && Subrow(Splice(a, x), Splice(b, x))
  {
    SpliceRow(a, x);
    SpliceRow(b, x);
    var a', b' := Splice(a, x), Splice(b, x);
    forall i | 0 <= i < |a'|
      ensures a'[i] in b'
    {
      assert a'[i] in a';
      if a'[i] != Value(x) {
        assert a'[i] in a;
        var j :| 0 <= j < |a| && a[j] == a'[i];
      }
    }
    forall i | 0 <= i < |a|
      ensures a[i] in b'
    {
      assert a[i] in b;
    }
  }

  lemma {:induction false} SpliceBottomValid(g: Table, x: Elem, h: nat)
    requires TableValid(g) && |g| > h
    requires forall r | 0 <= r < |g| :: Value(x) !in g[r]
    ensures TableValid(SpliceBottom(g, x, h))
    ensures forall r | 0 <= r < |g| :: Value(x) in SpliceBottom(g, x, h)[r] <==> r >= |g| - h
  {
    var t' := SpliceBottom(g, x, h);
    forall r | 0 <= r < |g|
      ensures SentinelRow(t'[r])
      ensures Value(x) in t'[r] <==> r >= |g| - h
    {
      if r >= |g| - h {
        SpliceRow(g[r], x);
      }
    }
    forall r | 0 <= r < |g| - 1
      ensures Subrow(t'[r], t'[r + 1])
    {
      assert Subrow(g[r], g[r + 1]);
      if r + 1 >= |g| - h {
        SpliceSubrow(g[r], g[r + 1], x);
      }
    }
  }

  // ---------------------------------------------------------------------
  // Properties of the operations.

  lemma {:induction false} NewSpecShape()
    ensures NewSpec() == [[NegInf, PosInf], [NegInf, PosInf], [NegInf, PosInf]]
    ensures TableValid(NewSpec()) && Elements(NewSpec()) == []
  {
  }

  /** `add_levels(k)` keeps the invariant, adds exactly `k` rows, keeps every
      existing row and leaves the represented elements unchanged. */
  lemma {:induction false} AddLevelsValid(t: Table, k: nat)
    requires TableValid(t)
    ensures |AddLevelsSpec(t, k)| == |t| + k
    ensures AddLevelsSpec(t, k)[0] == t[0]
    ensures forall r | 1 <= r <= k :: AddLevelsSpec(t, k)[r] == [NegInf, PosInf]
    ensures forall r | 1 <= r < |t| :: AddLevelsSpec(t, k)[r + k] == t[r]
    ensures TableValid(AddLevelsSpec(t, k))
    ensures Elements(AddLevelsSpec(t, k)) == Elements(t)
  {
    var t' := AddLevelsSpec(t, k);
    assert t[0] == [NegInf, PosInf];
    forall r | 0 <= r < |t'|
      ensures SentinelRow(t'[r])
    {
      if r == 0 { } else if r <= k { assert t'[r] == [NegInf, PosInf]; } else { assert t'[r] == t[r - k]; }
    }
    forall r | 0 <= r < |t'| - 1
      ensures Subrow(t'[r], t'[r + 1])
    {
      if r <= k {
        assert t'[r] == [NegInf, PosInf];
        assert t'[r + 1][0] == NegInf && t'[r + 1][|t'[r + 1]| - 1] == PosInf;
      } else {
        assert t'[r] == t[r - k] && t'[r + 1] == t[r - k + 1];
      }
    }
    if |t| == 1 {
      assert Bottom(t') == [NegInf, PosInf] == Bottom(t);
    } else {
      assert Bottom(t') == Bottom(t);
    }
  }

  /** A cell value found in some row is also in the bottom row. */
  lemma {:induction false} InRowThenInBottom(t: Table, r: nat, a: NodeValue)
    requires TableValid(t) && r < |t| && a in t[r]
    ensures a in Bottom(t)
    decreases |t| - r
  {
    if r < |t| - 1 {
      var i :| 0 <= i < |t[r]| && t[r][i] == a;
      assert Subrow(t[r], t[r + 1]);
      InRowThenInBottom(t, r + 1, a);
    }
  }

  /** `x` is in no row of a valid table whose bottom row lacks it. */
  lemma {:induction false} AbsentEverywhere(t: Table, x: Elem)
    requires TableValid(t) && Value(x) !in Bottom(t)
    ensures forall r | 0 <= r < |t| :: Value(x) !in t[r]
  {
    forall r | 0 <= r < |t| && Value(x) in t[r]
      ensures false
    {
      InRowThenInBottom(t, r, Value(x));
    }
  }

  /** `insert` keeps the invariant. An insertion of an absent `x` with level
      `h` leaves the table taller than `h`, puts `x` in exactly the bottom `h`
      rows, and adds exactly `x` to the represented set. */
  lemma {:induction false} InsertFresh(t: Table, x: Elem, h: nat)
    requires TableValid(t) && h >= 1 && x !in Elements(t)
    ensures TableValid(InsertSpec(t, x, h))
    ensures |InsertSpec(t, x, h)| == (if h + 1 > |t| then h + 1 else |t|)
    ensures forall r | 0 <= r < |InsertSpec(t, x, h)| ::
      Value(x) in InsertSpec(t, x, h)[r] <==> r >= |InsertSpec(t, x, h)| - h
    ensures forall y :: y in Elements(InsertSpec(t, x, h)) <==> y in Elements(t) || y == x
  {
    RowMembership(Bottom(t), x);
    var g := Grow(t, h);
    GrowValid(t, h);
    AbsentEverywhere(g, x);
    SpliceBottomValid(g, x, h);
    var t' := InsertSpec(t, x, h);
    assert t' == SpliceBottom(g, x, h);
    ElementsSplice(g, x, h);
  }

  lemma {:induction false} ElementsSplice(g: Table, x: Elem, h: nat)
    requires TableValid(g) && |g| > h >= 1
    requires forall r | 0 <= r < |g| :: Value(x) !in g[r]
    requires TableValid(SpliceBottom(g, x, h))
    ensures forall y :: y in Elements(SpliceBottom(g, x, h)) <==> y in Elements(g) || y == x
  {
    var t' := SpliceBottom(g, x, h);
    var b := Bottom(g);
    assert Value(x) !in b;
    assert SentinelRow(b);
    assert Bottom(t') == Splice(b, x);
    SplicePayloads(b, x);
    assert Elements(t') == Payloads(Splice(b, x));
    assert Elements(g) == Payloads(b);
  }

  lemma {:induction false} SplicePayloads(row: Row, x: Elem)
    requires SentinelRow(row) && Value(x) !in row
    ensures SentinelRow(Splice(row, x))
    ensures forall y :: y in Payloads(Splice(row, x)) <==> y in Payloads(row) || y == x
  {
    SpliceRow(row, x);
    forall y
      ensures y in Payloads(Splice(row, x)) <==> y in Payloads(row) || y == x
    {
      RowMembership(Splice(row, x), y);
      RowMembership(row, y);
    }
  }

  lemma {:induction false} InsertValid(t: Table, x: Elem, h: nat)
    requires TableValid(t) && h >= 1
    ensures TableValid(InsertSpec(t, x, h))
  {
    RowMembership(Bottom(t), x);
    if x !in Elements(t) {
      InsertFresh(t, x, h);
    }
  }

  /** After `insert(x)`, `x` is an element; an insertion of an element that is
      already present leaves the table as it was. */
  lemma {:induction false} InsertThenContains(t: Table, x: Elem, h: nat)
    requires TableValid(t) && h >= 1
    ensures TableValid(InsertSpec(t, x, h))
    ensures x in Elements(InsertSpec(t, x, h))
    ensures x in Elements(t) ==> InsertSpec(t, x, h) == t
    ensures forall y :: y in Elements(InsertSpec(t, x, h)) <==> y in Elements(t) || y == x
  {
    RowMembership(Bottom(t), x);
    if x !in Elements(t) {
      InsertFresh(t, x, h);
    }
  }

  /** Inserting the same element twice, whatever the levels drawn, is
      inserting it once. */
  lemma {:induction false} InsertIdempotent(t: Table, x: Elem, h: nat, h2: nat)
    requires TableValid(t) && h >= 1 && h2 >= 1
    ensures TableValid(InsertSpec(t, x, h))
    ensures InsertSpec(InsertSpec(t, x, h), x, h2) == InsertSpec(t, x, h)
  {
    InsertThenContains(t, x, h);
    InsertThenContains(InsertSpec(t, x, h), x, h2);
  }

  /** `contains`: the right neighbour of the bottom row's stop node equals `x`
      exactly when `x` is an element. */
  lemma {:induction false} ContainsByPath(t: Table, x: Elem)
    requires TableValid(t)
    ensures var row := Bottom(t); var n := CountWhile(row, Below(x));
      n < |row| && (EqItem(row[n], x) <==> x in Elements(t))
  {
    var row := Bottom(t);
    MonotoneBelow(x);
    CountWhileExact(row, Below(x));
    var n := CountWhile(row, Below(x));
    RowMembership(row, x);
    if Value(x) in row {
      var i :| 0 <= i < |row| && row[i] == Value(x);
      assert !Below(x)(row[i]);
    }
  }

  /** A fresh sentinel row placed below a row that holds no element keeps a
      table valid. */
  lemma {:induction false} InsertSentinelRowValid(t: Table, i: nat)
    requires TableValid(t) && i < |t| && |t[i]| == 2
    ensures TableValid(t[..i + 1] + [[NegInf, PosInf]] + t[i + 1..])
  {
    var t' := t[..i + 1] + [[NegInf, PosInf]] + t[i + 1..];
    assert t[i] == [NegInf, PosInf] by { assert SentinelRow(t[i]); }
    forall r | 0 <= r < |t'|
      ensures SentinelRow(t'[r])
    {
      if r <= i { assert t'[r] == t[r]; } else if r > i + 1 { assert t'[r] == t[r - 1]; }
    }
    forall r | 0 <= r < |t'| - 1
      ensures Subrow(t'[r], t'[r + 1])
    {
      if r < i {
        assert t'[r] == t[r] && t'[r + 1] == t[r + 1];
      } else if r == i {
        assert t'[r] == [NegInf, PosInf] == t'[r + 1];
      } else if r == i + 1 {
        assert t'[r + 1] == t[i + 1];
        assert SentinelRow(t[i + 1]);
        assert t'[r + 1][0] == NegInf && t'[r + 1][|t'[r + 1]| - 1] == PosInf;
      } else {
        assert t'[r] == t[r - 1] && t'[r + 1] == t[r];
        assert Subrow(t[r - 1], t[r]);
      }
    }
  }

  /** Each round of `add_levels`'s loop puts one more sentinel row below the
      rows it added before. */
  lemma {:induction false} AddLevelsNext(t: Table, k: nat)
    requires |t| >= 1
    ensures AddLevelsSpec(t, k + 1) == AddLevelsSpec(t, k)[..k + 1] + [[NegInf, PosInf]] + AddLevelsSpec(t, k)[k + 1..]
  {
    var a, b := AddLevelsSpec(t, k), AddLevelsSpec(t, k + 1);
    assert |a| == |t| + k && |b| == |t| + k + 1;
    var c := a[..k + 1] + [[NegInf, PosInf]] + a[k + 1..];
    forall r | 0 <= r < |b|
      ensures b[r] == c[r]
    {
      if r == 0 {
      } else if r <= k + 1 {
        assert b[r] == [NegInf, PosInf];
      } else {
        assert b[r] == t[r - k - 1];
      }
    }
  }
}
