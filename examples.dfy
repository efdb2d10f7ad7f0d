/** Small inputs worked through the whole routine. */
module Examples {
  import opened Sets
  import opened Grouping
  import opened Results
  import opened Subspaces
  import opened Align
  import opened Permutation

  /** Two rows that both overlap column 0 only: one column set {0}, one pair of rows [0, 1]. */
  const Column0: Sparse := map[0 := map[0 := 1.0], 1 := map[0 := 1.0]]

  /** Two states exchanged between the files. */
  const Exchanged: Sparse := map[0 := map[1 := 0.9], 1 := map[0 := 0.9]]

  /** Two states that each overlap mostly themselves and a little the other one. */
  const Mostly: Sparse := map[0 := map[0 := 0.9, 1 := 0.1], 1 := map[0 := 0.1, 1 := 0.9]]

  lemma SortedPair()
    ensures SortedList({0, 1}) == [0, 1]
  {
    var xs := SortedList({0, 1});
    assert xs[0] in {0, 1} && xs[1] in {0, 1};
  }

  lemma SingleGroup(s: set<nat>)
    ensures GroupIntoNonOverlappingSets({s}) == {s}
  {
    DisjointUnchanged({s});
  }

  lemma Column0Sets(dots: Sparse)
    requires dots == Column0
    ensures ColumnSets(dots) == {{0}}
  {
    assert dots[0].Keys == {0} && dots[1].Keys == {0};
  }

  lemma Column0Rows(dots: Sparse)
    requires dots == Column0
    ensures RowsMeeting(dots, {0}) == {0, 1}
  {
    assert dots.Keys == {0, 1};
    assert dots[0].Keys * {0} == {0} && dots[1].Keys * {0} == {0};
    assert 0 in RowsMeeting(dots, {0}) && 1 in RowsMeeting(dots, {0});
  }

  /** Rows whose column sets are all one set give one pair. */
  lemma OneGroupSubspaces(dots: Sparse, g: set<nat>)
    requires ColumnSets(dots) == {g}
    ensures Subspaces.Subspaces(dots) == {PairOf(dots, g)}
  {
    SingleGroup(g);
    PairsOfOne(dots, g);
  }

  lemma PairsOfOne(dots: Sparse, g: set<nat>)
    ensures PairsOf(dots, {g}) == {PairOf(dots, g)}
  {
  }

  lemma Column0Pair(dots: Sparse)
    requires dots == Column0
    ensures PairOf(dots, {0}) == Subspace([0, 1], [0])
  {
    Column0Rows(dots);
    SortedPair();
    Singleton(0);
  }

  /** A family of pairs whose span sets are all one set merges into one slice. */
  lemma OneSlice(pairs: set<Subspace>, s: set<nat>)
    requires forall p :: p in pairs ==> p.rows != [] && p.cols != []
    requires SpanSets(pairs) == {s} && s != {}
    ensures SlicesOfPairs(pairs) == Success([SliceOf(s)])
  {
    MergedOne(pairs, s);
    assert SlicesOf([s]) == [SliceOf(s)] by {
      assert [s][1..] == [];
    }
  }

  lemma MergedOne(pairs: set<Subspace>, s: set<nat>)
    requires forall p :: p in pairs ==> p.rows != [] && p.cols != []
    requires SpanSets(pairs) == {s} && s != {}
    ensures MergedSpans(pairs) == [s]
  {
    SingleGroup(s);
    SortOne(s);
  }

  lemma SortOne(s: set<nat>)
    requires s != {}
    ensures SortByMin({s}) == [s]
  {
    var sorted := SortByMin({s});
    assert sorted[0] in {s} by {
      SortByMinMembers({s});
    }
  }

  lemma SliceOfPair()
    ensures SliceOf({0, 1}) == Slice(0, 2)
  {
  }

  lemma PairSpan(p: Subspace)
    requires p == Subspace([0, 1], [0])
    ensures SpanSet(p) == {0, 1}
  {
    assert Elems(p.rows) == {0, 1} && Elems(p.cols) == {0};
  }

  lemma OneSpanSet(p: Subspace, s: set<nat>)
    requires p.rows != [] && p.cols != [] && SpanSet(p) == s
    ensures SpanSets({p}) == {s}
  {
  }

  lemma Column0Slices(dots: Sparse)
    requires dots == Column0
    ensures BlockSlices(dots) == Success([Slice(0, 2)])
  {
    var p := Subspace([0, 1], [0]);
    assert Subspaces.Subspaces(dots) == {p} by {
      Column0Sets(dots);
      OneGroupSubspaces(dots, {0});
      Column0Pair(dots);
    }
    PairSlices(p);
  }

  lemma PairSlices(p: Subspace)
    requires p == Subspace([0, 1], [0])
    ensures SlicesOfPairs({p}) == Success([Slice(0, 2)])
  {
    PairSpan(p);
    OneSpanSet(p, {0, 1});
    OneSlice({p}, {0, 1});
    SliceOfPair();
  }

  /** A row holding the single overlap 1.0 at column `c` yields one triple below n = 2. */
  lemma OneEntryRow(row: map<nat, real>, i: nat, c: nat, v: real)
    requires row == map[c := v] && c < 2 && v != 0.0
    ensures RowTriples(row, i, 2) == [Triple(i, c, Abs(v))]
  {
    assert RowTriples(row, i, 0) == [];
    if c == 0 {
      assert RowTriples(row, i, 1) == [Triple(i, c, Abs(v))];
    } else {
      assert RowTriples(row, i, 1) == [];
    }
  }

  /** Two rows with one overlap each: the triples in row order. */
  lemma TwoRowTriples(dots: Sparse, c0: nat, v0: real, c1: nat, v1: real)
    requires dots == map[0 := map[c0 := v0], 1 := map[c1 := v1]]
    requires c0 < 2 && c1 < 2 && v0 != 0.0 && v1 != 0.0
    ensures Triples(dots) == Success([Triple(0, c0, Abs(v0)), Triple(1, c1, Abs(v1))])
  {
    assert |dots| == 2 by {
      assert dots.Keys == {0, 1};
    }
    OneEntryRow(dots[0], 0, c0, v0);
    OneEntryRow(dots[1], 1, c1, v1);
    assert TriplesUpTo(dots, 2, 0) == Success([]);
    assert [] + RowTriples(dots[0], 0, 2) == [Triple(0, c0, Abs(v0))];
    assert TriplesUpTo(dots, 2, 1) == Success([Triple(0, c0, Abs(v0))]);
    assert TriplesUpTo(dots, 2, 2) == Success([Triple(0, c0, Abs(v0))] + RowTriples(dots[1], 1, 2));
    assert [Triple(0, c0, Abs(v0))] + [Triple(1, c1, Abs(v1))] == [Triple(0, c0, Abs(v0)), Triple(1, c1, Abs(v1))];
  }

  lemma Column0WellFormed(dots: Sparse)
    requires dots == Column0
    ensures WellFormed(dots) && |dots| == 2
  {
    assert dots.Keys == {0, 1};
  }

  lemma Column0Triples(dots: Sparse)
    requires dots == Column0
    ensures Triples(dots) == Success([Triple(0, 0, 1.0), Triple(1, 0, 1.0)])
    ensures MatrixWidth(Triples(dots).value) == 1
  {
    TwoRowTriples(dots, 0, 1.0, 0, 1.0);
    var ts := [Triple(0, 0, 1.0), Triple(1, 0, 1.0)];
    assert ts[..1] == [Triple(0, 0, 1.0)] && ts[..1][..0] == [];
  }

  /** The inferred width is one column, but the slice [0, 2) asks for two: the routine fails where
      an n-by-n matrix would not. */
  lemma Column0Ragged(dots: Sparse)
    requires dots == Column0
    ensures WellFormed(dots)
    ensures Find(dots, false) == Failure(RaggedBlock)
  {
    Column0WellFormed(dots);
    Column0Triples(dots);
    Column0Slices(dots);
  }

  /** Two rows overlapping column 0 only: exchanging the columns moves the weight from row 1 to row
      0 and leaves the objective at 1, so the round keeps the arrangement. */
  lemma TieKept(a: Arrangement)
    requires a == Arrangement([[1.0, 0.0], [1.0, 0.0]], [0, 1])
    ensures StepResult(a) == a
  {
    ObjectiveTwoByTwo(1.0, 0.0, 1.0, 0.0);
    ObjectiveTwoByTwo(0.0, 1.0, 0.0, 1.0);
    SwapTwoByTwo(1.0, 0.0, 1.0, 0.0);
    assert Consider(Objective, a, 0, 1) == a;
    assert Consider(Objective, a, 1, 0) == a;
    StepTwoByTwo(a);
  }

  lemma Column0Block(dots: Sparse)
    requires dots == Column0
    ensures DenseBlock(dots, Slice(0, 2)) == [[1.0, 0.0], [1.0, 0.0]]
  {
    var b := DenseBlock(dots, Slice(0, 2));
    assert Magnitude(dots, 0, 0) == 1.0 && Magnitude(dots, 0, 1) == 0.0;
    assert Magnitude(dots, 1, 0) == 1.0 && Magnitude(dots, 1, 1) == 0.0;
    assert b[0] == [1.0, 0.0] && b[1] == [1.0, 0.0];
  }

  lemma IdentityTwo(n: nat)
    requires n == 2
    ensures Identity(n) == [0, 1]
  {
    assert Identity(n)[0] == 0 && Identity(n)[1] == 1;
  }

  /** One slice applied on its own. */
  lemma ApplyOne(dots: Sparse, slc: Slice, perm: seq<nat>)
    requires slc.start <= slc.stop <= |perm|
    ensures ApplySlices(dots, [slc], perm) == ApplySlice(dots, slc, perm)
  {
    assert ApplyFirst(dots, [slc], 0, perm) == perm;
  }

  lemma Column0Aligned(dots: Sparse)
    requires dots == Column0
    ensures ApplySlice(dots, Slice(0, 2), [0, 1]) == [0, 1]
  {
    Column0Block(dots);
    var block := [[1.0, 0.0], [1.0, 0.0]];
    var a := Arrangement(block, [0, 1]);
    TieKept(a);
    AlignedAfterOneChange(block, [0, 1], a);
    assert [0, 1][0..2] == [0, 1] && [0, 1][..0] == [] && [0, 1][2..] == [];
  }

  /** With an n-by-n matrix the same input goes through, and the permutation stays the identity. */
  lemma Column0Square(dots: Sparse)
    requires dots == Column0
    ensures WellFormed(dots)
    ensures Find(dots, true) == Success([0, 1])
  {
    Column0WellFormed(dots);
    Column0Triples(dots);
    Column0Slices(dots);
    IdentityTwo(|dots|);
    ApplyOne(dots, Slice(0, 2), [0, 1]);
    Column0Aligned(dots);
  }

  lemma ExchangedWellFormed(dots: Sparse)
    requires dots == Exchanged
    ensures WellFormed(dots) && |dots| == 2
  {
    assert dots.Keys == {0, 1};
  }

  lemma ExchangedTriples(dots: Sparse)
    requires dots == Exchanged
    ensures Triples(dots) == Success([Triple(0, 1, 0.9), Triple(1, 0, 0.9)])
    ensures MatrixWidth(Triples(dots).value) == 2
  {
    TwoRowTriples(dots, 1, 0.9, 0, 0.9);
    var ts := [Triple(0, 1, 0.9), Triple(1, 0, 0.9)];
    assert ts[..1] == [Triple(0, 1, 0.9)] && ts[..1][..0] == [];
  }

  /** A one-by-one pair off the diagonal spans both indices. */
  lemma CrossSpan(p: Subspace, r: nat, c: nat)
    requires p == Subspace([r], [c]) && ((r == 0 && c == 1) || (r == 1 && c == 0))
    ensures SpanSet(p) == {0, 1}
  {
    assert Elems(p.rows) == {r} && Elems(p.cols) == {c};
  }

  lemma TwoSpanSets(p: Subspace, q: Subspace, s: set<nat>)
    requires p.rows != [] && p.cols != [] && q.rows != [] && q.cols != []
    requires SpanSet(p) == s && SpanSet(q) == s
    ensures SpanSets({p, q}) == {s}
  {
  }

  /** The two one-by-one subspaces span the same indices, so they merge into one slice. */
  lemma ExchangedSlices(dots: Sparse)
    requires dots == Exchanged
    ensures BlockSlices(dots) == Success([Slice(0, 2)])
  {
    var p, q := Subspace([0], [1]), Subspace([1], [0]);
    assert Subspaces.Subspaces(dots) == {p, q} by {
      AntiDiagonalSubspaces();
    }
    CrossSlices(p, q);
  }

  lemma CrossSlices(p: Subspace, q: Subspace)
    requires p == Subspace([0], [1]) && q == Subspace([1], [0])
    ensures SlicesOfPairs({p, q}) == Success([Slice(0, 2)])
  {
    CrossSpan(p, 0, 1);
    CrossSpan(q, 1, 0);
    TwoSpanSets(p, q, {0, 1});
    OneSlice({p, q}, {0, 1});
    SliceOfPair();
  }

  lemma ExchangedBlock(dots: Sparse)
    requires dots == Exchanged
    ensures DenseBlock(dots, Slice(0, 2)) == [[0.0, 0.9], [0.9, 0.0]]
  {
    var b := DenseBlock(dots, Slice(0, 2));
    assert Magnitude(dots, 0, 0) == 0.0 && Magnitude(dots, 0, 1) == 0.9;
    assert Magnitude(dots, 1, 0) == 0.9 && Magnitude(dots, 1, 1) == 0.0;
    assert b[0] == [0.0, 0.9] && b[1] == [0.9, 0.0];
  }

  lemma ExchangedAligned(dots: Sparse)
    requires dots == Exchanged
    ensures ApplySlice(dots, Slice(0, 2), [0, 1]) == [1, 0]
  {
    ExchangedBlock(dots);
    AlignedExchange();
    assert [0, 1][0..2] == [0, 1] && [0, 1][..0] == [] && [0, 1][2..] == [];
  }

  /** Two states exchanged between the files: the routine finds the permutation that swaps them. */
  lemma ExchangedFound(dots: Sparse)
    requires dots == Exchanged
    ensures WellFormed(dots)
    ensures Find(dots, false) == Success([1, 0])
  {
    ExchangedWellFormed(dots);
    ExchangedTriples(dots);
    ExchangedSlices(dots);
    IdentityTwo(|dots|);
    ApplyOne(dots, Slice(0, 2), [0, 1]);
    ExchangedAligned(dots);
  }

  lemma MostlyWellFormed(dots: Sparse)
    requires dots == Mostly
    ensures WellFormed(dots) && |dots| == 2
  {
    assert dots.Keys == {0, 1};
  }

  /** A row holding overlaps at both columns below n = 2 yields two triples, in column order. */
  lemma TwoEntryRow(row: map<nat, real>, i: nat, v0: real, v1: real)
    requires row == map[0 := v0, 1 := v1] && v0 != 0.0 && v1 != 0.0
    ensures RowTriples(row, i, 2) == [Triple(i, 0, Abs(v0)), Triple(i, 1, Abs(v1))]
  {
    assert RowTriples(row, i, 0) == [];
    assert RowTriples(row, i, 1) == [Triple(i, 0, Abs(v0))];
  }

  lemma MostlyTriples(dots: Sparse)
    requires dots == Mostly
    ensures Triples(dots) == Success([Triple(0, 0, 0.9), Triple(0, 1, 0.1), Triple(1, 0, 0.1), Triple(1, 1, 0.9)])
  {
    assert |dots| == 2 by {
      assert dots.Keys == {0, 1};
    }
    TwoEntryRow(dots[0], 0, 0.9, 0.1);
    TwoEntryRow(dots[1], 1, 0.1, 0.9);
    assert TriplesUpTo(dots, 2, 0) == Success([]);
    assert TriplesUpTo(dots, 2, 1) == Success([] + RowTriples(dots[0], 0, 2));
    assert TriplesUpTo(dots, 2, 2) == Success([] + RowTriples(dots[0], 0, 2) + RowTriples(dots[1], 1, 2));
    assert Abs(0.9) == 0.9 && Abs(0.1) == 0.1;
    assert [] + [Triple(0, 0, 0.9), Triple(0, 1, 0.1)] + [Triple(1, 0, 0.1), Triple(1, 1, 0.9)] ==
           [Triple(0, 0, 0.9), Triple(0, 1, 0.1), Triple(1, 0, 0.1), Triple(1, 1, 0.9)];
  }

  /** The inferred width is two columns. */
  lemma MostlyWidth(ts: seq<Triple>)
    requires ts == [Triple(0, 0, 0.9), Triple(0, 1, 0.1), Triple(1, 0, 0.1), Triple(1, 1, 0.9)]
    ensures MatrixWidth(ts) == 2
  {
    MatrixWidthTight(ts);
    assert ts[1] in ts;
    forall t | t in ts
      ensures t.col < 2
    {
    }
  }

  lemma MostlySets(dots: Sparse)
    requires dots == Mostly
    ensures ColumnSets(dots) == {{0, 1}}
  {
    assert dots[0].Keys == {0, 1} && dots[1].Keys == {0, 1};
  }

  lemma MostlyRows(dots: Sparse)
    requires dots == Mostly
    ensures RowsMeeting(dots, {0, 1}) == {0, 1}
  {
    assert dots.Keys == {0, 1};
    assert 0 in dots[0].Keys * {0, 1} && 1 in dots[1].Keys * {0, 1};
    assert 0 in RowsMeeting(dots, {0, 1}) && 1 in RowsMeeting(dots, {0, 1});
  }

  lemma SquarePairSpan(p: Subspace)
    requires p == Subspace([0, 1], [0, 1])
    ensures SpanSet(p) == {0, 1}
  {
    assert Elems(p.rows) == {0, 1} && Elems(p.cols) == {0, 1};
  }

  lemma MostlyPair(dots: Sparse)
    requires dots == Mostly
    ensures PairOf(dots, {0, 1}) == Subspace([0, 1], [0, 1])
  {
    MostlyRows(dots);
    SortedPair();
  }

  /** Both rows meet both columns: one two-by-two subspace and the slice [0, 2). */
  lemma MostlySlices(dots: Sparse)
    requires dots == Mostly
    ensures BlockSlices(dots) == Success([Slice(0, 2)])
  {
    var p := Subspace([0, 1], [0, 1]);
    assert Subspaces.Subspaces(dots) == {p} by {
      MostlySets(dots);
      OneGroupSubspaces(dots, {0, 1});
      MostlyPair(dots);
    }
    SquarePairSlices(p);
  }

  lemma SquarePairSlices(p: Subspace)
    requires p == Subspace([0, 1], [0, 1])
    ensures SlicesOfPairs({p}) == Success([Slice(0, 2)])
  {
    SquarePairSpan(p);
    OneSpanSet(p, {0, 1});
    OneSlice({p}, {0, 1});
    SliceOfPair();
  }

  lemma MostlyBlock(dots: Sparse)
    requires dots == Mostly
    ensures DenseBlock(dots, Slice(0, 2)) == [[0.9, 0.1], [0.1, 0.9]]
  {
    var b := DenseBlock(dots, Slice(0, 2));
    assert Magnitude(dots, 0, 0) == 0.9 && Magnitude(dots, 0, 1) == 0.1;
    assert Magnitude(dots, 1, 0) == 0.1 && Magnitude(dots, 1, 1) == 0.9;
    assert b[0] == [0.9, 0.1] && b[1] == [0.1, 0.9];
  }

  /** Exchanging the columns would raise the objective from 0.2 to 1.8, so the round keeps the
      arrangement. */
  lemma DiagonalKept(a: Arrangement)
    requires a == Arrangement([[0.9, 0.1], [0.1, 0.9]], [0, 1])
    ensures StepResult(a) == a
  {
    ObjectiveTwoByTwo(0.9, 0.1, 0.1, 0.9);
    ObjectiveTwoByTwo(0.1, 0.9, 0.9, 0.1);
    SwapTwoByTwo(0.9, 0.1, 0.1, 0.9);
    assert Consider(Objective, a, 0, 1) == a;
    assert Consider(Objective, a, 1, 0) == a;
    StepTwoByTwo(a);
  }

  lemma MostlyAligned(dots: Sparse)
    requires dots == Mostly
    ensures ApplySlice(dots, Slice(0, 2), [0, 1]) == [0, 1]
  {
    MostlyBlock(dots);
    var block := [[0.9, 0.1], [0.1, 0.9]];
    var a := Arrangement(block, [0, 1]);
    DiagonalKept(a);
    AlignedAfterOneChange(block, [0, 1], a);
    assert [0, 1][0..2] == [0, 1] && [0, 1][..0] == [] && [0, 1][2..] == [];
  }

  /** States that already overlap themselves most: the routine keeps the identity. */
  lemma MostlyFound(dots: Sparse)
    requires dots == Mostly
    ensures WellFormed(dots)
    ensures Find(dots, false) == Success([0, 1])
  {
    MostlyWellFormed(dots);
    MostlyTriples(dots);
    MostlyWidth(Triples(dots).value);
    MostlySlices(dots);
    IdentityTwo(|dots|);
    ApplyOne(dots, Slice(0, 2), [0, 1]);
    MostlyAligned(dots);
  }

  /** Three states, the outer two exchanged and the middle one kept. */
  const Crossed: Sparse := map[0 := map[2 := 0.9], 1 := map[1 := 0.9], 2 := map[0 := 0.9]]

  lemma CrossedColumns(dots: Sparse)
    requires dots == Crossed
    ensures ColumnSets(dots) == {{2}, {1}, {0}}
  {
    assert dots.Keys == {0, 1, 2};
    assert dots[0].Keys == {2} && dots[1].Keys == {1} && dots[2].Keys == {0};
  }

  lemma ThreeDisjointUnchanged()
    ensures GroupIntoNonOverlappingSets({{2}, {1}, {0}}) == {{2}, {1}, {0}}
  {
    var family: Family := {{2}, {1}, {0}};
    assert {2} * {1} == {} && {2} * {0} == {} && {1} * {0} == {};
    DisjointUnchanged(family);
  }

  lemma CrossedPair(dots: Sparse, r: nat, c: nat)
    requires dots == Crossed && r < 3 && c == 2 - r
    ensures PairOf(dots, {c}) == Subspace([r], [c])
  {
    assert RowsMeeting(dots, {c}) == {r} by {
      forall a | a in dots
        ensures a in RowsMeeting(dots, {c}) <==> a == r
      {
        assert a == 0 || a == 1 || a == 2;
        assert dots[a].Keys == {2 - a};
        assert dots[a].Keys * {c} == if 2 - a == c then {c} else {};
      }
    }
    Singleton(r);
    Singleton(c);
  }

  /** Rows whose column sets are three sets the grouping keeps give three pairs. */
  lemma ThreeGroupSubspaces(dots: Sparse, f: set<nat>, g: set<nat>, h: set<nat>)
    requires ColumnSets(dots) == {f, g, h} && GroupIntoNonOverlappingSets({f, g, h}) == {f, g, h}
    ensures Subspaces.Subspaces(dots) == {PairOf(dots, f), PairOf(dots, g), PairOf(dots, h)}
  {
    PairsOfThree(dots, f, g, h);
  }

  lemma PairsOfThree(dots: Sparse, f: set<nat>, g: set<nat>, h: set<nat>)
    ensures PairsOf(dots, {f, g, h}) == {PairOf(dots, f), PairOf(dots, g), PairOf(dots, h)}
  {
  }

  /** Every row of the crossed input makes a one-by-one subspace of its own. */
  lemma CrossedSubspaces(dots: Sparse)
    requires dots == Crossed
    ensures Subspaces.Subspaces(dots) == {Subspace([0], [2]), Subspace([1], [1]), Subspace([2], [0])}
  {
    CrossedColumns(dots);
    ThreeDisjointUnchanged();
    ThreeGroupSubspaces(dots, {2}, {1}, {0});
    CrossedPair(dots, 0, 2);
    CrossedPair(dots, 1, 1);
    CrossedPair(dots, 2, 0);
  }

  /** A one-by-one pair spans its row and its column, and nothing in between. */
  lemma SingleSpan(p: Subspace, r: nat, c: nat)
    requires p == Subspace([r], [c])
    ensures SpanSet(p) == {r, c}
  {
    assert Elems(p.rows) == {r} && Elems(p.cols) == {c};
  }

  lemma ThreeSpanSets(p: Subspace, m: Subspace, q: Subspace)
    requires p.rows != [] && p.cols != [] && m.rows != [] && m.cols != [] && q.rows != [] && q.cols != []
    ensures SpanSets({p, m, q}) == {SpanSet(p), SpanSet(m), SpanSet(q)}
  {
  }

  lemma CrossedSpans(p: Subspace, m: Subspace, q: Subspace)
    requires p == Subspace([0], [2]) && m == Subspace([1], [1]) && q == Subspace([2], [0])
    ensures SpanSets({p, m, q}) == {{0, 2}, {1}}
  {
    SingleSpan(p, 0, 2);
    SingleSpan(m, 1, 1);
    SingleSpan(q, 2, 0);
    assert SpanSet(q) == {0, 2} && SpanSet(m) == {1};
    ThreeSpanSets(p, m, q);
  }

  /** Two disjoint sets, listed by their minima. */
  lemma SortTwo(s: set<nat>, t: set<nat>)
    requires s != {} && t != {} && s * t == {} && SetMin(s) < SetMin(t)
    ensures SortByMin({s, t}) == [s, t]
  {
    var family := {s, t};
    SortByMinMembers(family);
    SortByMinOrdered(family);
    var sorted := SortByMin(family);
    assert sorted[0] in family && sorted[1] in family;
  }

  /** Pairs whose span sets are two disjoint sets give those two sets, in order of their minima. */
  lemma MergedTwo(pairs: set<Subspace>, s: set<nat>, t: set<nat>)
    requires forall p :: p in pairs ==> p.rows != [] && p.cols != []
    requires SpanSets(pairs) == {s, t} && s != {} && t != {} && s * t == {} && SetMin(s) < SetMin(t)
    ensures MergedSpans(pairs) == [s, t]
  {
    TwoDisjointGroups(s, t);
    SortTwo(s, t);
  }

  lemma TwoDisjointGroups(s: set<nat>, t: set<nat>)
    requires s * t == {}
    ensures GroupIntoNonOverlappingSets({s, t}) == {s, t}
  {
    assert t * s == {};
    DisjointUnchanged({s, t});
  }

  lemma CrossedMerged(pairs: set<Subspace>)
    requires pairs == {Subspace([0], [2]), Subspace([1], [1]), Subspace([2], [0])}
    ensures MergedSpans(pairs) == [{0, 2}, {1}]
  {
    CrossedSpannable(pairs);
    CrossedSpans(Subspace([0], [2]), Subspace([1], [1]), Subspace([2], [0]));
    assert {0, 2} * {1} == {};
    assert SetMin({0, 2}) == 0 && SetMin({1}) == 1;
    MergedTwo(pairs, {0, 2}, {1});
  }

  lemma SlicesOfTwo(s: set<nat>, t: set<nat>)
    requires s != {} && t != {}
    ensures SlicesOf([s, t]) == [SliceOf(s), SliceOf(t)]
  {
    assert [s, t][1..] == [t] && [t][1..] == [];
  }

  /** Pairs whose span sets merge into two sets give two slices. */
  lemma TwoSlices(pairs: set<Subspace>, s: set<nat>, t: set<nat>)
    requires forall p :: p in pairs ==> p.rows != [] && p.cols != []
    requires s != {} && t != {} && MergedSpans(pairs) == [s, t]
    ensures SlicesOfPairs(pairs) == Success([SliceOf(s), SliceOf(t)])
  {
    SlicesOfTwo(s, t);
  }

  lemma CrossedSpannable(pairs: set<Subspace>)
    requires pairs == {Subspace([0], [2]), Subspace([1], [1]), Subspace([2], [0])}
    ensures forall p :: p in pairs ==> p.rows != [] && p.cols != []
  {
  }

  lemma CrossedPairSlices(pairs: set<Subspace>)
    requires pairs == {Subspace([0], [2]), Subspace([1], [1]), Subspace([2], [0])}
    ensures SlicesOfPairs(pairs) == Success([Slice(0, 3), Slice(1, 2)])
  {
    CrossedSpannable(pairs);
    CrossedMerged(pairs);
    TwoSlices(pairs, {0, 2}, {1});
    CrossedSliceOf();
  }

  /** Lines 35-40 on the crossed input: the span set {0, 2} is not contiguous, and its slice [0, 3)
      holds the next slice [1, 2), so the slices overlap. */
  lemma CrossedSlices(dots: Sparse)
    requires dots == Crossed
    ensures BlockSlices(dots) == Success([Slice(0, 3), Slice(1, 2)])
  {
    CrossedSubspaces(dots);
    CrossedPairSlices({Subspace([0], [2]), Subspace([1], [1]), Subspace([2], [0])});
  }

  lemma CoveringUnion(sets: Family, u: set<nat>)
    requires u in sets && forall s :: s in sets ==> s <= u
    ensures Union(sets) == u
  {
    UnionBounds(sets, u);
    forall x | x in Union(sets)
      ensures x in u
    {
      var s := UnionSource(sets, x);
    }
  }

  /** A family one of whose members holds every other member groups into that member alone. */
  lemma CoveringSet(sets: Family, u: set<nat>)
    requires u in sets && {} !in sets && forall s :: s in sets ==> s <= u
    ensures GroupIntoNonOverlappingSets(sets) == {u}
  {
    var groups := GroupIntoNonOverlappingSets(sets);
    GroupsPartition(sets);
    CoveringUnion(sets, u);
    var g :| g in groups && u <= g;
    UnionBounds(groups, g);
    assert g == u;
    forall h | h in groups
      ensures h == g
    {
      UnionBounds(groups, h);
      assert h != {};
      var x :| x in h;
      assert x in h * g;
    }
    assert groups == {g};
  }

  /** A one-by-one pair's hull runs from its row to its column. */
  lemma SingleHull(p: Subspace, r: nat, c: nat)
    requires p == Subspace([r], [c]) && r <= c
    ensures HullSet(p) == Range(r, c + 1)
  {
    assert Elems(p.rows) + Elems(p.cols) == {r, c};
    assert SetMin({r, c}) == r && SetMax({r, c}) == c;
  }

  lemma ThreeHullSets(p: Subspace, m: Subspace, q: Subspace)
    requires p.rows != [] && p.cols != [] && m.rows != [] && m.cols != [] && q.rows != [] && q.cols != []
    ensures HullSets({p, m, q}) == {HullSet(p), HullSet(m), HullSet(q)}
  {
  }

  lemma CrossedHulls(p: Subspace, m: Subspace, q: Subspace)
    requires p == Subspace([0], [2]) && m == Subspace([1], [1]) && q == Subspace([2], [0])
    ensures HullSets({p, m, q}) == {{0, 1, 2}, {1}}
  {
    SingleHull(p, 0, 2);
    SingleHull(m, 1, 1);
    assert HullSet(q) == Range(0, 3) by {
      assert Elems(q.rows) + Elems(q.cols) == {0, 2};
      assert SetMin({0, 2}) == 0 && SetMax({0, 2}) == 2;
    }
    ThreeHullSets(p, m, q);
    assert Range(0, 3) == {0, 1, 2} && Range(1, 2) == {1};
  }

  lemma CrossedMergedHulls(pairs: set<Subspace>)
    requires pairs == {Subspace([0], [2]), Subspace([1], [1]), Subspace([2], [0])}
    ensures MergedHulls(pairs) == [{0, 1, 2}]
  {
    CrossedHulls(Subspace([0], [2]), Subspace([1], [1]), Subspace([2], [0]));
    CoveringSet({{0, 1, 2}, {1}}, {0, 1, 2});
    SortOne({0, 1, 2});
  }

  /** Pairs whose hulls merge into one set give one slice. */
  lemma OneHullSlice(pairs: set<Subspace>, s: set<nat>)
    requires forall p :: p in pairs ==> p.rows != [] && p.cols != []
    requires s != {} && MergedHulls(pairs) == [s]
    ensures HullSlicesOfPairs(pairs) == Success([SliceOf(s)])
  {
    SpannableSucceeds(pairs);
    SlicesOfOne(s);
  }

  lemma SpannableSucceeds(pairs: set<Subspace>)
    requires forall p :: p in pairs ==> p.rows != [] && p.cols != []
    ensures SlicesOfPairs(pairs).Success?
  {
  }

  lemma SlicesOfOne(s: set<nat>)
    requires s != {}
    ensures SlicesOf([s]) == [SliceOf(s)]
  {
    assert [s][1..] == [];
  }

  lemma CrossedSliceOf()
    ensures SliceOf({0, 2}) == Slice(0, 3) && SliceOf({1}) == Slice(1, 2) && SliceOf({0, 1, 2}) == Slice(0, 3)
  {
    assert SetMin({0, 2}) == 0 && SetMax({0, 2}) == 2;
    assert SetMin({1}) == 1 && SetMax({1}) == 1;
    assert SetMin({0, 1, 2}) == 0 && SetMax({0, 1, 2}) == 2;
  }

  lemma CrossedHullSlices(pairs: set<Subspace>)
    requires pairs == {Subspace([0], [2]), Subspace([1], [1]), Subspace([2], [0])}
    ensures HullSlicesOfPairs(pairs) == Success([Slice(0, 3)])
  {
    CrossedSpannable(pairs);
    CrossedMergedHulls(pairs);
    OneHullSlice(pairs, {0, 1, 2});
    CrossedSliceOf();
  }

  /** The same input with hulls in place of span sets: one slice, [0, 3). */
  lemma CrossedContiguous(dots: Sparse)
    requires dots == Crossed
    ensures ContiguousSlices(dots) == Success([Slice(0, 3)])
  {
    CrossedSubspaces(dots);
    CrossedHullSlices({Subspace([0], [2]), Subspace([1], [1]), Subspace([2], [0])});
  }
}
