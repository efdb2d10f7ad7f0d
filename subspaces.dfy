/** The subspace partitioner (`subspaces`) and the block merger (`block_slices`). */
module Subspaces {
  import opened Sets
  import opened Grouping
  import opened Results

  /** Sparse overlap magnitudes: row index -> column index -> magnitude; a missing key means zero. */
  type Sparse = map<nat, map<nat, real>>

  /** One subspace: the sorted rows and the sorted columns of one component. */
  datatype Subspace = Subspace(rows: seq<nat>, cols: seq<nat>)

  /** A half-open index range [start, stop), Python's `slice(start, stop)`. */
  datatype Slice = Slice(start: nat, stop: nat)

  /** Line 8: the set of columns of each row. */
  function ColumnSets(dots: Sparse): Family
  {
    set r | r in dots :: dots[r].Keys
  }

  /** Line 13: the rows whose column set meets `bbs`. */
  function RowsMeeting(dots: Sparse, bbs: set<nat>): set<nat>
  {
    set a | a in dots && dots[a].Keys * bbs != {}
  }

  /** Line 14: the pair built for one group of columns. */
  function PairOf(dots: Sparse, bbs: set<nat>): Subspace
  {
    Subspace(SortedList(RowsMeeting(dots, bbs)), SortedList(bbs))
  }

  /** One pair per group of a family of column groups. */
  function PairsOf(dots: Sparse, groups: Family): set<Subspace>
  {
    set bbs | bbs in groups :: PairOf(dots, bbs)
  }

  /** Lines 7-16: one pair per group of the rows' column sets. The source yields the pairs in the
      iteration order of a frozenset, which it leaves unspecified; the model returns them as a set. */
  function Subspaces(dots: Sparse): set<Subspace>
  {
    PairsOf(dots, GroupIntoNonOverlappingSets(ColumnSets(dots)))
  }

  /** The columns that occur in some row. */
  function OccurringColumns(dots: Sparse): set<nat>
  {
    Union(ColumnSets(dots))
  }

  /** The facts about the groups of the rows' column sets that the lemmas below rely on. */
  ghost predicate Grouped(dots: Sparse, groups: Family)
  {
    Covers(ColumnSets(dots), groups) && Settled(groups) && Union(groups) == OccurringColumns(dots)
  }

  lemma GroupedColumns(dots: Sparse)
    ensures Grouped(dots, GroupIntoNonOverlappingSets(ColumnSets(dots)))
  {
    GroupingFacts(ColumnSets(dots));
  }

  lemma ColumnSetOf(dots: Sparse, a: nat)
    requires a in dots
    ensures dots[a].Keys in ColumnSets(dots)
  {
  }

  lemma PairSource(dots: Sparse, groups: Family, p: Subspace) returns (bbs: set<nat>)
    requires p in PairsOf(dots, groups)
    ensures bbs in groups && p == PairOf(dots, bbs)
  {
    bbs :| bbs in groups && p == PairOf(dots, bbs);
  }

  lemma PairIn(dots: Sparse, groups: Family, bbs: set<nat>)
    requires bbs in groups
    ensures PairOf(dots, bbs) in PairsOf(dots, groups)
  {
  }

  lemma NonEmptyRow(dots: Sparse, a: nat)
    requires a in dots && dots[a] != map[]
    ensures dots[a].Keys != {}
  {
    var c :| c in dots[a];
  }

  /** A row meeting a group has all its columns in that group. */
  lemma RowInsideGroup(dots: Sparse, groups: Family, bbs: set<nat>, a: nat)
    requires Grouped(dots, groups)
    requires bbs in groups && a in dots && dots[a].Keys * bbs != {}
    ensures dots[a].Keys <= bbs
  {
    SettledIsDisjoint(groups);
    ColumnSetOf(dots, a);
    var e :| e in dots[a].Keys * bbs;
    GroupOfElement(ColumnSets(dots), groups, dots[a].Keys, e, bbs);
  }

  /** The group that holds a non-empty row's columns; the row meets it. */
  lemma RowGroup(dots: Sparse, groups: Family, a: nat) returns (g: set<nat>)
    requires Grouped(dots, groups)
    requires a in dots && dots[a] != map[]
    ensures g in groups && dots[a].Keys <= g && a in RowsMeeting(dots, g)
  {
    ColumnSetOf(dots, a);
    g :| g in groups && dots[a].Keys <= g;
    NonEmptyRow(dots, a);
  }

  /** Lines 12-14: both lists of every pair are sorted ascending (without repeats). */
  lemma SubspacesSorted(dots: Sparse, p: Subspace)
    requires p in Subspaces(dots)
    ensures StrictlyAscending(p.rows) && StrictlyAscending(p.cols)
  {
    var bbs := PairSource(dots, GroupIntoNonOverlappingSets(ColumnSets(dots)), p);
  }

  /** Lines 7-16: an empty overlap map has no subspaces. */
  lemma EmptyHasNoSubspaces(dots: Sparse)
    requires dots == map[]
    ensures Subspaces(dots) == {}
  {
    assert ColumnSets(dots) == {};
    var groups := GroupIntoNonOverlappingSets(ColumnSets(dots));
    assert |groups| <= 0;
  }

  lemma PairRows(dots: Sparse, groups: Family, p: Subspace)
    requires Grouped(dots, groups) && p in PairsOf(dots, groups)
    ensures forall a :: a in p.rows <==> a in dots && dots[a].Keys * (set c | c in p.cols) != {}
    ensures forall a, c :: a in p.rows && c in dots[a] ==> c in p.cols
  {
    var bbs := PairSource(dots, groups, p);
    assert (set c | c in p.cols) == bbs;
    forall a | a in p.rows
      ensures dots[a].Keys <= bbs
    {
      RowInsideGroup(dots, groups, bbs, a);
    }
  }

  /** Line 13 with the partition: the rows of a pair are exactly the rows whose column set meets its
      columns, and each such row has all its columns inside the pair. */
  lemma SubspaceRows(dots: Sparse, p: Subspace)
    requires p in Subspaces(dots)
    ensures forall a :: a in p.rows <==> a in dots && dots[a].Keys * (set c | c in p.cols) != {}
    ensures forall a, c :: a in p.rows && c in dots[a] ==> c in p.cols
  {
    GroupedColumns(dots);
    PairRows(dots, GroupIntoNonOverlappingSets(ColumnSets(dots)), p);
  }

  lemma SameRowSameGroup(dots: Sparse, groups: Family, gp: set<nat>, gq: set<nat>, a: nat)
    requires Grouped(dots, groups) && gp in groups && gq in groups
    requires a in dots && dots[a] != map[] && a in RowsMeeting(dots, gp) && a in RowsMeeting(dots, gq)
    ensures gp == gq
  {
    RowInsideGroup(dots, groups, gp, a);
    RowInsideGroup(dots, groups, gq, a);
    NonEmptyRow(dots, a);
    var c :| c in dots[a].Keys;
    SettledIsDisjoint(groups);
    assert c in gp * gq;
  }

  lemma SameRowSamePair(dots: Sparse, groups: Family, p: Subspace, q: Subspace, a: nat)
    requires Grouped(dots, groups) && p in PairsOf(dots, groups) && q in PairsOf(dots, groups)
    requires a in dots && dots[a] != map[] && a in p.rows && a in q.rows
    ensures p == q
  {
    var gp := PairSource(dots, groups, p);
    var gq := PairSource(dots, groups, q);
    SameRowSameGroup(dots, groups, gp, gq, a);
  }

  lemma PairsRowsPartitioned(dots: Sparse, groups: Family, a: nat)
    requires Grouped(dots, groups) && a in dots && dots[a] != map[]
    ensures exists p :: p in PairsOf(dots, groups) && a in p.rows
    ensures forall p, q :: p in PairsOf(dots, groups) && q in PairsOf(dots, groups) && a in p.rows && a in q.rows ==> p == q
  {
    var g := RowGroup(dots, groups, a);
    PairIn(dots, groups, g);
    forall p, q | p in PairsOf(dots, groups) && q in PairsOf(dots, groups) && a in p.rows && a in q.rows
      ensures p == q
    {
      SameRowSamePair(dots, groups, p, q, a);
    }
  }

  /** Lines 8-14: every row with at least one column appears in the rows of some pair ... */
  lemma RowCovered(dots: Sparse, a: nat)
    requires a in dots && dots[a] != map[]
    ensures exists p :: p in Subspaces(dots) && a in p.rows
  {
    GroupedColumns(dots);
    PairsRowsPartitioned(dots, GroupIntoNonOverlappingSets(ColumnSets(dots)), a);
  }

  /** ... and in the rows of no other pair. */
  lemma RowInOnePair(dots: Sparse, a: nat, p: Subspace, q: Subspace)
    requires a in dots && dots[a] != map[]
    requires p in Subspaces(dots) && q in Subspaces(dots) && a in p.rows && a in q.rows
    ensures p == q
  {
    GroupedColumns(dots);
    SameRowSamePair(dots, GroupIntoNonOverlappingSets(ColumnSets(dots)), p, q, a);
  }

  lemma PairsColumnsPartitioned(dots: Sparse, groups: Family)
    requires Grouped(dots, groups)
    ensures forall c :: c in OccurringColumns(dots) ==> exists p :: p in PairsOf(dots, groups) && c in p.cols
    ensures forall c, p, q :: p in PairsOf(dots, groups) && q in PairsOf(dots, groups) && c in p.cols && c in q.cols ==> p == q
    ensures forall c, p :: p in PairsOf(dots, groups) && c in p.cols ==> c in OccurringColumns(dots)
  {
    SettledIsDisjoint(groups);
    PairsColumnsCovered(dots, groups);
    PairsColumnsOnce(dots, groups);
    PairsColumnsOccur(dots, groups);
  }

  lemma PairsColumnsCovered(dots: Sparse, groups: Family)
    requires Union(groups) == OccurringColumns(dots)
    ensures forall c :: c in OccurringColumns(dots) ==> exists p :: p in PairsOf(dots, groups) && c in p.cols
  {
    forall c | c in OccurringColumns(dots)
      ensures exists p :: p in PairsOf(dots, groups) && c in p.cols
    {
      var g := UnionSource(groups, c);
      PairIn(dots, groups, g);
    }
  }

  lemma PairsColumnsOnce(dots: Sparse, groups: Family)
    requires PairwiseDisjoint(groups)
    ensures forall c, p, q :: p in PairsOf(dots, groups) && q in PairsOf(dots, groups) && c in p.cols && c in q.cols ==> p == q
  {
    forall c, p, q | p in PairsOf(dots, groups) && q in PairsOf(dots, groups) && c in p.cols && c in q.cols
      ensures p == q
    {
      ColumnOnce(dots, groups, c, p, q);
    }
  }

  lemma ColumnOnce(dots: Sparse, groups: Family, c: nat, p: Subspace, q: Subspace)
    requires PairwiseDisjoint(groups)
    requires p in PairsOf(dots, groups) && q in PairsOf(dots, groups) && c in p.cols && c in q.cols
    ensures p == q
  {
    var gp := PairSource(dots, groups, p);
    var gq := PairSource(dots, groups, q);
    assert c in gp && c in gq;
    assert gp * gq != {} by {
      assert c in gp * gq;
    }
  }

  lemma PairsColumnsOccur(dots: Sparse, groups: Family)
    requires Union(groups) == OccurringColumns(dots)
    ensures forall c, p :: p in PairsOf(dots, groups) && c in p.cols ==> c in OccurringColumns(dots)
  {
    forall c, p | p in PairsOf(dots, groups) && c in p.cols
      ensures c in OccurringColumns(dots)
    {
      var g := PairSource(dots, groups, p);
      InUnion(groups, g, c);
    }
  }

  /** Lines 8-14: every column that occurs in some row appears in the columns of exactly one pair, and
      no pair holds a column that occurs nowhere. */
  lemma ColumnsPartitioned(dots: Sparse)
    ensures forall c :: c in OccurringColumns(dots) ==> exists p :: p in Subspaces(dots) && c in p.cols
    ensures forall c, p, q :: p in Subspaces(dots) && q in Subspaces(dots) && c in p.cols && c in q.cols ==> p == q
    ensures forall c, p :: p in Subspaces(dots) && c in p.cols ==> c in OccurringColumns(dots)
  {
    GroupedColumns(dots);
    PairsColumnsPartitioned(dots, GroupIntoNonOverlappingSets(ColumnSets(dots)));
  }

  /** The column lists are the connected components of the bipartite
      row/column graph. Two columns of one pair are linked through rows' column sets, and a column
      linked to a column of a pair is in that pair. */
  lemma SubspacesAreComponents(dots: Sparse, p: Subspace)
    requires p in Subspaces(dots)
    ensures forall c, d :: c in p.cols && d in p.cols ==> Linked(ColumnSets(dots), c, d)
    ensures forall c, d :: c in p.cols && Linked(ColumnSets(dots), c, d) ==> d in p.cols
  {
    var g := PairSource(dots, GroupIntoNonOverlappingSets(ColumnSets(dots)), p);
    GroupsAreComponents(ColumnSets(dots));
  }

  /** Lines 11-14: a row with no columns shows up as a pair with no rows and no columns, and only then
      does such a pair appear. */
  lemma EmptyRowGivesEmptyPair(dots: Sparse)
    ensures (exists a :: a in dots && dots[a] == map[]) <==> Subspace([], []) in Subspaces(dots)
  {
    var sets := ColumnSets(dots);
    var groups := GroupIntoNonOverlappingSets(sets);
    GroupedColumns(dots);
    GroupsPartition(sets);
    if a :| a in dots && dots[a] == map[] {
      ColumnSetOf(dots, a);
      assert dots[a].Keys == {};
      assert {} in groups;
      assert RowsMeeting(dots, {}) == {};
      PairIn(dots, groups, {});
      assert PairOf(dots, {}) == Subspace([], []);
    }
    if Subspace([], []) in Subspaces(dots) {
      var g := PairSource(dots, groups, Subspace([], []));
      assert g == {};
      var r :| r in dots && dots[r].Keys == {};
      assert dots[r] == map[];
    }
  }

  /** Two rows that each overlap only the other index: their column sets {1} and {0} do not meet, so
      the rows split into two one-by-one subspaces rather than one two-by-two subspace. */
  lemma AntiDiagonalSubspaces()
    ensures Subspaces(map[0 := map[1 := 0.9], 1 := map[0 := 0.9]]) ==
            {Subspace([0], [1]), Subspace([1], [0])}
  {
    var dots: Sparse := map[0 := map[1 := 0.9], 1 := map[0 := 0.9]];
    AntiDiagonalColumns(dots);
    TwoDisjointUnchanged(1, 0);
    PairsOfTwo(dots, {1}, {0});
    AntiDiagonalPair(dots, 0, 1);
    AntiDiagonalPair(dots, 1, 0);
  }

  lemma AntiDiagonalColumns(dots: Sparse)
    requires dots == map[0 := map[1 := 0.9], 1 := map[0 := 0.9]]
    ensures ColumnSets(dots) == {{1}, {0}}
  {
    assert dots[0].Keys == {1} && dots[1].Keys == {0};
  }

  lemma TwoDisjointUnchanged(x: nat, y: nat)
    requires x != y
    ensures GroupIntoNonOverlappingSets({{x}, {y}}) == {{x}, {y}}
  {
    assert {x} * {y} == {};
    DisjointUnchanged({{x}, {y}});
  }

  lemma PairsOfTwo(dots: Sparse, g: set<nat>, h: set<nat>)
    ensures PairsOf(dots, {g, h}) == {PairOf(dots, g), PairOf(dots, h)}
  {
  }

  lemma AntiDiagonalPair(dots: Sparse, r: nat, c: nat)
    requires dots == map[0 := map[1 := 0.9], 1 := map[0 := 0.9]]
    requires (r == 0 && c == 1) || (r == 1 && c == 0)
    ensures PairOf(dots, {c}) == Subspace([r], [c])
  {
    assert RowsMeeting(dots, {c}) == {r} by {
      forall a | a in dots
        ensures a in RowsMeeting(dots, {c}) <==> a == r
      {
        assert a == 0 || a == 1;
        assert dots[a].Keys == {1 - a};
        assert dots[a].Keys * {c} == if 1 - a == c then {c} else {};
      }
    }
    Singleton(r);
    Singleton(c);
  }

  lemma Singleton(x: nat)
    ensures SortedList({x}) == [x]
  {
    var xs := SortedList({x});
    assert x in xs;
  }

  /** The elements of a list, as a set. */
  function Elems(xs: seq<nat>): set<nat>
  {
    set x | x in xs
  }

  /** Lines 35-36: `range(min(aas), max(aas)+1) | range(min(bbs), max(bbs)+1)`. */
  function SpanSet(p: Subspace): set<nat>
    requires p.rows != [] && p.cols != []
  {
    var rows, cols := Elems(p.rows), Elems(p.cols);
    assert p.rows[0] in rows && p.cols[0] in cols;
    Range(SetMin(rows), SetMax(rows) + 1) + Range(SetMin(cols), SetMax(cols) + 1)
  }

  /** The span set holds the pair's first row. */
  lemma SpanSetBounds(p: Subspace)
    requires p.rows != [] && p.cols != []
    ensures p.rows[0] in SpanSet(p)
  {
    assert p.rows[0] in Elems(p.rows) && p.cols[0] in Elems(p.cols);
  }

  /** Lines 35-37: the span set of every pair. */
  function SpanSets(pairs: set<Subspace>): Family
    requires forall p :: p in pairs ==> p.rows != [] && p.cols != []
  {
    set p | p in pairs :: SpanSet(p)
  }

  lemma SpanSetsNonEmpty(pairs: set<Subspace>)
    requires forall p :: p in pairs ==> p.rows != [] && p.cols != []
    ensures {} !in SpanSets(pairs)
  {
    forall p | p in pairs
      ensures SpanSet(p) != {}
    {
      SpanSetBounds(p);
    }
  }

  lemma {:induction false} SpanSetsCard(pairs: set<Subspace>)
    requires forall p :: p in pairs ==> p.rows != [] && p.cols != []
    ensures |SpanSets(pairs)| <= |pairs|
    decreases |pairs|
  {
    if pairs != {} {
      var p :| p in pairs;
      SpanSetsCard(pairs - {p});
      assert SpanSets(pairs) == SpanSets(pairs - {p}) + {SpanSet(p)};
    }
  }

  /** Line 39: the members of a disjoint family of non-empty sets, in ascending order of their minima
      (see SortByMinOrdered). The member holding the least element of the union goes first. */
  function SortByMin(family: Family): (sorted: seq<set<nat>>)
    requires {} !in family && PairwiseDisjoint(family)
    ensures |sorted| == |family|
    ensures forall k :: 0 <= k < |sorted| ==> sorted[k] != {}
    decreases |family|
  {
    if family == {} then []
    else
      var first := FirstByMin(family);
      [first] + SortByMin(family - {first})
  }

  /** The member of a non-empty disjoint family that holds the least element of the union. */
  function FirstByMin(family: Family): (first: set<nat>)
    requires family != {} && {} !in family && PairwiseDisjoint(family)
    ensures first in family
  {
    UnionNonEmpty(family);
    var least := SetMin(Union(family));
    LeastElementOwner(family, least);
    var first :| first in family && least in first;
    first
  }

  /** The first member has the smallest minimum, strictly. */
  lemma FirstByMinLeast(family: Family)
    requires family != {} && {} !in family && PairwiseDisjoint(family)
    ensures forall s :: s in family && s != FirstByMin(family) ==> SetMin(FirstByMin(family)) < SetMin(s)
  {
    UnionNonEmpty(family);
    LeastMember(family, FirstByMin(family));
  }

  /** The sorted list holds exactly the members of the family. */
  lemma {:induction false} SortByMinMembers(family: Family)
    requires {} !in family && PairwiseDisjoint(family)
    ensures forall s :: s in SortByMin(family) <==> s in family
    decreases |family|
  {
    if family != {} {
      var first := FirstByMin(family);
      SortByMinMembers(family - {first});
    }
  }

  /** The sorted list is in strictly ascending order of the members' minima. */
  lemma {:induction false} SortByMinOrdered(family: Family)
    requires {} !in family && PairwiseDisjoint(family)
    ensures forall i, j :: 0 <= i < j < |SortByMin(family)| ==>
              SetMin(SortByMin(family)[i]) < SetMin(SortByMin(family)[j])
    decreases |family|
  {
    if family != {} {
      var first := FirstByMin(family);
      var rest := family - {first};
      FirstByMinLeast(family);
      SortByMinOrdered(rest);
      SortByMinMembers(rest);
      var tail := SortByMin(rest);
      forall k | 0 <= k < |tail|
        ensures SetMin(first) < SetMin(tail[k])
      {
        assert tail[k] in rest;
      }
      ConsOrdered(first, tail);
    }
  }

  /** A member with a smaller minimum than every member of an ascending list extends it in front. */
  lemma ConsOrdered(first: set<nat>, tail: seq<set<nat>>)
    requires first != {} && forall k :: 0 <= k < |tail| ==> tail[k] != {}
    requires forall k :: 0 <= k < |tail| ==> SetMin(first) < SetMin(tail[k])
    requires forall i, j :: 0 <= i < j < |tail| ==> SetMin(tail[i]) < SetMin(tail[j])
    ensures forall i, j :: 0 <= i < j < |[first] + tail| ==>
              SetMin(([first] + tail)[i]) < SetMin(([first] + tail)[j])
  {
    var sorted := [first] + tail;
    forall i, j | 0 <= i < j < |sorted|
      ensures SetMin(sorted[i]) < SetMin(sorted[j])
    {
      assert sorted[j] == tail[j - 1];
      if i > 0 {
        assert sorted[i] == tail[i - 1];
      }
    }
  }

  lemma UnionNonEmpty(family: Family)
    requires family != {} && {} !in family
    ensures Union(family) != {}
  {
    var s :| s in family;
    assert s != {};
    var x :| x in s;
    InUnion(family, s, x);
  }

  /** In a disjoint family an element of the union lies in exactly one member. */
  lemma LeastElementOwner(family: Family, x: nat)
    requires PairwiseDisjoint(family) && x in Union(family)
    ensures exists s :: s in family && x in s
    ensures forall s, t :: s in family && t in family && x in s && x in t ==> s == t
  {
    var s := UnionSource(family, x);
    forall s, t | s in family && t in family && x in s && x in t
      ensures s == t
    {
      assert x in s * t;
    }
  }

  /** The member holding the least element of the union has the smallest minimum, strictly. */
  lemma LeastMember(family: Family, first: set<nat>)
    requires PairwiseDisjoint(family) && {} !in family && first in family && Union(family) != {}
    requires SetMin(Union(family)) in first
    ensures forall s :: s in family && s != first ==> SetMin(first) < SetMin(s)
  {
    var least := SetMin(Union(family));
    UnionBounds(family, first);
    assert SetMin(first) == least;
    forall s | s in family && s != first
      ensures least < SetMin(s)
    {
      UnionBounds(family, s);
      assert s * first == {};
      assert least !in s * first;
      assert least !in s;
    }
  }

  /** A non-empty group built from the rows' column sets is met by some row. */
  lemma GroupHasRows(dots: Sparse, groups: Family, g: set<nat>)
    requires BuiltFrom(ColumnSets(dots), groups) && g in groups && g != {}
    ensures RowsMeeting(dots, g) != {}
  {
    var e :| e in g;
    assert FromSets(ColumnSets(dots), g, e);
    var cs :| cs in ColumnSets(dots) && e in cs && cs <= g;
    var a :| a in dots && dots[a].Keys == cs;
    assert e in dots[a].Keys * g;
    assert a in RowsMeeting(dots, g);
  }

  lemma EmptyRowOfEmptyColumnSet(dots: Sparse)
    requires {} in ColumnSets(dots)
    ensures exists a :: a in dots && dots[a] == map[]
  {
    var a :| a in dots && dots[a].Keys == {};
    assert dots[a] == map[];
  }

  /** A pair of a group has an empty list exactly when the group is empty, which happens exactly when
      some row has no columns. */
  lemma EmptyListIffEmptyRow(dots: Sparse, groups: Family)
    requires BuiltFrom(ColumnSets(dots), groups) && ({} in groups <==> {} in ColumnSets(dots))
    ensures (exists p :: p in PairsOf(dots, groups) && (p.rows == [] || p.cols == [])) <==>
            (exists a :: a in dots && dots[a] == map[])
  {
    if p :| p in PairsOf(dots, groups) && (p.rows == [] || p.cols == []) {
      var g := PairSource(dots, groups, p);
      if g != {} {
        GroupHasRows(dots, groups, g);
        assert false;
      }
      EmptyRowOfEmptyColumnSet(dots);
    }
    if a :| a in dots && dots[a] == map[] {
      ColumnSetOf(dots, a);
      assert dots[a].Keys == {};
      PairIn(dots, groups, {});
      assert PairOf(dots, {}).cols == [];
    }
  }

  /** Line 40: `slice(min(x), max(x)+1)`. */
  function SliceOf(s: set<nat>): Slice
    requires s != {}
  {
    Slice(SetMin(s), SetMax(s) + 1)
  }

  /** Lines 35-39: the span sets merged by the grouping routine, sorted by their minima. */
  function MergedSpans(pairs: set<Subspace>): (merged: seq<set<nat>>)
    requires forall p :: p in pairs ==> p.rows != [] && p.cols != []
    ensures forall k :: 0 <= k < |merged| ==> merged[k] != {}
  {
    var groups := GroupIntoNonOverlappingSets(SpanSets(pairs));
    SpanSetsNonEmpty(pairs);
    GroupingFacts(SpanSets(pairs));
    SettledIsDisjoint(groups);
    SortByMin(groups)
  }

  /** Line 40 over the sorted merged sets. */
  function SlicesOf(merged: seq<set<nat>>): (slices: seq<Slice>)
    requires forall k :: 0 <= k < |merged| ==> merged[k] != {}
    ensures |slices| == |merged|
    ensures forall k :: 0 <= k < |merged| ==> slices[k] == SliceOf(merged[k])
  {
    if merged == [] then [] else [SliceOf(merged[0])] + SlicesOf(merged[1..])
  }

  /** Lines 34-40 from the pairs on. A pair with an empty list (which a row without columns produces)
      makes `min` fail. */
  function SlicesOfPairs(pairs: set<Subspace>): Result<seq<Slice>>
  {
    if exists p :: p in pairs && (p.rows == [] || p.cols == []) then Failure(EmptyRow)
    else Success(SlicesOf(MergedSpans(pairs)))
  }

  /** Lines 33-40. */
  function BlockSlices(dots: Sparse): Result<seq<Slice>>
  {
    SlicesOfPairs(Subspaces(dots))
  }

  /** Lines 33-40: the merger fails exactly when some row has no columns. */
  lemma BlockSlicesFailure(dots: Sparse)
    ensures BlockSlices(dots).Failure? <==> exists a :: a in dots && dots[a] == map[]
    ensures BlockSlices(dots).Failure? ==> BlockSlices(dots).error == EmptyRow
  {
    var groups := GroupIntoNonOverlappingSets(ColumnSets(dots));
    assert BuiltFrom(ColumnSets(dots), groups) && ({} in groups <==> {} in ColumnSets(dots)) by {
      GroupingFacts(ColumnSets(dots));
      GroupsPartition(ColumnSets(dots));
    }
    EmptyListIffEmptyRow(dots, groups);
  }

  /** The pairs the merger accepts: every list non-empty. */
  ghost predicate AllSpannable(pairs: set<Subspace>)
  {
    forall p :: p in pairs ==> p.rows != [] && p.cols != []
  }

  /** Slices in strictly ascending order of start, each with start < stop. */
  predicate Ascending(slices: seq<Slice>)
  {
    && (forall k :: 0 <= k < |slices| ==> slices[k].start < slices[k].stop)
    && (forall i, j :: 0 <= i < j < |slices| ==> slices[i].start < slices[j].start)
  }

  /** The indices a slice covers. */
  function Indices(slice: Slice): set<nat>
  {
    Range(slice.start, slice.stop)
  }

  lemma SliceCoversMember(s: set<nat>)
    requires s != {}
    ensures s <= Indices(SliceOf(s))
  {
  }

  /** Sets in strictly ascending order of their minima give slices in strictly ascending order. */
  lemma SlicesAscending(merged: seq<set<nat>>)
    requires forall k :: 0 <= k < |merged| ==> merged[k] != {}
    requires forall i, j :: 0 <= i < j < |merged| ==> SetMin(merged[i]) < SetMin(merged[j])
    ensures Ascending(SlicesOf(merged))
  {
    var slices := SlicesOf(merged);
    forall i, j | 0 <= i < j < |slices|
      ensures slices[i].start < slices[j].start
    {
      assert slices[i] == SliceOf(merged[i]) && slices[j] == SliceOf(merged[j]);
    }
  }

  lemma PairSlicesAscending(pairs: set<Subspace>)
    requires AllSpannable(pairs)
    ensures Ascending(SlicesOf(MergedSpans(pairs)))
  {
    var groups := GroupIntoNonOverlappingSets(SpanSets(pairs));
    SpanSetsNonEmpty(pairs);
    GroupingFacts(SpanSets(pairs));
    SettledIsDisjoint(groups);
    SortByMinOrdered(groups);
    SlicesAscending(MergedSpans(pairs));
  }

  lemma PairSlicesCount(pairs: set<Subspace>)
    requires AllSpannable(pairs)
    ensures |SlicesOf(MergedSpans(pairs))| <= |pairs|
  {
    SpanSetsCard(pairs);
    GroupsPartition(SpanSets(pairs));
  }

  /** Every set of a family covered by `groups` lies inside the slice of the group holding it. */
  lemma SlicesContainSpan(spans: Family, groups: Family, merged: seq<set<nat>>, s: set<nat>) returns (k: nat)
    requires Covers(spans, groups) && s in spans
    requires forall t :: t in merged <==> t in groups
    requires forall i :: 0 <= i < |merged| ==> merged[i] != {}
    ensures k < |merged| && s <= Indices(SlicesOf(merged)[k])
  {
    var g :| g in groups && s <= g;
    assert g in merged;
    k :| 0 <= k < |merged| && merged[k] == g;
    SliceCoversMember(g);
  }

  /** The first and the last index of a slice lie in sets of the family the group was built from. */
  lemma SlicesTightOnSpans(spans: Family, groups: Family, merged: seq<set<nat>>, k: nat)
    returns (s: set<nat>, t: set<nat>)
    requires BuiltFrom(spans, groups)
    requires forall g :: g in merged ==> g in groups
    requires forall i :: 0 <= i < |merged| ==> merged[i] != {}
    requires k < |merged|
    ensures s in spans && SlicesOf(merged)[k].start in s && s <= Indices(SlicesOf(merged)[k])
    ensures t in spans && SlicesOf(merged)[k].stop - 1 in t && t <= Indices(SlicesOf(merged)[k])
  {
    var g := merged[k];
    assert g in groups;
    SliceCoversMember(g);
    var lo, hi := SetMin(g), SetMax(g);
    assert FromSets(spans, g, lo) && FromSets(spans, g, hi);
    s :| s in spans && lo in s && s <= g;
    t :| t in spans && hi in t && t <= g;
  }

  lemma MergedFacts(pairs: set<Subspace>)
    requires AllSpannable(pairs)
    ensures Covers(SpanSets(pairs), GroupIntoNonOverlappingSets(SpanSets(pairs)))
    ensures BuiltFrom(SpanSets(pairs), GroupIntoNonOverlappingSets(SpanSets(pairs)))
    ensures forall t :: t in MergedSpans(pairs) <==> t in GroupIntoNonOverlappingSets(SpanSets(pairs))
  {
    var groups := GroupIntoNonOverlappingSets(SpanSets(pairs));
    SpanSetsNonEmpty(pairs);
    GroupingFacts(SpanSets(pairs));
    SettledIsDisjoint(groups);
    SortByMinMembers(groups);
  }

  lemma PairSlicesContain(pairs: set<Subspace>, p: Subspace) returns (k: nat)
    requires AllSpannable(pairs) && p in pairs
    ensures k < |SlicesOf(MergedSpans(pairs))|
    ensures SpanSet(p) <= Indices(SlicesOf(MergedSpans(pairs))[k])
  {
    MergedFacts(pairs);
    k := SlicesContainSpan(SpanSets(pairs), GroupIntoNonOverlappingSets(SpanSets(pairs)), MergedSpans(pairs), SpanSet(p));
  }

  lemma PairSlicesTight(pairs: set<Subspace>, k: nat) returns (p: Subspace, q: Subspace)
    requires AllSpannable(pairs) && k < |SlicesOf(MergedSpans(pairs))|
    ensures p in pairs && SlicesOf(MergedSpans(pairs))[k].start in SpanSet(p)
    ensures SpanSet(p) <= Indices(SlicesOf(MergedSpans(pairs))[k])
    ensures q in pairs && SlicesOf(MergedSpans(pairs))[k].stop - 1 in SpanSet(q)
    ensures SpanSet(q) <= Indices(SlicesOf(MergedSpans(pairs))[k])
  {
    MergedFacts(pairs);
    var s, t := SlicesTightOnSpans(SpanSets(pairs), GroupIntoNonOverlappingSets(SpanSets(pairs)), MergedSpans(pairs), k);
    p :| p in pairs && s == SpanSet(p);
    q :| q in pairs && t == SpanSet(q);
  }

  /** A successful merge had no pair with an empty list. */
  lemma SuccessSpannable(dots: Sparse)
    requires BlockSlices(dots).Success?
    ensures AllSpannable(Subspaces(dots))
    ensures BlockSlices(dots).value == SlicesOf(MergedSpans(Subspaces(dots)))
  {
  }

  /** Lines 33-40 on success: the slices are in strictly ascending order of their starts, each is
      non-empty, and there are no more of them than subspaces. */
  lemma BlockSlicesShape(dots: Sparse)
    requires BlockSlices(dots).Success?
    ensures Ascending(BlockSlices(dots).value)
    ensures |BlockSlices(dots).value| <= |Subspaces(dots)|
  {
    SuccessSpannable(dots);
    PairSlicesAscending(Subspaces(dots));
    PairSlicesCount(Subspaces(dots));
  }

  /** Lines 35-40: the rows and the columns of every subspace, from the smallest to the largest
      index, lie inside one slice. */
  lemma BlockSlicesCover(dots: Sparse, p: Subspace) returns (k: nat)
    requires BlockSlices(dots).Success? && p in Subspaces(dots)
    ensures p.rows != [] && p.cols != []
    ensures k < |BlockSlices(dots).value| && SpanSet(p) <= Indices(BlockSlices(dots).value[k])
  {
    SuccessSpannable(dots);
    k := PairSlicesContain(Subspaces(dots), p);
  }

  /** Lines 35-40: no slice is larger than needed; its first and its last index belong to span sets
      of subspaces that lie inside it. */
  lemma BlockSlicesTight(dots: Sparse, k: nat) returns (p: Subspace, q: Subspace)
    requires BlockSlices(dots).Success? && k < |BlockSlices(dots).value|
    ensures p in Subspaces(dots) && p.rows != [] && p.cols != []
    ensures BlockSlices(dots).value[k].start in SpanSet(p) && SpanSet(p) <= Indices(BlockSlices(dots).value[k])
    ensures q in Subspaces(dots) && q.rows != [] && q.cols != []
    ensures BlockSlices(dots).value[k].stop - 1 in SpanSet(q) && SpanSet(q) <= Indices(BlockSlices(dots).value[k])
  {
    SuccessSpannable(dots);
    p, q := PairSlicesTight(Subspaces(dots), k);
  }

  /** Every index of a span set is at most the largest row or the largest column of its pair. */
  lemma SpanSetBelow(p: Subspace, n: nat)
    requires p.rows != [] && p.cols != []
    requires forall a :: a in p.rows ==> a < n
    requires forall c :: c in p.cols ==> c < n
    ensures forall x :: x in SpanSet(p) ==> x < n
  {
    var rows, cols := Elems(p.rows), Elems(p.cols);
    assert p.rows[0] in rows && p.cols[0] in cols;
    assert SetMax(rows) < n && SetMax(cols) < n;
  }

  /** When every row and every column is below n, every slice ends at or before n. */
  lemma BlockSlicesWithin(dots: Sparse, n: nat)
    requires forall r :: r in dots ==> r < n
    requires forall r, c :: r in dots && c in dots[r] ==> c < n
    requires BlockSlices(dots).Success?
    ensures forall k :: 0 <= k < |BlockSlices(dots).value| ==> BlockSlices(dots).value[k].stop <= n
  {
    forall k | 0 <= k < |BlockSlices(dots).value|
      ensures BlockSlices(dots).value[k].stop <= n
    {
      var p, q := BlockSlicesTight(dots, k);
      SubspaceInside(dots, q);
      SpanBelow(dots, q, n);
    }
  }

  /** The rows of a subspace are rows of the matrix, and its columns occur in some row. */
  lemma SubspaceInside(dots: Sparse, q: Subspace)
    requires q in Subspaces(dots)
    ensures forall a :: a in q.rows ==> a in dots
    ensures forall c :: c in q.cols ==> c in OccurringColumns(dots)
  {
    SubspaceRows(dots, q);
    ColumnsPartitioned(dots);
  }

  /** When every row and every occurring column is below n, so is every index of a span set. */
  lemma SpanBelow(dots: Sparse, q: Subspace, n: nat)
    requires forall r :: r in dots ==> r < n
    requires forall r, c :: r in dots && c in dots[r] ==> c < n
    requires q.rows != [] && q.cols != []
    requires forall a :: a in q.rows ==> a in dots
    requires forall c :: c in q.cols ==> c in OccurringColumns(dots)
    ensures forall x :: x in SpanSet(q) ==> x < n
  {
    forall c | c in q.cols
      ensures c < n
    {
      var s := UnionSource(ColumnSets(dots), c);
      var r :| r in dots && s == dots[r].Keys;
    }
    SpanSetBelow(q, n);
  }

  /** Lines 35-36 as the comment at lines 28-29 describes them: one contiguous range, from the least
      row or column of the pair to the greatest. It holds the pair's span set. */
  function HullSet(p: Subspace): set<nat>
    requires p.rows != [] && p.cols != []
  {
    var all := Elems(p.rows) + Elems(p.cols);
    assert p.rows[0] in all;
    Range(SetMin(all), SetMax(all) + 1)
  }

  /** The hull is contiguous and holds the pair's span set. */
  lemma HullHoldsSpan(p: Subspace)
    requires p.rows != [] && p.cols != []
    ensures Contiguous(HullSet(p)) && SpanSet(p) <= HullSet(p)
  {
    var rows, cols := Elems(p.rows), Elems(p.cols);
    var all := rows + cols;
    assert p.rows[0] in rows && p.cols[0] in cols;
    var lo, hi := SetMin(all), SetMax(all);
    assert lo <= SetMin(rows) && SetMax(rows) <= hi && lo <= SetMin(cols) && SetMax(cols) <= hi;
  }

  function HullSets(pairs: set<Subspace>): Family
    requires forall p :: p in pairs ==> p.rows != [] && p.cols != []
  {
    set p | p in pairs :: HullSet(p)
  }

  lemma HullSetsFacts(pairs: set<Subspace>)
    requires forall p :: p in pairs ==> p.rows != [] && p.cols != []
    ensures {} !in HullSets(pairs)
    ensures forall h :: h in HullSets(pairs) ==> Contiguous(h)
  {
    forall p | p in pairs
      ensures HullSet(p) != {} && Contiguous(HullSet(p))
    {
      SpanSetBounds(p);
      HullHoldsSpan(p);
    }
  }

  /** The hulls merged by the grouping routine, sorted by their minima. */
  function MergedHulls(pairs: set<Subspace>): (merged: seq<set<nat>>)
    requires forall p :: p in pairs ==> p.rows != [] && p.cols != []
    ensures forall k :: 0 <= k < |merged| ==> merged[k] != {}
  {
    var groups := GroupIntoNonOverlappingSets(HullSets(pairs));
    HullSetsFacts(pairs);
    GroupingFacts(HullSets(pairs));
    SettledIsDisjoint(groups);
    SortByMin(groups)
  }

  /** Lines 35-40 with the hull of each pair in place of its span set. */
  function HullSlicesOfPairs(pairs: set<Subspace>): Result<seq<Slice>>
  {
    match SlicesOfPairs(pairs)
    case Failure(e) => Failure(e)
    case Success(_) => Success(SlicesOf(MergedHulls(pairs)))
  }

  /** Lines 33-40 with the hull of each pair in place of its span set. */
  function ContiguousSlices(dots: Sparse): Result<seq<Slice>>
  {
    HullSlicesOfPairs(Subspaces(dots))
  }

  /** Two disjoint contiguous sets, the first with the smaller minimum: the first ends before the
      second begins. */
  lemma DisjointSlicePair(s: set<nat>, t: set<nat>)
    requires s != {} && t != {} && Contiguous(s) && s * t == {} && SetMin(s) < SetMin(t)
    ensures SliceOf(s).stop <= SliceOf(t).start
  {
    var m := SetMin(t);
    assert m !in s by {
      assert m !in s * t;
    }
    if m <= SetMax(s) {
      InBetween(s, SetMin(s), SetMax(s), m);
      assert false;
    }
  }

  /** Sorted, pairwise disjoint, contiguous sets give slices that do not overlap. */
  lemma DisjointSlices(merged: seq<set<nat>>)
    requires forall k :: 0 <= k < |merged| ==> merged[k] != {} && Contiguous(merged[k])
    requires forall i, j :: 0 <= i < j < |merged| ==> SetMin(merged[i]) < SetMin(merged[j])
    requires forall i, j :: 0 <= i < j < |merged| ==> merged[i] * merged[j] == {}
    ensures forall i, j :: 0 <= i < j < |SlicesOf(merged)| ==> SlicesOf(merged)[i].stop <= SlicesOf(merged)[j].start
  {
    forall i, j | 0 <= i < j < |merged|
      ensures SlicesOf(merged)[i].stop <= SlicesOf(merged)[j].start
    {
      DisjointSlicePair(merged[i], merged[j]);
    }
  }

  /** A disjoint family of non-empty contiguous sets, sorted by minima: the list's members are
      non-empty, contiguous, ascending and pairwise disjoint. */
  lemma SortedContiguous(family: Family)
    requires {} !in family && PairwiseDisjoint(family)
    requires forall g :: g in family ==> Contiguous(g)
    ensures forall k :: 0 <= k < |SortByMin(family)| ==> SortByMin(family)[k] != {} && Contiguous(SortByMin(family)[k])
    ensures forall i, j :: 0 <= i < j < |SortByMin(family)| ==> SetMin(SortByMin(family)[i]) < SetMin(SortByMin(family)[j])
    ensures forall i, j :: 0 <= i < j < |SortByMin(family)| ==> SortByMin(family)[i] * SortByMin(family)[j] == {}
  {
    var sorted := SortByMin(family);
    SortByMinMembers(family);
    SortByMinOrdered(family);
    forall i, j | 0 <= i < j < |sorted|
      ensures sorted[i] * sorted[j] == {}
    {
      assert sorted[i] in family && sorted[j] in family;
    }
  }

  /** The merged hulls are non-empty, contiguous, pairwise disjoint and sorted by their minima. */
  lemma MergedHullsFacts(pairs: set<Subspace>)
    requires forall p :: p in pairs ==> p.rows != [] && p.cols != []
    ensures forall k :: 0 <= k < |MergedHulls(pairs)| ==> MergedHulls(pairs)[k] != {} && Contiguous(MergedHulls(pairs)[k])
    ensures forall i, j :: 0 <= i < j < |MergedHulls(pairs)| ==> SetMin(MergedHulls(pairs)[i]) < SetMin(MergedHulls(pairs)[j])
    ensures forall i, j :: 0 <= i < j < |MergedHulls(pairs)| ==> MergedHulls(pairs)[i] * MergedHulls(pairs)[j] == {}
  {
    var hulls := HullSets(pairs);
    HullSetsFacts(pairs);
    GroupsPartition(hulls);
    ContiguousGroups(hulls);
    SortedContiguous(GroupIntoNonOverlappingSets(hulls));
  }

  /** With hulls in place of span sets the slices of a family of pairs succeed exactly when the
      original ones do, come in ascending order, and no two of them overlap. */
  lemma HullSlicesDisjoint(pairs: set<Subspace>)
    ensures HullSlicesOfPairs(pairs).Failure? <==> SlicesOfPairs(pairs).Failure?
    ensures HullSlicesOfPairs(pairs).Failure? ==> HullSlicesOfPairs(pairs).error == EmptyRow
    ensures HullSlicesOfPairs(pairs).Success? ==>
              var slices := HullSlicesOfPairs(pairs).value;
              Ascending(slices) && forall i, j :: 0 <= i < j < |slices| ==> slices[i].stop <= slices[j].start
  {
    if HullSlicesOfPairs(pairs).Success? {
      var merged := MergedHulls(pairs);
      MergedHullsFacts(pairs);
      DisjointSlices(merged);
      SlicesAscending(merged);
    }
  }

  /** Lines 33-40 with hulls: the slices fail exactly when the original ones do, and otherwise come
      in ascending order with no two overlapping. */
  lemma ContiguousSlicesDisjoint(dots: Sparse)
    ensures ContiguousSlices(dots).Failure? <==> BlockSlices(dots).Failure?
    ensures ContiguousSlices(dots).Failure? ==> ContiguousSlices(dots).error == EmptyRow
    ensures ContiguousSlices(dots).Success? ==>
              var slices := ContiguousSlices(dots).value;
              Ascending(slices) && forall i, j :: 0 <= i < j < |slices| ==> slices[i].stop <= slices[j].start
  {
    HullSlicesDisjoint(Subspaces(dots));
  }

  /** The hull slices still hold every subspace: each pair's hull, and so its span set, lies
      inside one slice. */
  lemma ContiguousSlicesCover(dots: Sparse, p: Subspace) returns (k: nat)
    requires ContiguousSlices(dots).Success? && p in Subspaces(dots)
    ensures p.rows != [] && p.cols != []
    ensures k < |ContiguousSlices(dots).value| && HullSet(p) <= Indices(ContiguousSlices(dots).value[k])
  {
    var pairs := Subspaces(dots);
    var hulls := HullSets(pairs);
    var groups := GroupIntoNonOverlappingSets(hulls);
    HullSetsFacts(pairs);
    GroupingFacts(hulls);
    SettledIsDisjoint(groups);
    SortByMinMembers(groups);
    k := SlicesContainSpan(hulls, groups, MergedHulls(pairs), HullSet(p));
  }
}
