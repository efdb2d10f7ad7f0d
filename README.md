# band-dot: block-diagonal permutation search, modelled in Dafny

band-dot compares two sets of electronic states, one from each of two
calculations of the same system. The overlaps ("dots") between the two sets
are given as a sparse map: `dots[a][b]` is the overlap of state `a` of the
first set with state `b` of the second, and pairs that do not overlap are not
stored. `find_permutation` returns a permutation of the second set's indices
that gathers the large overlaps on the diagonal. It works as follows:

1. It splits the overlap graph into independent subspaces (`subspaces`).
   Each subspace is a sorted list of rows and a sorted list of columns, found
   by repeatedly merging column sets that intersect
   (`group_into_non_overlapping_sets`, which iterates `fixpoint`).
2. It widens every subspace to index ranges and merges intersecting ranges
   into slices (`block_slices`).
3. In each slice it builds the dense block of overlap magnitudes. It then
   greedily swaps pairs of columns while that lowers the objective
   `sum |block[r][c]| * (r - c)^2`. It repeats these swap rounds until one
   round changes nothing, and writes the block's permutation back into the
   global permutation.

The project models the module `band_dot/_private.py`, one Dafny module per
concern:

- `fixpoint.dfy` (module `Fixpoint`): `fixpoint`.
  - `FirstFixpoint` is the ghost specification: the first fixed point of the
    iteration. Termination is shown through a caller-supplied invariant and a
    rank that every changing step lowers.
  - `Fixpoint` is the `while` loop, proved equal to that specification.
- `grouping.dfy` (module `Grouping`): `group_into_non_overlapping_sets`.
  - One merging round (`Round`, the inner `step`) is iterated to its first
    fixed point.
  - The result is proved to be the connected components of the "sets
    intersect" relation: a partition of the union, idempotent, and the
    identity on families that are already disjoint.
- `subspaces.dfy` (module `Subspaces`): `subspaces` and `block_slices`.
  - Also holds the contiguous-hull variant of the slices described under
    Findings.
- `align.dfy` (module `Align`): the objective (`objective`), one greedy swap
  round (`step`), and its iteration to a local optimum.
  - The round is the method `Step`, with the `for` loops of lines 89-99,
    proved against the recursive specification `StepFrom`.
  - `AlignBlock` is the `fixpoint` call of line 104.
- `permutation.dfy` (module `Permutation`): `find_permutation` itself.
  - The triple scan of lines 61-66 and the matrix width it implies.
  - Building the dense block of each slice.
  - The in-place update of the permutation array (`perm[slc] = out`).
  - Every way the routine can raise.
- `outcomes.dfy` (module `Outcomes`): exact conditions for each outcome of
  `find_permutation`.
- `examples.dfy` (module `Examples`): small inputs carried through the whole
  routine.
- `sets.dfy` (module `Sets`) and `results.dfy` (module `Results`): finite-set
  helpers, and the failures as values.

Python exceptions become values of `Results.Failure`:

| failure | Python error | source line |
|---|---|---|
| `MissingRow` | a `KeyError` | line 64 |
| `NoEntries` | unpacking an empty `zip` | line 58 |
| `EmptyRow` | `min` of an empty list | lines 35-36 |
| `RaggedBlock` | a block that does not fit the inferred matrix width | lines 80/93 |

When several apply, they are raised in the order of the table.

`Permutation.Find(dots, squareMatrix)` is the routine's result.

- With `squareMatrix` false, it is `find_permutation` as written. The COO
  matrix at line 59 gets no shape, so its width is one more than the largest
  column that holds a non-zero overlap.
- With `squareMatrix` true, the matrix is n by n. This is the corrected
  behaviour (see Findings).

Where the code and the behaviour described for it differ, the model follows
the code:

- Two states exchanged between the sets (`{0: {1: x}, 1: {0: x}}`) give two
  subspaces, `([0], [1])` and `([1], [0])`, not one
  (`Subspaces.AntiDiagonalSubspaces`).
  - `block_slices` still merges them into one slice, and the search returns
    `[1, 0]` (`Examples.ExchangedFound`).
- An input with no non-zero overlap does not return the identity: line 58
  raises (`Outcomes.FindNoEntries`).
- A row with no overlaps yields the pair `([], [])`
  (`Subspaces.EmptyRowGivesEmptyPair`). `block_slices` then raises on it
  (`Outcomes.FindEmptyRow`).
- The slices of `block_slices` are not always disjoint (Findings).
  - Each slice is aligned in turn, starting from the permutation as the
    earlier slices left it (line 104 reads `perm[slc]`, not the identity).
- Each swap within a round starts from the best arrangement found so far in
  that round (line 92), not from the round's start.
- The first comparison inside `fixpoint` for the grouping compares a list
  with a set, so it never holds. The first round always runs again, which
  does not change the result.

## Model

| member | source | states |
|---|---|---|
| Fixpoint.FirstFixpoint | band_dot/_private.py:114-119 | iterating a step from a start that satisfies an invariant the step preserves, with a rank every changing step lowers, reaches a value the step maps to itself, and that value still satisfies the invariant |
| Fixpoint.FirstFixpointIsFirst | band_dot/_private.py:114-119 | the fixed point is reached after some k steps, and no earlier iterate is a fixed point: it is the first value the loop returns |
| Fixpoint.Fixpoint | band_dot/_private.py:114-119 | the `while True` loop returns exactly the first fixed point of the iteration |
| Grouping.Round | band_dot/_private.py:22-24 | one merging round replaces every member by the union of the members it intersects; `MergeContains` and `MergeSource` state what each union holds, and `RoundKeepsInv` and `RoundLowersRank` state what a round keeps and how it makes progress |
| Grouping.GroupIntoNonOverlappingSets | band_dot/_private.py:18-26 | the first fixed point of `Round` from the input family (`GroupsAreFirstFixpoint`); `GroupsPartition` and `GroupsAreComponents` prove the groups are the connected components of the input sets, and `GroupingIdempotent` proves that grouping twice changes nothing |
| Grouping.MergeContains | band_dot/_private.py:24 | every member that intersects s is contained in the union built for s |
| Grouping.MergeSource | band_dot/_private.py:24 | every element of the union built for s comes from a member that intersects s |
| Grouping.RoundKeepsUnion | band_dot/_private.py:22-24 | one merging round keeps the union of the family unchanged |
| Grouping.RoundKeepsEmpty | band_dot/_private.py:22-24 | a round produces the empty set exactly when the family holds it |
| Grouping.RoundKeepsInv | band_dot/_private.py:22-24 | a round keeps the grouping invariant: every input set lies inside some member, every member is a union of input sets, and the members are linked |
| Grouping.RoundLowersRank | band_dot/_private.py:22-24 | a round that changes the family strictly lowers its rank, so the fixpoint iteration terminates |
| Grouping.RoundConverges | band_dot/_private.py:21-26 | the round meets the invariant-and-rank conditions under which the fixpoint iteration has a first fixed point |
| Grouping.FixedIsSettled | band_dot/_private.py:22-26 | a family that a round leaves unchanged has no two distinct intersecting members |
| Grouping.GroupingFacts | band_dot/_private.py:18-26 | the grouping of any family satisfies the grouping invariant and has pairwise non-intersecting members |
| Grouping.GroupsAreFirstFixpoint | band_dot/_private.py:18-26 | the grouping is exactly the first fixed point of the merging round, starting from the input family |
| Grouping.GroupsAreFixed | band_dot/_private.py:26 | another merging round leaves the grouping unchanged |
| Grouping.GroupsPartition | band_dot/_private.py:18-26 | the groups are pairwise disjoint with the same union as the input; every input set lies in exactly one group; the empty set is a group exactly when it is an input; there are at most as many groups as input sets |
| Grouping.GroupsAreComponents | band_dot/_private.py:18-26 | two elements share a group exactly when a chain of intersecting input sets links them: the groups are the connected components |
| Grouping.DisjointUnchanged | band_dot/_private.py:18-26 | a family of pairwise disjoint sets is returned unchanged |
| Grouping.GroupingIdempotent | band_dot/_private.py:18-26 | grouping a grouping changes nothing |
| Grouping.LinkedBetween | band_dot/_private.py:28-29 | when every input set is an interval, an element linked to a larger one is also linked to every value in between |
| Grouping.ContiguousGroups | band_dot/_private.py:28-29 | grouping sets that are intervals yields groups that are intervals |
| Sets.SortedList | band_dot/_private.py:14 | the sorted list of a finite set is strictly ascending and holds exactly the set's elements |
| Sets.Range | band_dot/_private.py:35 | `range(lo, hi)` as a set: exactly the naturals from lo up to but excluding hi |
| Sets.SetMin | band_dot/_private.py:35 | `min` of a non-empty set is a member no greater than any member |
| Sets.SetMax | band_dot/_private.py:35 | `max` of a non-empty set is a member no smaller than any member |
| Subspaces.GroupedColumns | band_dot/_private.py:8-9 | every row's column set lies inside a column group, the groups do not intersect, and together they hold exactly the columns that occur |
| Subspaces.Subspaces | band_dot/_private.py:7-16 | one pair of sorted row and column lists per column group; `SubspaceRows`, `RowCovered`, `RowInOnePair` and `ColumnsPartitioned` prove the pairs partition the overlapping rows and columns, and `SubspacesAreComponents` proves each pair's columns are one connected component |
| Subspaces.SubspacesSorted | band_dot/_private.py:14 | both lists of every pair are strictly ascending |
| Subspaces.EmptyHasNoSubspaces | band_dot/_private.py:7-16 | an empty overlap map has no subspaces |
| Subspaces.SubspaceRows | band_dot/_private.py:13 | a pair's rows are exactly the rows whose columns meet the pair's columns, and every column of those rows is in the pair |
| Subspaces.RowCovered | band_dot/_private.py:7-16 | every row with an overlap appears in some pair |
| Subspaces.RowInOnePair | band_dot/_private.py:7-16 | a row with an overlap appears in only one pair |
| Subspaces.ColumnsPartitioned | band_dot/_private.py:8-14 | every occurring column is in exactly one pair, and pairs hold only occurring columns |
| Subspaces.SubspacesAreComponents | band_dot/_private.py:5-16 | a pair's columns are a full connected component of the "appear in the same row" relation |
| Subspaces.EmptyRowGivesEmptyPair | band_dot/_private.py:8-14 | the pair ([], []) appears exactly when some row has no overlaps |
| Subspaces.AntiDiagonalSubspaces | band_dot/_private.py:7-16 | two exchanged states give two separate pairs ([0], [1]) and ([1], [0]) |
| Subspaces.SpanSet | band_dot/_private.py:35-36 | the union of the range of a pair's rows and the range of its columns; `SpanSetBounds` and `HullHoldsSpan` relate it to the pair and to the pair's contiguous hull |
| Subspaces.BlockSlices | band_dot/_private.py:33-40 | `block_slices`, failing with the empty-`min` error on an empty pair; `BlockSlicesFailure`, `BlockSlicesShape`, `BlockSlicesCover`, `BlockSlicesTight` and `BlockSlicesWithin` prove when it fails and that the slices are ascending, cover every pair and are no wider than the pairs demand |
| Subspaces.SpanSetsCard | band_dot/_private.py:35-37 | there are no more index sets than pairs |
| Subspaces.SortByMinMembers | band_dot/_private.py:39 | sorting by minimum keeps exactly the groups |
| Subspaces.SortByMinOrdered | band_dot/_private.py:39 | the sorted groups have strictly increasing minima |
| Subspaces.SliceCoversMember | band_dot/_private.py:40 | the slice from min to max + 1 contains the whole set |
| Subspaces.BlockSlicesFailure | band_dot/_private.py:33-37 | `block_slices` fails exactly when some row has no overlaps, and then with the empty-`min` error |
| Subspaces.BlockSlicesShape | band_dot/_private.py:33-40 | the slices have strictly increasing starts and are no more numerous than the pairs |
| Subspaces.BlockSlicesCover | band_dot/_private.py:33-40 | every pair's rows and columns lie inside one slice |
| Subspaces.BlockSlicesTight | band_dot/_private.py:33-40 | each slice starts and ends at an index that some pair actually spans, so no slice is wider than its pairs demand |
| Subspaces.BlockSlicesWithin | band_dot/_private.py:33-40 | when all rows and columns are below n, every slice ends at or below n |
| Subspaces.HullHoldsSpan | band_dot/_private.py:28-29 | a pair's hull, from its least to its greatest index, is an interval that holds every row and column of the pair |
| Subspaces.HullSlicesDisjoint | band_dot/_private.py:28-40 | the hull slices fail exactly when the written ones fail, with the same error; on success they are ascending and never overlap |
| Subspaces.ContiguousSlicesDisjoint | band_dot/_private.py:28-29 | for every overlap map, the corrected slices fail exactly when `block_slices` does, and otherwise are ascending and pairwise disjoint, as the comment promises |
| Subspaces.ContiguousSlicesCover | band_dot/_private.py:28-29 | every pair's hull lies inside one corrected slice |
| Align.Weight | band_dot/_private.py:78 | the weight `(r - c)^2` is never negative, and is zero exactly on the diagonal |
| Align.Objective | band_dot/_private.py:78-80 | the sum of each entry times the weight of its position; `Weight` proves the weights vanish exactly on the diagonal, and `ObjectiveTwoByTwo` evaluates it on two-by-two blocks |
| Align.StepFrom | band_dot/_private.py:84-101 | the swap round from pair (i, j) on, trying each swap against the best arrangement so far and keeping it only on a strictly lower objective; `StepFromNoWorse`, `StepFromKeepsOptimal`, `StepFromImproves` and `StepFixedIffOptimal` prove it never worsens the block and stops exactly at a local optimum |
| Align.Aligned | band_dot/_private.py:103-104 | the swap round iterated until it changes nothing; `AlignedProperties`, `AlignedIdempotent` and `AlignedIsFirstFixpoint` prove the result is locally optimal, no worse than the start, a column permutation of it, and the first fixed point of the round |
| Align.ObjectiveTwoByTwo | band_dot/_private.py:80 | the objective of a two-by-two block is the sum of its off-diagonal entries |
| Align.SwapEntries | band_dot/_private.py:94 | swapping two positions exchanges those entries and leaves every other entry alone |
| Align.SwapPermutation | band_dot/_private.py:94 | swapping two positions of a permutation yields a permutation |
| Align.SwapPermuteColumns | band_dot/_private.py:93-94 | swapping two columns of a block whose columns are permuted by sigma is the same as permuting by sigma with those two positions swapped |
| Align.Step | band_dot/_private.py:84-101 | the nested `for` loops compute the round specified by `StepFrom`: every ordered pair i != j is tried in turn against the best arrangement so far |
| Align.ConsiderNoWorse | band_dot/_private.py:92-99 | trying one swap either keeps the best arrangement or replaces it by one of strictly lower objective |
| Align.StepFromNoWorse | band_dot/_private.py:89-101 | a round never raises the objective, and lowers it strictly whenever it changes the arrangement |
| Align.StepFromKeepsOptimal | band_dot/_private.py:89-101 | a round leaves unchanged a block that no single swap improves |
| Align.StepFromImproves | band_dot/_private.py:89-101 | if some swap still to be tried improves the block, the round ends with a strictly lower objective |
| Align.StepFixedIffOptimal | band_dot/_private.py:84-101 | a round leaves an arrangement unchanged exactly when no single column swap lowers its objective |
| Align.StepTracks | band_dot/_private.py:84-101 | after a round the block is still the original block with columns permuted by some sigma, and the permutation is the original one reindexed by the same sigma |
| Align.StepReachable | band_dot/_private.py:84-101 | a round keeps the arrangement reachable from the start, and a changing round lowers its rank |
| Align.StepConverges | band_dot/_private.py:103-104 | the round meets the invariant-and-rank conditions under which the fixpoint iteration has a first fixed point |
| Align.AlignedProperties | band_dot/_private.py:103-104 | the result is locally optimal, has an objective no greater than the start, and is a column permutation of the start |
| Align.AlignedIdempotent | band_dot/_private.py:103-104 | alignment returns its input exactly when the input is already locally optimal, and aligning an aligned arrangement changes nothing |
| Align.AlignedIsFirstFixpoint | band_dot/_private.py:104 | alignment is exactly the first fixed point of the swap round |
| Align.AlignBlock | band_dot/_private.py:104 | the `fixpoint` loop over the swap round returns the aligned arrangement |
| Align.StepTwoByTwo | band_dot/_private.py:89-91 | in a two-by-two block a round tries the swap (0, 1) and then (1, 0) |
| Align.AlignedExchange | band_dot/_private.py:104 | the block [[0, x], [x, 0]] aligns to [[x, 0], [0, x]] with permutation [1, 0] |
| Align.Identity | band_dot/_private.py:69 | `np.arange(n)` maps every index to itself |
| Permutation.Abs | band_dot/_private.py:55 | the magnitude is non-negative, equals v or -v, and is zero exactly when v is |
| Permutation.Triples | band_dot/_private.py:61-66 | the triples of the scan, or the `KeyError` of a missing row; `TriplesUpToFailure` and `TriplesUpToEntries` prove it fails exactly on a missing row and otherwise yields exactly the non-zero entries in the n-by-n range |
| Permutation.MatrixWidth | band_dot/_private.py:59 | the width the COO matrix infers; `MatrixWidthTight` proves it is one more than the largest column of a triple |
| Permutation.RowTriplesEntries | band_dot/_private.py:63-66 | the triples of row i are exactly its non-zero entries with column below n |
| Permutation.TriplesUpToFailure | band_dot/_private.py:61-64 | the scan raises `KeyError` exactly when a row index below the bound is missing |
| Permutation.TriplesUpToEntries | band_dot/_private.py:61-66 | a successful scan yields exactly the non-zero entries in the n-by-n range |
| Permutation.MatrixWidthTight | band_dot/_private.py:59 | the inferred width exceeds every column of a triple, and some triple reaches the last column |
| Permutation.CollectTriples | band_dot/_private.py:57-67 | the nested loops produce the specified triples and the width the matrix infers from them |
| Permutation.CollectRow | band_dot/_private.py:63-66 | the inner loop appends exactly row i's triples and keeps the running width |
| Permutation.DenseBlock | band_dot/_private.py:73-75 | the dense block of a slice is square, with the slice's size |
| Permutation.ApplySlice | band_dot/_private.py:73-105 | one slice realigned: the slice's dense block is aligned starting from the current segment of the permutation, and the segment is replaced by the permutation that alignment carries along; `ApplySlicePermutes` and `ApplySliceOutside` prove the result is still a permutation and unchanged outside the slice |
| Permutation.AssignSlice | band_dot/_private.py:105 | `perm[slc] = out` overwrites exactly the slice and leaves the rest of the array unchanged |
| Permutation.AlignSlice | band_dot/_private.py:72-105 | one loop iteration fails exactly on a slice that does not fit the width, and otherwise realigns that slice of the array |
| Permutation.AlignSlices | band_dot/_private.py:69-107 | the loop over the slices fails on the first one that does not fit, and otherwise returns the identity with each slice aligned in order |
| Permutation.AlignAllRagged | band_dot/_private.py:77-93 | any slice that does not fit makes the whole loop fail |
| Permutation.AlignAllClean | band_dot/_private.py:69-107 | when every slice fits, the loop returns the identity with all slices applied |
| Permutation.SlicesValid | band_dot/_private.py:72 | every slice of a well-formed input ends within the permutation |
| Permutation.Find | band_dot/_private.py:51-107 | `find_permutation`'s result, failures included; `FindSucceeds`, `FindPermutes` and `FindFixesOutside` prove a success is a permutation that fixes every index outside the slices, and the lemmas of `Outcomes` give the exact condition for each failure |
| Permutation.FindPermutation | band_dot/_private.py:51-107 | the routine, with its array updated in place, returns the specified result for every input, failures included |
| Permutation.ApplySlicePermutes | band_dot/_private.py:104-105 | realigning one slice keeps the array a permutation |
| Permutation.ApplyFirstPermutes | band_dot/_private.py:72-105 | realigning any number of slices in turn keeps the array a permutation |
| Permutation.ApplySliceOutside | band_dot/_private.py:105 | realigning a slice leaves every index outside it unchanged |
| Permutation.ApplyFirstOutside | band_dot/_private.py:72-105 | indices outside all realigned slices keep their value |
| Permutation.FindSucceeds | band_dot/_private.py:51-107 | a successful result is the identity with every block slice aligned in order |
| Permutation.FindPermutes | band_dot/_private.py:51-107 | every successful result is a permutation of 0..n-1 |
| Permutation.FindFixesOutside | band_dot/_private.py:69-107 | an index in no slice is mapped to itself |
| Outcomes.TriplesEmpty | band_dot/_private.py:58-66 | the scan finds no entry exactly when no row has an overlap |
| Outcomes.FindMissingRow | band_dot/_private.py:64 | the routine raises `KeyError` exactly when some index below n is not a row |
| Outcomes.FindNoEntries | band_dot/_private.py:58 | with all rows present, the routine fails on the empty `zip` exactly when no row has an overlap |
| Outcomes.FindEmptyRow | band_dot/_private.py:35 | with all rows present and some overlap, it fails on the empty `min` exactly when some row is empty |
| Outcomes.FindRagged | band_dot/_private.py:59 | as written, it fails on a block wider than the inferred matrix exactly when the earlier checks pass and some slice of two or more indices ends past the width |
| Outcomes.SquareNeverRagged | band_dot/_private.py:59 | an n-by-n matrix never fails on the block shape, and wherever the as-written routine succeeds the two agree |
| Outcomes.SquareSucceeds | band_dot/_private.py:51-107 | with an n-by-n matrix the routine succeeds exactly when all rows are present, some row has an overlap and no row is empty |
| Examples.Column0Ragged | band_dot/_private.py:59 | two rows overlapping only column 0 make the as-written routine fail: the width is 1 but the slice is [0, 2) |
| Examples.Column0Square | band_dot/_private.py:59 | the same input with an n-by-n matrix gives the permutation [0, 1] |
| Examples.ExchangedFound | band_dot/_private.py:51-107 | two exchanged states give the permutation [1, 0] |
| Examples.MostlyFound | band_dot/_private.py:51-107 | two states that mostly overlap themselves keep the identity [0, 1] |
| Examples.TieKept | band_dot/_private.py:96 | a swap that only ties the objective is not taken |
| Examples.CrossedSubspaces | band_dot/_private.py:7-16 | three states reversed between the sets give three one-by-one pairs |
| Examples.CrossedSlices | band_dot/_private.py:35-40 | for those three states `block_slices` returns the overlapping slices [0, 3) and [1, 2) |
| Examples.CrossedContiguous | band_dot/_private.py:28-29 | for the same input the contiguous slices are the single slice [0, 3) |

## Left out

- The package facade (`band_dot/__init__.py`) is not part of this model. It
  builds the overlap map from dense matrices and turns the permutation into
  output.
- numpy and scipy are not modelled as libraries. The model keeps only the
  behaviour used here:
  - the COO matrix's inferred shape;
  - `tocsc` and `mat[slc, slc]` as dense-block extraction;
  - `todense`;
  - fancy-index column swaps;
  - slice assignment.
- Views and copies of numpy arrays are modelled as values. Aliasing never
  affects the result here, because line 92 copies before each swap.
- Floating point is not modelled: overlaps and the objective are exact reals.
  Rounding could make the float comparison at line 96 differ from the exact
  one, and NaN overlaps are not considered.
- Permutation.Abs: models `abs` of real overlaps only. The complex overlaps
  that `abs` also accepts are not modelled.
- `CompareAsBool` (lines 110-112) and `thru` (lines 42-43) are not separate
  members. Their effect appears where they are used:
  - element-wise array equality becomes sequence equality;
  - collecting the generator into a `set` becomes a set comprehension.
- `group_keys_by_matching_value` (lines 45-49) is not modelled. Nothing in the
  module calls it.
- Subspaces.Subspaces: returns the pairs as a set. Python's generator yields
  them in the iteration order of a frozenset, which the language does not fix.
  Nothing downstream depends on that order, because `block_slices` sorts.
- Permutation.Find, Permutation.FindPermutation and every lemma in Outcomes:
  require `WellFormed`:
  - every stored column is below the number of rows;
  - every stored overlap is non-zero.

  The code relies on these conditions: a zero or out-of-range entry is seen
  by `subspaces` but skipped by the scan of lines 61-66. The facade
  (`band_dot/__init__.py:57-65`) stores only non-zero overlaps, but it can
  still break the column bound. It accepts any two-dimensional array, and it
  creates a row only when that row keeps a non-zero overlap. If the last
  rows' overlaps are all dropped, the number of rows is smaller than the
  number of columns. Such facade inputs are outside this model.
- Permutation.Find: on a slice of one index past the inferred width, it
  behaves as if the block were one-by-one. The only difference in the source
  is the shape of an empty block on which no swap is tried.
- Fixpoint.Fixpoint: the Python loop has no termination argument. The model
  asks the caller for an invariant and a rank, and both callers provide them
  (`Grouping.RoundConverges`, `Align.StepConverges`).
- Subspaces.ContiguousSlicesDisjoint: does not show that the overlapping
  slices of `block_slices` give a wrong permutation. Two overlapping slices
  realign some indices twice, which `Permutation.FindPermutes` shows still
  yields a permutation. That the result is then worse than intended is not
  proved.
- Permutation.Find: uses the slices of `block_slices` as written, not the
  corrected contiguous ones. `Permutation.FindPermutes` and
  `Permutation.FindFixesOutside` hold for any slices within the range.

## Findings

| source | as written | input that shows it | evidently intended | confidence | as-written member | corrected member |
|---|---|---|---|---|---|---|
| band_dot/_private.py:59 | the COO matrix gets no shape, so its width is one more than the largest column with a non-zero overlap, which can be less than n | `{0: {0: 1.0}, 1: {0: 1.0}}`: the width is 1, the only slice is [0, 2), and its 2-by-1 block broadcasts against the 2-by-2 weights, so the objective is computed, and then fails at the column swap of line 93, which indexes the missing column 1 | an n-by-n matrix, giving the permutation [0, 1] for this input and success whenever all rows are present and non-empty | high, not executed | Examples.Column0Ragged | Outcomes.SquareSucceeds |
| band_dot/_private.py:35-36 | each pair's index set is the union of two separate ranges, which has a gap when the rows and columns lie apart; the comment at lines 28-29 promises contiguous sets, and line 40 turns a set with a gap into a slice that can contain another slice | `{0: {2: 0.9}, 1: {1: 0.9}, 2: {0: 0.9}}`: the set {0, 2} becomes the slice [0, 3), which overlaps the slice [1, 2) | one contiguous range per pair, so that the slices are disjoint: the single slice [0, 3) here | medium, not executed | Examples.CrossedSlices | Subspaces.ContiguousSlicesDisjoint |
