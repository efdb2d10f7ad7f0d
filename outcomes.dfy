/** What `find_permutation` reports for each kind of input: which error, exactly when, and what the
    square-matrix variant changes. */
module Outcomes {
  import opened Results
  import opened Subspaces
  import opened Align
  import opened Permutation

  /** Every row 0, ..., n-1 is present. */
  ghost predicate AllRowsPresent(dots: Sparse)
  {
    forall i :: 0 <= i < |dots| ==> i in dots
  }

  /** Some row stores no overlap at all. */
  ghost predicate SomeRowEmpty(dots: Sparse)
  {
    exists r :: r in dots && dots[r] == map[]
  }

  /** Some row stores at least one overlap. */
  ghost predicate SomeRowNonEmpty(dots: Sparse)
  {
    exists r :: r in dots && dots[r] != map[]
  }

  /** Lines 61-66 with every row present: the generator yields nothing exactly when every row is
      empty. */
  lemma TriplesEmpty(dots: Sparse)
    requires WellFormed(dots) && Triples(dots).Success?
    ensures Triples(dots).value == [] <==> !SomeRowNonEmpty(dots)
  {
    var n := |dots|;
    TriplesUpToFailure(dots, n, n);
    TriplesUpToEntries(dots, n, n);
    RowsInRange(dots);
    var ts := Triples(dots).value;
    if r :| r in dots && dots[r] != map[] {
      var c :| c in dots[r];
      assert Triple(r, c, Abs(dots[r][c])) in ts;
    }
    if ts != [] {
      assert ts[0] in ts;
    }
  }

  /** Lines 61-66: the KeyError of a missing row, exactly when a row below n is missing. */
  lemma FindMissingRow(dots: Sparse, squareMatrix: bool)
    requires WellFormed(dots)
    ensures Find(dots, squareMatrix) == Failure(MissingRow) <==> !AllRowsPresent(dots)
  {
    TriplesUpToFailure(dots, |dots|, |dots|);
    if Triples(dots).Success? {
      BlockSlicesFailure(dots);
    }
  }

  /** Line 58: unpacking an empty `zip` fails exactly when every row is present and every row is
      empty (which includes the empty map). */
  lemma FindNoEntries(dots: Sparse, squareMatrix: bool)
    requires WellFormed(dots)
    ensures Find(dots, squareMatrix) == Failure(NoEntries) <==> AllRowsPresent(dots) && !SomeRowNonEmpty(dots)
  {
    TriplesUpToFailure(dots, |dots|, |dots|);
    BlockSlicesFailure(dots);
    if Triples(dots).Success? {
      TriplesEmpty(dots);
    }
  }

  /** Lines 35-36: `min` of an empty list fails exactly when every row is present, some row has an
      overlap and some other row has none. */
  lemma FindEmptyRow(dots: Sparse, squareMatrix: bool)
    requires WellFormed(dots)
    ensures Find(dots, squareMatrix) == Failure(EmptyRow) <==>
            AllRowsPresent(dots) && SomeRowNonEmpty(dots) && SomeRowEmpty(dots)
  {
    TriplesUpToFailure(dots, |dots|, |dots|);
    BlockSlicesFailure(dots);
    if Triples(dots).Success? {
      TriplesEmpty(dots);
    }
  }

  /** Lines 59 and 72-93: with the width the constructor infers, the loop fails on a slice of two or
      more indices that reaches past the last column holding an entry, and only then. */
  lemma FindRagged(dots: Sparse)
    requires WellFormed(dots)
    ensures Find(dots, false) == Failure(RaggedBlock) <==>
            AllRowsPresent(dots) && SomeRowNonEmpty(dots) && !SomeRowEmpty(dots) &&
            Triples(dots).Success? && BlockSlices(dots).Success? &&
            exists k :: 0 <= k < |BlockSlices(dots).value| &&
                        Ragged(BlockSlices(dots).value[k], MatrixWidth(Triples(dots).value))
  {
    TriplesUpToFailure(dots, |dots|, |dots|);
    BlockSlicesFailure(dots);
    if Triples(dots).Success? {
      TriplesEmpty(dots);
    }
  }

  /** With an n-by-n matrix no slice is ragged, since every slice ends at or before n. */
  lemma SquareNeverRagged(dots: Sparse)
    requires WellFormed(dots)
    ensures Find(dots, true) != Failure(RaggedBlock)
    ensures Find(dots, false) != Failure(RaggedBlock) ==> Find(dots, false) == Find(dots, true)
  {
    TriplesUpToFailure(dots, |dots|, |dots|);
    BlockSlicesFailure(dots);
    if Triples(dots).Success? && Triples(dots).value != [] && BlockSlices(dots).Success? {
      SlicesValid(dots);
      var slices := BlockSlices(dots).value;
      assert forall k :: 0 <= k < |slices| ==> !Ragged(slices[k], |dots|);
    }
  }

  /** The n-by-n variant succeeds exactly when every row is present, some row has an overlap and no
      row is empty. */
  lemma SquareSucceeds(dots: Sparse)
    requires WellFormed(dots)
    ensures Find(dots, true).Success? <==> AllRowsPresent(dots) && SomeRowNonEmpty(dots) && !SomeRowEmpty(dots)
  {
    TriplesUpToFailure(dots, |dots|, |dots|);
    BlockSlicesFailure(dots);
    SquareNeverRagged(dots);
    if Triples(dots).Success? {
      TriplesEmpty(dots);
    }
  }
}
