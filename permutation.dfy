/** `find_permutation`: the triples of the sparse matrix, the merged block slices, and one
    alignment loop per slice written back into the permutation. */
module Permutation {
  import opened Sets
  import opened Results
  import opened Subspaces
  import opened Align

  /** The overlap map's own invariant: every column index is below the number of rows, and no
      stored magnitude is zero. */
  predicate WellFormed(dots: Sparse)
  {
    forall r, c :: r in dots && c in dots[r] ==> c < |dots| && dots[r][c] != 0.0
  }

  /** Line 55: the magnitude of an overlap. */
  function Abs(v: real): (a: real)
    ensures a >= 0.0 && (a == v || a == -v)
    ensures a == 0.0 <==> v == 0.0
  {
    if v < 0.0 then -v else v
  }

  /** One entry handed to the sparse matrix constructor: (row, column, magnitude). */
  datatype Triple = Triple(row: nat, col: nat, value: real)

  /** Lines 63-66 for row i: the non-zero magnitudes at columns below `cols`, in column order. */
  function RowTriples(row: map<nat, real>, i: nat, cols: nat): seq<Triple>
  {
    if cols == 0 then []
    else
      var j := cols - 1;
      RowTriples(row, i, j) + (if j in row && Abs(row[j]) != 0.0 then [Triple(i, j, Abs(row[j]))] else [])
  }

  /** Lines 61-66 for the rows below `rows`: the generator `ijvpairs`, or the KeyError that a missing
      row raises while it runs. */
  function TriplesUpTo(dots: Sparse, n: nat, rows: nat): Result<seq<Triple>>
  {
    if rows == 0 then Success([])
    else
      match TriplesUpTo(dots, n, rows - 1)
      case Failure(e) => Failure(e)
      case Success(ts) =>
        if rows - 1 in dots then Success(ts + RowTriples(dots[rows - 1], rows - 1, n)) else Failure(MissingRow)
  }

  /** Lines 54 and 61-66: every triple of the n-by-n index range. */
  function Triples(dots: Sparse): Result<seq<Triple>>
  {
    TriplesUpTo(dots, |dots|, |dots|)
  }

  /** A triple of row i records a non-zero magnitude stored at a column below `cols`. */
  lemma {:induction false} RowTriplesEntries(row: map<nat, real>, i: nat, cols: nat)
    ensures forall t :: t in RowTriples(row, i, cols) <==>
      t.row == i && t.col < cols && t.col in row && row[t.col] != 0.0 && t.value == Abs(row[t.col])
  {
    if cols > 0 {
      RowTriplesEntries(row, i, cols - 1);
    }
  }

  /** The generator fails exactly when some row below `rows` is missing, and then with a KeyError. */
  lemma {:induction false} TriplesUpToFailure(dots: Sparse, n: nat, rows: nat)
    ensures TriplesUpTo(dots, n, rows).Failure? <==> exists i :: 0 <= i < rows && i !in dots
    ensures TriplesUpTo(dots, n, rows).Failure? ==> TriplesUpTo(dots, n, rows).error == MissingRow
  {
    if rows > 0 {
      TriplesUpToFailure(dots, n, rows - 1);
    }
  }

  /** On success the triples are exactly the non-zero magnitudes stored in rows below `rows` at
      columns below n. */
  lemma {:induction false} TriplesUpToEntries(dots: Sparse, n: nat, rows: nat)
    requires TriplesUpTo(dots, n, rows).Success?
    ensures forall t :: t in TriplesUpTo(dots, n, rows).value <==>
      t.row < rows && t.col < n && t.row in dots && t.col in dots[t.row] &&
      dots[t.row][t.col] != 0.0 && t.value == Abs(dots[t.row][t.col])
  {
    if rows > 0 {
      TriplesUpToEntries(dots, n, rows - 1);
      RowTriplesEntries(dots[rows - 1], rows - 1, n);
    }
  }

  /** The number of columns the sparse matrix constructor infers from its triples: one more than the
      largest column index (line 59, which passes no shape). */
  function MatrixWidth(ts: seq<Triple>): nat
  {
    if ts == [] then 0
    else
      var rest := MatrixWidth(ts[..|ts| - 1]);
      var last := ts[|ts| - 1].col + 1;
      if rest < last then last else rest
  }

  /** Every column lies below the inferred width, and the last column of the width is used. */
  lemma {:induction false} MatrixWidthTight(ts: seq<Triple>)
    ensures forall t :: t in ts ==> t.col < MatrixWidth(ts)
    ensures ts != [] ==> exists t :: t in ts && t.col + 1 == MatrixWidth(ts)
  {
    if ts != [] {
      var init := ts[..|ts| - 1];
      MatrixWidthTight(init);
      assert ts == init + [ts[|ts| - 1]];
      if init != [] {
        var t :| t in init && t.col + 1 == MatrixWidth(init);
        assert t in ts;
      }
    }
  }

  /** Lines 57-67, the loops: collect the triples and the width of the matrix they make. */
  method CollectTriples(dots: Sparse) returns (r: Result<seq<Triple>>, width: nat)
    ensures r == Triples(dots)
    ensures r.Success? ==> width == MatrixWidth(r.value)
  {
    var n := |dots|;
    var ts: seq<Triple> := [];
    width := 0;
    for i := 0 to n
      invariant TriplesUpTo(dots, n, i) == Success(ts)
      invariant width == MatrixWidth(ts)
    {
      if i !in dots {
        TriplesMissingRow(dots, n, i + 1, n);
        return Failure(MissingRow), width;
      }
      ghost var before := ts;
      ts, width := CollectRow(dots[i], i, n, ts, width);
      assert TriplesUpTo(dots, n, i + 1) == Success(before + RowTriples(dots[i], i, n));
    }
    r := Success(ts);
  }

  /** Lines 63-66, the inner loop for row i: append the row's triples and widen the matrix to
      take them. */
  method CollectRow(row: map<nat, real>, i: nat, n: nat, ts0: seq<Triple>, width0: nat)
    returns (ts: seq<Triple>, width: nat)
    requires width0 == MatrixWidth(ts0)
    ensures ts == ts0 + RowTriples(row, i, n)
    ensures width == MatrixWidth(ts)
  {
    ts, width := ts0, width0;
    for j := 0 to n
      invariant ts == ts0 + RowTriples(row, i, j)
      invariant width == MatrixWidth(ts)
    {
      if j in row {
        var v := Abs(row[j]);
        if v != 0.0 {
          ghost var shorter := ts;
          ts := ts + [Triple(i, j, v)];
          assert ts[..|ts| - 1] == shorter;
          if width < j + 1 {
            width := j + 1;
          }
        }
      }
    }
  }

  /** Once the generator has failed, later rows change nothing. */
  lemma {:induction false} TriplesMissingRow(dots: Sparse, n: nat, k: nat, rows: nat)
    requires k <= rows && TriplesUpTo(dots, n, k) == Failure(MissingRow)
    ensures TriplesUpTo(dots, n, rows) == Failure(MissingRow)
    decreases rows - k
  {
    if k < rows {
      TriplesMissingRow(dots, n, k + 1, rows);
    }
  }

  /** With every row 0, ..., n-1 present among n keys, no other key exists. */
  lemma RowsInRange(dots: Sparse)
    requires forall i :: 0 <= i < |dots| ==> i in dots
    ensures forall r :: r in dots ==> r < |dots|
  {
    var range := Range(0, |dots|);
    RangeCard(0, |dots|);
    SubsetCard(range, dots.Keys);
  }

  /** Lines 73 and 75: the magnitude at (r, c) of the dense matrix, zero where nothing is stored. */
  function Magnitude(dots: Sparse, r: nat, c: nat): real
  {
    if r in dots && c in dots[r] then Abs(dots[r][c]) else 0.0
  }

  /** Lines 73-75: the dense block of rows and columns start, ..., stop-1. */
  function DenseBlock(dots: Sparse, slc: Slice): (b: Block)
    requires slc.start <= slc.stop
    ensures Square(b) && |b| == slc.stop - slc.start
  {
    var size := slc.stop - slc.start;
    seq(size, r requires 0 <= r => seq(size, c requires 0 <= c => Magnitude(dots, slc.start + r, slc.start + c)))
  }

  /** Lines 104-105: the alignment loop on the block of one slice, started from that slice of the
      permutation, with its result written back into the slice. */
  function ApplySlice(dots: Sparse, slc: Slice, perm: seq<nat>): (p: seq<nat>)
    requires slc.start <= slc.stop <= |perm|
    ensures |p| == |perm|
  {
    var out := Aligned(DenseBlock(dots, slc), perm[slc.start..slc.stop]);
    perm[..slc.start] + out.perm + perm[slc.stop..]
  }

  /** Every slice is a valid index range of a sequence of length n. */
  predicate SlicesWithin(slices: seq<Slice>, n: nat)
  {
    forall k :: 0 <= k < |slices| ==> slices[k].start <= slices[k].stop <= n
  }

  /** Lines 72-105 after k rounds of the loop: the first k slices applied in order, each to the
      permutation the previous ones left. */
  function ApplyFirst(dots: Sparse, slices: seq<Slice>, k: nat, perm: seq<nat>): (p: seq<nat>)
    requires k <= |slices| && SlicesWithin(slices, |perm|)
    ensures |p| == |perm|
  {
    if k == 0 then perm
    else ApplySlice(dots, slices[k - 1], ApplyFirst(dots, slices, k - 1, perm))
  }

  /** Lines 72-105: every slice applied in order. */
  function ApplySlices(dots: Sparse, slices: seq<Slice>, perm: seq<nat>): (p: seq<nat>)
    requires SlicesWithin(slices, |perm|)
  {
    ApplyFirst(dots, slices, |slices|, perm)
  }

  /** A slice of two or more indices that reaches past the width of the matrix: line 73 then cuts
      the block's columns short, and lines 80 or 93 fail on the block. */
  predicate Ragged(slc: Slice, width: nat)
  {
    slc.stop - slc.start >= 2 && slc.stop > width
  }

  /** Lines 69-107 once the matrix and the slices exist. */
  function AlignAll(dots: Sparse, slices: seq<Slice>, width: nat): Result<seq<nat>>
    requires SlicesWithin(slices, |dots|)
  {
    if exists k :: 0 <= k < |slices| && Ragged(slices[k], width) then Failure(RaggedBlock)
    else Success(ApplySlices(dots, slices, Identity(|dots|)))
  }

  /** None of the first k slices is ragged. */
  predicate NoneRagged(slices: seq<Slice>, k: nat, width: nat)
    requires k <= |slices|
  {
    k == 0 || (NoneRagged(slices, k - 1, width) && !Ragged(slices[k - 1], width))
  }

  /** A ragged slice anywhere makes the run fail. */
  lemma AlignAllRagged(dots: Sparse, slices: seq<Slice>, width: nat, k: nat)
    requires SlicesWithin(slices, |dots|) && k < |slices| && Ragged(slices[k], width)
    ensures AlignAll(dots, slices, width) == Failure(RaggedBlock)
  {
  }

  lemma {:induction false} NoneRaggedAll(slices: seq<Slice>, k: nat, width: nat)
    requires k <= |slices| && NoneRagged(slices, k, width)
    ensures forall l :: 0 <= l < k ==> !Ragged(slices[l], width)
  {
    if k > 0 {
      NoneRaggedAll(slices, k - 1, width);
    }
  }

  /** With no ragged slice the run applies every slice. */
  lemma AlignAllClean(dots: Sparse, slices: seq<Slice>, width: nat)
    requires SlicesWithin(slices, |dots|) && NoneRagged(slices, |slices|, width)
    ensures AlignAll(dots, slices, width) == Success(ApplyFirst(dots, slices, |slices|, Identity(|dots|)))
  {
    NoneRaggedAll(slices, |slices|, width);
  }

  /** Once every row is present, the slices are valid index ranges of the permutation. */
  lemma SlicesValid(dots: Sparse)
    requires WellFormed(dots) && Triples(dots).Success? && BlockSlices(dots).Success?
    ensures SlicesWithin(BlockSlices(dots).value, |dots|)
  {
    TriplesUpToFailure(dots, |dots|, |dots|);
    RowsInRange(dots);
    BlockSlicesWithin(dots, |dots|);
    BlockSlicesShape(dots);
  }

  /** Lines 51-107. With `squareMatrix` false the matrix has the width the constructor infers from
      the triples, as on line 59; with it true the matrix is n by n. */
  function Find(dots: Sparse, squareMatrix: bool): Result<seq<nat>>
    requires WellFormed(dots)
  {
    match Triples(dots)
    case Failure(e) => Failure(e)
    case Success(ts) =>
      if ts == [] then Failure(NoEntries)
      else
        match BlockSlices(dots)
        case Failure(e) => Failure(e)
        case Success(slices) =>
          SlicesValid(dots);
          AlignAll(dots, slices, if squareMatrix then |dots| else MatrixWidth(ts))
  }

  /** Line 105: `perm[slc] = out`, a slice assignment of the array. */
  method AssignSlice(perm: array<nat>, start: nat, out: seq<nat>)
    requires start + |out| <= perm.Length
    modifies perm
    ensures perm[..] == old(perm[..])[..start] + out + old(perm[..])[start + |out|..]
  {
    ghost var before := perm[..];
    for t := 0 to |out|
      invariant forall x :: 0 <= x < perm.Length ==>
        perm[x] == if start <= x < start + t then out[x - start] else before[x]
    {
      perm[start + t] := out[t];
    }
    assert perm[..] == before[..start] + out + before[start + |out|..];
  }

  /** Lines 73-105 for one slice: build the block, run the alignment loop on it from the slice of
      the permutation, and write the result back into that slice. */
  method AlignSlice(dots: Sparse, slc: Slice, width: nat, perm: array<nat>) returns (ok: bool)
    requires slc.start <= slc.stop <= perm.Length
    modifies perm
    ensures ok == !Ragged(slc, width)
    ensures ok ==> perm[..] == ApplySlice(dots, slc, old(perm[..]))
  {
    if Ragged(slc, width) {
      return false;
    }
    ok := true;
    var out := AlignBlock(DenseBlock(dots, slc), perm[slc.start..slc.stop]);
    AssignSlice(perm, slc.start, out.perm);
  }

  /** Lines 69-107: start from the identity, and for each slice in order run the alignment loop
      and write its result back; a ragged slice stops the run. */
  method AlignSlices(dots: Sparse, slices: seq<Slice>, width: nat) returns (r: Result<seq<nat>>)
    requires SlicesWithin(slices, |dots|)
    ensures r == AlignAll(dots, slices, width)
  {
    var n := |dots|;
    var perm := new nat[n](i => i);
    ghost var start := Identity(n);
    assert perm[..] == start;
    for k := 0 to |slices|
      invariant perm[..] == ApplyFirst(dots, slices, k, start)
      invariant NoneRagged(slices, k, width)
    {
      var ok := AlignSlice(dots, slices[k], width, perm);
      if !ok {
        AlignAllRagged(dots, slices, width, k);
        return Failure(RaggedBlock);
      }
    }
    AlignAllClean(dots, slices, width);
    return Success(perm[..]);
  }

  /** Lines 51-107: `find_permutation` as written when `squareMatrix` is false, and with the matrix
      built n by n when it is true. */
  method FindPermutation(dots: Sparse, squareMatrix: bool) returns (r: Result<seq<nat>>)
    requires WellFormed(dots)
    ensures r == Find(dots, squareMatrix)
  {
    var triples, width := CollectTriples(dots);
    if triples.Failure? {
      return Failure(triples.error);
    }
    if triples.value == [] {
      return Failure(NoEntries);
    }
    var sliced := BlockSlices(dots);
    if sliced.Failure? {
      return Failure(sliced.error);
    }
    SlicesValid(dots);
    r := AlignSlices(dots, sliced.value, if squareMatrix then |dots| else width);
  }

  /** Writing the aligned slice back keeps a permutation a permutation: inside the slice the new
      entries are the old ones of the slice, rearranged. */
  lemma ApplySlicePermutes(dots: Sparse, slc: Slice, perm: seq<nat>, n: nat)
    requires slc.start <= slc.stop <= |perm| && IsPermutation(perm, n)
    ensures IsPermutation(ApplySlice(dots, slc, perm), n)
  {
    var seg := perm[slc.start..slc.stop];
    var block := DenseBlock(dots, slc);
    AlignedProperties(block, seg);
    var out := Aligned(block, seg);
    var sigma :| IsPermutation(sigma, |block|) && out.block == PermuteColumns(block, sigma) &&
                 out.perm == Reindex(seg, sigma);
    SegmentPermutes(perm, slc.start, slc.stop, sigma, n);
  }

  /** Rearranging one segment of a permutation by a permutation of the segment's positions gives a
      permutation. */
  lemma SegmentPermutes(perm: seq<nat>, start: nat, stop: nat, sigma: seq<nat>, n: nat)
    requires start <= stop <= |perm| && IsPermutation(perm, n) && IsPermutation(sigma, stop - start)
    ensures IsPermutation(perm[..start] + Reindex(perm[start..stop], sigma) + perm[stop..], n)
  {
    var p := perm[..start] + Reindex(perm[start..stop], sigma) + perm[stop..];
    var source := seq(n, x requires 0 <= x < n =>
      if start <= x < stop then start + sigma[x - start] else x);
    forall x | 0 <= x < n
      ensures source[x] < n && p[x] == perm[source[x]]
    {
    }
    forall c, d | 0 <= c < d < n
      ensures p[c] != p[d]
    {
      assert source[c] != source[d];
    }
  }

  /** Each round of the loop on lines 72-105 keeps a permutation a permutation. */
  lemma {:induction false} ApplyFirstPermutes(dots: Sparse, slices: seq<Slice>, k: nat, perm: seq<nat>, n: nat)
    requires k <= |slices| && SlicesWithin(slices, |perm|) && IsPermutation(perm, n)
    ensures IsPermutation(ApplyFirst(dots, slices, k, perm), n)
  {
    if k > 0 {
      ApplyFirstPermutes(dots, slices, k - 1, perm, n);
      ApplySlicePermutes(dots, slices[k - 1], ApplyFirst(dots, slices, k - 1, perm), n);
    }
  }

  /** Writing back one slice leaves every position outside it alone. */
  lemma ApplySliceOutside(dots: Sparse, slc: Slice, perm: seq<nat>, x: nat)
    requires slc.start <= slc.stop <= |perm| && x < |perm| && x !in Indices(slc)
    ensures ApplySlice(dots, slc, perm)[x] == perm[x]
  {
  }

  /** A position outside the first k slices keeps its entry through the first k rounds. */
  lemma {:induction false} ApplyFirstOutside(dots: Sparse, slices: seq<Slice>, k: nat, perm: seq<nat>, x: nat)
    requires k <= |slices| && SlicesWithin(slices, |perm|) && x < |perm|
    requires forall l :: 0 <= l < k ==> x !in Indices(slices[l])
    ensures ApplyFirst(dots, slices, k, perm)[x] == perm[x]
  {
    if k > 0 {
      ApplyFirstOutside(dots, slices, k - 1, perm, x);
      ApplySliceOutside(dots, slices[k - 1], ApplyFirst(dots, slices, k - 1, perm), x);
    }
  }

  /** Lines 51-107 on success: every row is present, there are entries, the merge succeeded and
      no slice is ragged; the result is the slices applied in order to the identity. */
  lemma FindSucceeds(dots: Sparse, squareMatrix: bool)
    requires WellFormed(dots) && Find(dots, squareMatrix).Success?
    ensures Triples(dots).Success? && Triples(dots).value != [] && BlockSlices(dots).Success?
    ensures SlicesWithin(BlockSlices(dots).value, |dots|)
    ensures Find(dots, squareMatrix).value == ApplySlices(dots, BlockSlices(dots).value, Identity(|dots|))
  {
    SlicesValid(dots);
  }

  /** Lines 51-107: a result is a permutation of 0, ..., n-1. */
  lemma FindPermutes(dots: Sparse, squareMatrix: bool)
    requires WellFormed(dots) && Find(dots, squareMatrix).Success?
    ensures IsPermutation(Find(dots, squareMatrix).value, |dots|)
  {
    FindSucceeds(dots, squareMatrix);
    var n := |dots|;
    assert IsPermutation(Identity(n), n);
    var slices := BlockSlices(dots).value;
    ApplyFirstPermutes(dots, slices, |slices|, Identity(n), n);
  }

  /** Lines 69 and 72-105: an index that lies in no slice keeps its own position. */
  lemma FindFixesOutside(dots: Sparse, squareMatrix: bool, x: nat)
    requires WellFormed(dots) && Find(dots, squareMatrix).Success? && x < |dots|
    requires BlockSlices(dots).Success?
    requires forall k :: 0 <= k < |BlockSlices(dots).value| ==> x !in Indices(BlockSlices(dots).value[k])
    ensures x < |Find(dots, squareMatrix).value| && Find(dots, squareMatrix).value[x] == x
  {
    FindSucceeds(dots, squareMatrix);
    var slices := BlockSlices(dots).value;
    ApplyFirstOutside(dots, slices, |slices|, Identity(|dots|), x);
  }
}
